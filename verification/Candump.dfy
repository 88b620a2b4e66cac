/** One capture line per frame: printing and parsing the candump log format. */
module Candump {
  import opened Common
  import opened Wire

  datatype Entry = Entry(
    tUs: int, arbitrationId: nat, dlc: nat, data: seq<byte>, isExtended: bool, isRtr: bool, iface: string)

  /* ---- numerals ----------------------------------------------------------------------------------- */

  const DIGITS: string := "0123456789ABCDEF"

  predicate Base(b: nat) {
    b == 10 || b == 16
  }

  function DigitValue(c: char): (v: nat)
    ensures v <= 16
  {
    if '0' <= c <= '9' then c as int - '0' as int
    else if 'A' <= c <= 'F' then c as int - 'A' as int + 10
    else if 'a' <= c <= 'f' then c as int - 'a' as int + 10
    else 16
  }

  predicate IsDigit(b: nat, c: char) {
    DigitValue(c) < b
  }

  predicate AllDigits(b: nat, s: string) {
    forall i :: 0 <= i < |s| ==> IsDigit(b, s[i])
  }

  function Digit(d: nat): (c: char)
    requires d < 16
    ensures DigitValue(c) == d && c != 'R' && c != '#' && !IsSpace(c)
  {
    DIGITS[d]
  }

  function Numeral(n: nat, b: nat): (s: string)
    requires Base(b)
    ensures s != [] && AllDigits(b, s)
    decreases n
  {
    if n < b then [Digit(n)] else Numeral(n / b, b) + [Digit(n % b)]
  }

  function Value(s: string, b: nat): nat
    requires Base(b) && AllDigits(b, s)
  {
    if s == [] then 0 else Value(s[..|s| - 1], b) * b + DigitValue(s[|s| - 1])
  }

  lemma {:induction false} ValueOfNumeral(n: nat, b: nat)
    requires Base(b)
    ensures Value(Numeral(n, b), b) == n
  {
    if n >= b {
      ValueOfNumeral(n / b, b);
      var head := Numeral(n / b, b);
      assert (head + [Digit(n % b)])[..|head|] == head;
    } else {
      assert Value([Digit(n)][..0], b) == 0;
    }
  }

  function Zeros(k: nat): (s: string)
    ensures |s| == k && forall i :: 0 <= i < k ==> s[i] == '0'
  {
    seq(k, _ => '0')
  }

  /** Zero-padded to at least `width` digits. */
  function Padded(n: nat, b: nat, width: nat): (s: string)
    requires Base(b)
    ensures s != [] && |s| >= width && AllDigits(b, s)
  {
    var s := Numeral(n, b);
    if |s| >= width then s else Zeros(width - |s|) + s
  }

  lemma {:induction false} ValueOfZeros(k: nat, s: string, b: nat)
    requires Base(b) && AllDigits(b, s)
    ensures Value(Zeros(k) + s, b) == Value(s, b)
    decreases k + |s|
  {
    if s != [] {
      var t := s[..|s| - 1];
      ValueOfZeros(k, t, b);
      assert (Zeros(k) + s)[..|Zeros(k) + s| - 1] == Zeros(k) + t;
    } else if k > 0 {
      ValueOfZeros(k - 1, s, b);
      assert (Zeros(k) + s)[..k - 1] == Zeros(k - 1) + s;
    }
  }

  lemma ValueOfPadded(n: nat, b: nat, width: nat)
    requires Base(b)
    ensures Value(Padded(n, b, width), b) == n
  {
    ValueOfNumeral(n, b);
    var s := Numeral(n, b);
    if |s| < width {
      ValueOfZeros(width - |s|, s, b);
    }
  }

  function Power(b: nat, k: nat): (p: nat)
    ensures b > 0 ==> p > 0
  {
    if k == 0 then 1 else b * Power(b, k - 1)
  }

  lemma {:induction false} NumeralFits(n: nat, b: nat, k: nat)
    requires Base(b) && 0 < k && n < Power(b, k)
    ensures |Numeral(n, b)| <= k
    decreases k
  {
    if n >= b {
      assert Power(b, 1) == b;
      assert n / b < Power(b, k - 1);
      NumeralFits(n / b, b, k - 1);
    }
  }

  /* ---- characters ------------------------------------------------------------------------------------ */

  /** White space of the ASCII range. */
  predicate IsSpace(c: char) {
    c == ' ' || ('\t' <= c <= '\r') || ('\U{1c}' <= c <= '\U{1f}')
  }

  predicate All(s: string, p: char -> bool) {
    forall i :: 0 <= i < |s| ==> p(s[i])
  }

  /** The longest prefix of `s` within a class of characters. */
  function Span(s: string, p: char -> bool): (t: string)
    ensures t <= s && All(t, p)
    ensures |t| < |s| ==> !p(s[|t|])
  {
    if s == [] || !p(s[0]) then [] else [s[0]] + Span(s[1..], p)
  }

  lemma {:induction false} SpanOf(a: string, b: string, p: char -> bool)
    requires All(a, p)
    requires b == [] || !p(b[0])
    ensures Span(a + b, p) == a
  {
    if a == [] {
      assert a + b == b;
    } else {
      SpanOf(a[1..], b, p);
      assert (a + b)[1..] == a[1..] + b;
    }
  }

  const Space: char -> bool := c => IsSpace(c)
  const NonSpace: char -> bool := c => !IsSpace(c)
  const Decimal: char -> bool := c => IsDigit(10, c)
  const Hexadecimal: char -> bool := c => IsDigit(16, c)

  function StripLeft(s: string): (t: string)
    ensures t == [] || !IsSpace(t[0])
  {
    s[|Span(s, Space)|..]
  }

  function StripRight(s: string): (t: string)
    ensures t <= s && (t == [] || !IsSpace(t[|t| - 1]))
  {
    if s == [] || !IsSpace(s[|s| - 1]) then s else StripRight(s[..|s| - 1])
  }

  function Strip(s: string): string {
    StripRight(StripLeft(s))
  }

  /* ---- printing ----------------------------------------------------------------------------------------- */

  function HexBytes(data: seq<byte>): (s: string)
    ensures |s| == 2 * |data| && AllDigits(16, s)
  {
    if data == [] then []
    else HexBytes(data[..|data| - 1]) + [Digit(data[|data| - 1] / 16), Digit(data[|data| - 1] % 16)]
  }

  function IdText(id: nat, isExtended: bool): string {
    Padded(id, 16, if isExtended || id > 0x7FF then 8 else 3)
  }

  function DataText(data: seq<byte>, dlc: nat, isRtr: bool): string {
    if !isRtr then HexBytes(Upto(data, dlc)) else if dlc == 0 then "R" else "R" + Numeral(dlc, 10)
  }

  function TimeText(tUs: nat): string {
    "(" + Numeral(tUs / 1000000, 10) + "." + Padded(tUs % 1000000, 10, 6) + ")"
  }

  /** One line for a frame stamped at or after 0. */
  function FormatLine(tUs: nat, id: nat, data: seq<byte>, dlc: nat, isExtended: bool, isRtr: bool,
                      iface: string): string
  {
    TimeText(tUs) + " " + iface + " " + IdText(id, isExtended) + "#" + DataText(data, dlc, isRtr)
  }

  /* ---- parsing -------------------------------------------------------------------------------------------- */

  /** The named groups of a matched line. */
  datatype Fields = Fields(sec: string, usec: string, iface: string, id: string, data: string)

  predicate InterfaceName(s: string) {
    s != [] && All(s, NonSpace)
  }

  predicate WellFormed(f: Fields) {
    && f.sec != [] && AllDigits(10, f.sec)
    && 1 <= |f.usec| <= 9 && AllDigits(10, f.usec)
    && InterfaceName(f.iface)
    && f.id != [] && AllDigits(16, f.id)
    && DataField(f.data)
  }

  /** An optional R with decimal digits, or hexadecimal digits. */
  predicate DataField(s: string) {
    if s != [] && s[0] == 'R' then AllDigits(10, s[1..]) else AllDigits(16, s)
  }

  /** `s` without an expected first character. */
  function After(s: string, c: char): Option<string> {
    if s != [] && s[0] == c then Some(s[1..]) else None
  }

  /** `(sec.usec)`, then the rest. */
  function MatchTime(s: string): (r: Option<(string, string, string)>)
    ensures r.Some? ==> r.value.0 != [] && AllDigits(10, r.value.0) && 1 <= |r.value.1| <= 9 && AllDigits(10, r.value.1)
  {
    var s1 := After(s, '(');
    if s1.None? then None
    else
      var sec := Span(s1.value, Decimal);
      var s2 := After(s1.value[|sec|..], '.');
      if sec == [] || s2.None? then None
      else
        var usec := Span(s2.value, Decimal);
        var s3 := After(s2.value[|usec|..], ')');
        if usec == [] || |usec| > 9 || s3.None? then None else Some((sec, usec, s3.value))
  }

  /** White space, a word, white space, then the rest. */
  function MatchWord(s: string): (r: Option<(string, string)>)
    ensures r.Some? ==> InterfaceName(r.value.0)
  {
    var s1 := s[|Span(s, Space)|..];
    var word := Span(s1, NonSpace);
    var s2 := s1[|word|..];
    var gap := Span(s2, Space);
    if Span(s, Space) == [] || word == [] || gap == [] then None else Some((word, s2[|gap|..]))
  }

  /** The identifier and the payload after it. */
  function MatchTail(s: string): (r: Option<(string, string)>)
    ensures r.Some? ==> r.value.0 != [] && AllDigits(16, r.value.0) && DataField(r.value.1)
  {
    var id := Span(s, Hexadecimal);
    var data := After(s[|id|..], '#');
    if id == [] || data.None? || !DataField(data.value) then None else Some((id, data.value))
  }

  /** The line pattern, on a stripped line. */
  function Match(s: string): (r: Option<Fields>)
    ensures r.Some? ==> WellFormed(r.value)
  {
    var time := MatchTime(s);
    if time.None? then None
    else
      var word := MatchWord(time.value.2);
      if word.None? then None
      else
        var tail := MatchTail(word.value.1);
        if tail.None? then None
        else Some(Fields(time.value.0, time.value.1, word.value.0, tail.value.0, tail.value.1))
  }

  function FromHex(s: string): (d: seq<byte>)
    requires |s| % 2 == 0 && AllDigits(16, s)
    ensures |d| == |s| / 2
  {
    if s == [] then []
    else
      var n := |s|;
      assert IsDigit(16, s[n - 2]) && IsDigit(16, s[n - 1]);
      FromHex(s[..n - 2]) + [16 * DigitValue(s[n - 2]) + DigitValue(s[n - 1])]
  }

  /** Six digits: padded with zeros on the right, or cut. */
  function Micros(usec: string): (s: string)
    requires AllDigits(10, usec)
    ensures |s| == 6 && AllDigits(10, s)
  {
    (usec + Zeros(6))[..6]
  }

  /** Length code, payload and whether the frame is remote; odd digits or more than 8 bytes are errors. */
  function DataOf(s: string): (r: Result<(nat, seq<byte>, bool)>)
    requires DataField(s)
    ensures r.Ok? ==> r.value.0 <= 8 && if r.value.2 then r.value.1 == [] else |r.value.1| == r.value.0
  {
    if s != [] && s[0] == 'R' then
      var dlc := Value(s[1..], 10);
      if dlc > 8 then Err else Ok((dlc, [], true))
    else if |s| % 2 != 0 || |s| > 16 then Err
    else Ok((|s| / 2, FromHex(s), false))
  }

  /** What every parsed entry satisfies. */
  predicate Normal(e: Entry) {
    && e.tUs >= 0 && e.arbitrationId < ID_LIMIT && e.dlc <= 8 && InterfaceName(e.iface)
    && (if e.isRtr then e.data == [] else |e.data| == e.dlc)
    && (e.arbitrationId > 0x7FF ==> e.isExtended)
  }

  function TimeOf(sec: string, usec: string): nat
    requires AllDigits(10, sec) && AllDigits(10, usec)
  {
    Value(sec, 10) * 1000000 + Value(Micros(usec), 10)
  }

  /** The identifier, and whether it is extended: by its length or its value. */
  function IdOf(s: string): (r: (nat, bool))
    requires AllDigits(16, s)
    ensures r.0 < ID_LIMIT && (r.0 > 0x7FF ==> r.1)
  {
    var id := Value(s, 16);
    (id % ID_LIMIT, |s| > 3 || id > 0x7FF)
  }

  function EntryOf(f: Fields): (r: Result<Entry>)
    requires WellFormed(f)
    ensures r.Ok? ==> Normal(r.value)
  {
    var data := DataOf(f.data);
    if data.Err? then Err
    else
      Ok(Entry(TimeOf(f.sec, f.usec), IdOf(f.id).0, data.value.0, data.value.1, IdOf(f.id).1, data.value.2, f.iface))
  }

  /** Blank lines and comments are skipped; a line that looks like data but is not is an error. */
  function ParseLine(line: string): (r: Result<Option<Entry>>)
    ensures r.Ok? && r.value.Some? ==> Normal(r.value.value)
  {
    var s := Strip(line);
    if s == [] || s[0] == '#' then Ok(None)
    else
      var f := Match(s);
      if f.None? then Err
      else
        var e := EntryOf(f.value);
        if e.Err? then Err else Ok(Some(e.value))
  }

  /* ---- round trip --------------------------------------------------------------------------------------------- */

  lemma SixDigits(usec: nat)
    requires usec < 1000000
    ensures |Padded(usec, 10, 6)| == 6
  {
    assert Power(10, 6) == 1000000 by {
      assert Power(10, 1) == 10 && Power(10, 2) == 100 && Power(10, 3) == 1000;
    }
    NumeralFits(usec, 10, 6);
  }

  /** A time in brackets, with at most nine digits after the point. */
  lemma BracketMatches(sec: string, usec: string, rest: string)
    requires sec != [] && AllDigits(10, sec) && 1 <= |usec| <= 9 && AllDigits(10, usec)
    ensures MatchTime("(" + (sec + ("." + (usec + (")" + rest))))) == Some((sec, usec, rest))
  {
    var s3 := ")" + rest;
    var s2 := usec + s3;
    var s1 := sec + ("." + s2);
    AfterFirst('(', s1);
    SpanOf(sec, "." + s2, Decimal);
    Remainder(sec, "." + s2);
    AfterFirst('.', s2);
    SpanOf(usec, s3, Decimal);
    Remainder(usec, s3);
    AfterFirst(')', rest);
  }

  lemma AfterFirst(c: char, s: string)
    ensures After([c] + s, c) == Some(s)
  {
    assert ([c] + s)[1..] == s;
  }

  lemma Remainder(a: string, b: string)
    ensures (a + b)[|a|..] == b
  {
  }

  lemma Brackets(sec: string, usec: string, rest: string)
    ensures "(" + sec + "." + usec + ")" + rest == "(" + (sec + ("." + (usec + (")" + rest))))
  {
  }

  lemma TimeMatches(tUs: nat, rest: string)
    ensures MatchTime(TimeText(tUs) + rest) == Some((Numeral(tUs / 1000000, 10), Padded(tUs % 1000000, 10, 6), rest))
    ensures |Padded(tUs % 1000000, 10, 6)| == 6
  {
    var sec, usec := Numeral(tUs / 1000000, 10), Padded(tUs % 1000000, 10, 6);
    SixDigits(tUs % 1000000);
    BracketMatches(sec, usec, rest);
    Brackets(sec, usec, rest);
  }

  lemma DigitIsNoSpace(c: char)
    requires IsDigit(16, c)
    ensures !IsSpace(c)
  {
  }

  lemma WordMatches(iface: string, rest: string)
    requires InterfaceName(iface) && rest != [] && !IsSpace(rest[0])
    ensures MatchWord(" " + iface + " " + rest) == Some((iface, rest))
  {
    var s2 := " " + rest;
    var s1 := iface + s2;
    var s := " " + s1;
    assert " " + iface + " " + rest == s;
    assert s1[0] == iface[0] && !IsSpace(iface[0]) by {
      assert NonSpace(iface[0]);
    }
    SpanOf(" ", s1, Space);
    assert s[1..] == s1;
    SpanOf(iface, s2, NonSpace);
    assert s1[|iface|..] == s2;
    SpanOf(" ", rest, Space);
    assert s2[1..] == rest;
  }

  /** A printed line matches, and its fields are the printed parts. */
  lemma LineMatches(tUs: nat, iface: string, id: string, data: string)
    requires InterfaceName(iface) && id != [] && AllDigits(16, id) && DataField(data)
    ensures Match(TimeText(tUs) + " " + iface + " " + id + "#" + data) ==
            Some(Fields(Numeral(tUs / 1000000, 10), Padded(tUs % 1000000, 10, 6), iface, id, data))
  {
    var rest := id + ("#" + data);
    var s := " " + iface + " " + rest;
    assert TimeText(tUs) + " " + iface + " " + id + "#" + data == TimeText(tUs) + s;
    TimeMatches(tUs, s);
    DigitIsNoSpace(id[0]);
    WordMatches(iface, rest);
    TailMatches(id, data);
    MatchIs(TimeText(tUs) + s, Numeral(tUs / 1000000, 10), Padded(tUs % 1000000, 10, 6), s, iface, rest, id, data);
  }

  lemma TailMatches(id: string, data: string)
    requires id != [] && AllDigits(16, id) && DataField(data)
    ensures MatchTail(id + ("#" + data)) == Some((id, data))
  {
    var rest := id + ("#" + data);
    SpanOf(id, "#" + data, Hexadecimal);
    assert rest[|id|..] == "#" + data && ("#" + data)[1..] == data;
  }

  lemma MatchIs(s: string, sec: string, usec: string, afterTime: string, iface: string, afterWord: string, id: string,
                data: string)
    requires MatchTime(s) == Some((sec, usec, afterTime)) && MatchWord(afterTime) == Some((iface, afterWord))
    requires MatchTail(afterWord) == Some((id, data))
    ensures Match(s) == Some(Fields(sec, usec, iface, id, data))
  {
  }

  lemma DigitPair(d: byte)
    ensures 16 * DigitValue(Digit(d / 16)) + DigitValue(Digit(d % 16)) == d
  {
  }

  /** The last pair of digits is the last byte. */
  lemma FromHexLast(s: string, head: string, d: byte)
    requires |head| % 2 == 0 && AllDigits(16, head) && AllDigits(16, s)
    requires s == head + [Digit(d / 16), Digit(d % 16)]
    ensures FromHex(s) == FromHex(head) + [d]
  {
    DigitPair(d);
    assert s[..|s| - 2] == head;
  }

  lemma {:induction false} FromHexBytes(data: seq<byte>)
    ensures FromHex(HexBytes(data)) == data
  {
    if data != [] {
      var n := |data| - 1;
      FromHexBytes(data[..n]);
      FromHexLast(HexBytes(data), HexBytes(data[..n]), data[n]);
      assert data == data[..n] + [data[n]];
    }
  }

  lemma TimeValue(tUs: nat)
    ensures TimeOf(Numeral(tUs / 1000000, 10), Padded(tUs % 1000000, 10, 6)) == tUs
  {
    ValueOfNumeral(tUs / 1000000, 10);
    ValueOfPadded(tUs % 1000000, 10, 6);
    TimeMatches(tUs, "");
    var usec := Padded(tUs % 1000000, 10, 6);
    assert (usec + Zeros(6))[..6] == usec;
  }

  lemma ThreeDigits(id: nat)
    requires id <= 0x7FF
    ensures |Padded(id, 16, 3)| == 3
  {
    assert Power(16, 3) == 4096 by {
      assert Power(16, 1) == 16 && Power(16, 2) == 256;
    }
    NumeralFits(id, 16, 3);
  }

  lemma IdValue(id: nat, isExtended: bool)
    requires id < ID_LIMIT
    ensures IdText(id, isExtended) != [] && AllDigits(16, IdText(id, isExtended))
    ensures IdOf(IdText(id, isExtended)) == (id, isExtended || id > 0x7FF)
  {
    ValueOfPadded(id, 16, if isExtended || id > 0x7FF then 8 else 3);
    if !isExtended && id <= 0x7FF {
      ThreeDigits(id);
    }
  }

  /** What a printed frame says: data cut to the length code, which it then replaces unless the frame is remote. */
  function Said(tUs: nat, id: nat, data: seq<byte>, dlc: nat, isExtended: bool, isRtr: bool, iface: string): Entry
    requires id < ID_LIMIT
  {
    var shown := if isRtr then [] else Upto(data, dlc);
    Entry(tUs, id, if isRtr then dlc else |shown|, shown, isExtended || id > 0x7FF, isRtr, iface)
  }

  lemma DataSays(data: seq<byte>, dlc: nat, isRtr: bool)
    requires dlc <= 8
    ensures DataField(DataText(data, dlc, isRtr))
    ensures DataOf(DataText(data, dlc, isRtr))
            == Ok(if isRtr then (dlc, [], true) else (|Upto(data, dlc)|, Upto(data, dlc), false))
  {
    var text := DataText(data, dlc, isRtr);
    if isRtr {
      var digits := if dlc == 0 then "" else Numeral(dlc, 10);
      assert text == "R" + digits && text[1..] == digits;
      ValueOfNumeral(dlc, 10);
    } else {
      FromHexBytes(Upto(data, dlc));
      assert text != [] ==> IsDigit(16, text[0]);
    }
  }

  lemma FieldsSay(tUs: nat, id: nat, data: seq<byte>, dlc: nat, isExtended: bool, isRtr: bool, iface: string)
    requires id < ID_LIMIT && dlc <= 8 && InterfaceName(iface)
    ensures var f := Fields(Numeral(tUs / 1000000, 10), Padded(tUs % 1000000, 10, 6), iface,
                            IdText(id, isExtended), DataText(data, dlc, isRtr));
            WellFormed(f) && EntryOf(f) == Ok(Said(tUs, id, data, dlc, isExtended, isRtr, iface))
  {
    TimeValue(tUs);
    TimeMatches(tUs, "");
    IdValue(id, isExtended);
    DataSays(data, dlc, isRtr);
  }

  lemma {:induction false} StripNothing(s: string)
    requires s != [] && !IsSpace(s[0]) && !IsSpace(s[|s| - 1])
    ensures Strip(s) == s
  {
    assert Span(s, Space) == [];
    assert s[0..] == s;
  }

  /** A printed line ends in a digit, an R or its separator. */
  lemma LineIsStripped(tUs: nat, id: nat, data: seq<byte>, dlc: nat, isExtended: bool, isRtr: bool, iface: string)
    ensures var s := FormatLine(tUs, id, data, dlc, isExtended, isRtr, iface);
            s != [] && s[0] == '(' && !IsSpace(s[|s| - 1])
  {
    var head := TimeText(tUs) + " " + iface + " " + IdText(id, isExtended) + "#";
    var text := DataText(data, dlc, isRtr);
    var s := head + text;
    assert s == FormatLine(tUs, id, data, dlc, isExtended, isRtr, iface);
    assert head[|head| - 1] == '#';
    if text != [] {
      assert s[|s| - 1] == text[|text| - 1];
      if isRtr && dlc > 0 {
        var digits := Numeral(dlc, 10);
        assert text[|text| - 1] == digits[|digits| - 1];
      } else if !isRtr {
        assert IsDigit(16, text[|text| - 1]);
      }
    }
  }

  /**
   * Parsing the printed line of any frame gives back what it says: the time, the identifier, the
   * payload up to the length code, and extended exactly when flagged or beyond 11 bits.
   */
  lemma ParseOfFormat(tUs: nat, id: nat, data: seq<byte>, dlc: nat, isExtended: bool, isRtr: bool, iface: string)
    requires id < ID_LIMIT && dlc <= 8 && InterfaceName(iface)
    ensures ParseLine(FormatLine(tUs, id, data, dlc, isExtended, isRtr, iface))
            == Ok(Some(Said(tUs, id, data, dlc, isExtended, isRtr, iface)))
  {
    var s := FormatLine(tUs, id, data, dlc, isExtended, isRtr, iface);
    LineIsStripped(tUs, id, data, dlc, isExtended, isRtr, iface);
    StripNothing(s);
    IdValue(id, isExtended);
    DataSays(data, dlc, isRtr);
    FieldsSay(tUs, id, data, dlc, isExtended, isRtr, iface);
    LineMatches(tUs, iface, IdText(id, isExtended), DataText(data, dlc, isRtr));
    ParseIs(s, Fields(Numeral(tUs / 1000000, 10), Padded(tUs % 1000000, 10, 6), iface, IdText(id, isExtended),
                      DataText(data, dlc, isRtr)));
  }

  lemma ParseIs(s: string, f: Fields)
    requires Strip(s) == s && s != [] && s[0] == '(' && Match(s) == Some(f)
    ensures ParseLine(s) == (var e := EntryOf(f); if e.Err? then Err else Ok(Some(e.value)))
  {
  }

  function FormatEntry(e: Entry): string
    requires e.tUs >= 0
  {
    FormatLine(e.tUs, e.arbitrationId, e.data, e.dlc, e.isExtended, e.isRtr, e.iface)
  }

  /** Printing and parsing are inverse on everything that can be parsed: recording a replay loses nothing. */
  lemma RecordReplay(e: Entry)
    requires Normal(e)
    ensures ParseLine(FormatEntry(e)) == Ok(Some(e))
  {
    assert !e.isRtr ==> Upto(e.data, e.dlc) == e.data;
    assert Said(e.tUs, e.arbitrationId, e.data, e.dlc, e.isExtended, e.isRtr, e.iface) == e;
    ParseOfFormat(e.tUs, e.arbitrationId, e.data, e.dlc, e.isExtended, e.isRtr, e.iface);
  }

  lemma PrintingIsStable(line: string)
    requires ParseLine(line).Ok? && ParseLine(line).value.Some?
    ensures ParseLine(FormatEntry(ParseLine(line).value.value)) == ParseLine(line)
  {
    RecordReplay(ParseLine(line).value.value);
  }

  /** The frame of an entry on the bus. */
  function BusOf(e: Entry): BusFrameRaw {
    BusFrame(e.tUs, e.arbitrationId, e.dlc, e.data, e.isExtended, false, e.isRtr)
  }

  /** No error frame, exactly the bytes its length code announces (none when remote), and an
      identifier beyond 11 bits flagged. */
  ghost predicate Whole(f: BusFrame) {
    !f.isError && |f.data| == (if f.isRtr then 0 else f.dlc) && (f.canId > 0x7FF ==> f.isExtended)
  }

  /** What the recorder writes for a captured frame is read back as that frame just when it is whole. */
  lemma RecordingIsLossless(f: BusFrame, iface: string)
    requires f.tUs >= 0 && 0 <= f.canId < ID_LIMIT && InterfaceName(iface)
    ensures var e := ParseLine(FormatLine(f.tUs, f.canId, f.data, f.dlc, f.isExtended, f.isRtr, iface));
      e.Ok? && e.value.Some? && (BusOf(e.value.value) == f <==> Whole(f))
  {
    ParseOfFormat(f.tUs, f.canId, f.data, f.dlc, f.isExtended, f.isRtr, iface);
  }
}
