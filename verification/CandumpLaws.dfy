/** The capture line written out: which lines are read, what they say, and what is printed. */
module CandumpLaws {
  import opened Common
  import Bits
  import opened Wire
  import opened Candump

  /* ---- numerals ------------------------------------------------------------------------------ */

  /** The digits, in either case, and the white space. */
  lemma CharactersAre(c: char, d: nat)
    requires d < 16
    ensures DigitValue("0123456789abcdef"[d]) == d && DigitValue("0123456789ABCDEF"[d]) == d
    ensures DigitValue(c) < 16 <==> c in "0123456789abcdefABCDEF"
    ensures IsSpace(c) <==> c in " \t\n\U{0b}\U{0c}\r\U{1c}\U{1d}\U{1e}\U{1f}"
  {
    DigitIn(c);
  }

  lemma DigitIn(c: char)
    ensures DigitValue(c) < 16 <==> c in "0123456789abcdefABCDEF"
  {
    var lower, upper := "0123456789abcdef", "0123456789ABCDEF";
    if DigitValue(c) < 16 {
      assert c == lower[DigitValue(c)] || c == upper[DigitValue(c)];
      assert "0123456789abcdefABCDEF"[..16] == lower && "0123456789abcdefABCDEF"[16..] == upper[10..];
    }
  }

  /** The first digit counts most. */
  lemma {:induction false} ValueFirst(s: string, b: nat)
    requires Base(b) && AllDigits(b, s) && s != []
    ensures Value(s, b) == DigitValue(s[0]) * Power(b, |s| - 1) + Value(s[1..], b)
  {
    var n := |s| - 1;
    if n == 0 {
      assert Value(s, b) == Value(s[..0], b) * b + DigitValue(s[0]);
      assert s[..0] == [] && s[1..] == [] && Power(b, 0) == 1;
    } else {
      var head := s[..n];
      ValueFirst(head, b);
      assert s[1..][..n - 1] == head[1..] && s[1..][n - 1] == s[n];
      Distribute(DigitValue(s[0]), Power(b, n - 1), Value(head[1..], b), b);
    }
  }

  lemma Distribute(d: nat, p: nat, v: nat, b: nat)
    ensures (d * p + v) * b == d * (b * p) + v * b
  {
  }

  lemma {:induction false} ValueBelow(s: string, b: nat)
    requires Base(b) && AllDigits(b, s)
    ensures Value(s, b) < Power(b, |s|)
  {
    if s != [] {
      ValueBelow(s[..|s| - 1], b);
    }
  }

  /** No zero in front, except for 0 itself. */
  predicate Plain(s: string) {
    s != [] && (s[0] == '0' ==> |s| == 1)
  }

  lemma {:induction false} NumeralIsPlain(n: nat, b: nat)
    requires Base(b)
    ensures Plain(Numeral(n, b)) && AllUpper(Numeral(n, b)) && (n > 0 ==> Numeral(n, b)[0] != '0')
  {
    if n >= b {
      NumeralIsPlain(n / b, b);
      assert n / b > 0;
    }
  }

  predicate Upper(c: char) {
    '0' <= c <= '9' || 'A' <= c <= 'F'
  }

  predicate AllUpper(s: string) {
    forall i :: 0 <= i < |s| ==> Upper(s[i])
  }

  /** Numbers after the point, as millionths. */
  function Millionths(usec: string): int
    requires AllDigits(10, usec)
  {
    var v := Value(usec, 10);
    if |usec| <= 6 then v * Power(10, 6 - |usec|) else v / Power(10, |usec| - 6)
  }

  lemma {:induction false} ValueThenZeros(s: string, k: nat)
    requires AllDigits(10, s)
    ensures AllDigits(10, s + Zeros(k)) && Value(s + Zeros(k), 10) == Value(s, 10) * Power(10, k)
  {
    if k == 0 {
      assert s + Zeros(0) == s;
    } else {
      ValueThenZeros(s, k - 1);
      assert (s + Zeros(k))[..|s| + k - 1] == s + Zeros(k - 1);
      Distribute(0, Value(s, 10), 0, 10);
      Regroup(Value(s, 10), Power(10, k - 1));
    }
  }

  lemma Regroup(v: nat, p: nat)
    ensures v * p * 10 == v * (10 * p)
  {
  }

  lemma {:induction false} ValueOfPrefix(s: string, k: nat)
    requires AllDigits(10, s) && k <= |s|
    ensures Value(s[..k], 10) == Value(s, 10) / Power(10, |s| - k)
    decreases |s|
  {
    if k == |s| {
      assert s[..k] == s;
    } else {
      var n := |s| - 1;
      ValueOfPrefix(s[..n], k);
      assert s[..n][..k] == s[..k];
      DropDigit(Value(s[..n], 10), DigitValue(s[n]), Power(10, n - k));
    }
  }

  lemma DropDigit(v: nat, d: nat, p: nat)
    requires d < 10 && p > 0
    ensures v / p == (v * 10 + d) / (10 * p)
  {
    var q, r := v / p, v % p;
    assert v * 10 + d == (10 * p) * q + (10 * r + d) by {
      assert v == p * q + r;
    }
    Bits.DivUnique(v * 10 + d, 10 * p, q, 10 * r + d);
  }

  lemma MicrosAre(usec: string)
    requires AllDigits(10, usec)
    ensures Value(Micros(usec), 10) == Millionths(usec)
  {
    if |usec| <= 6 {
      ValueThenZeros(usec, 6 - |usec|);
      assert (usec + Zeros(6))[..6] == usec + Zeros(6 - |usec|);
    } else {
      ValueOfPrefix(usec, 6);
      assert (usec + Zeros(6))[..6] == usec[..6];
    }
  }

  /* ---- which lines match ------------------------------------------------------------------------ */

  /** White space. */
  ghost predicate Gap(s: string) {
    s != [] && forall i :: 0 <= i < |s| ==> IsSpace(s[i])
  }

  /** `(<sec>.<usec>) <iface> <id>#<data>`, with any white space between the parts. */
  ghost predicate IsLine(s: string, f: Fields, gap1: string, gap2: string) {
    && WellFormed(f) && Gap(gap1) && Gap(gap2)
    && s == "(" + (f.sec + ("." + (f.usec + (")" + (gap1 + (f.iface + (gap2 + (f.id + ("#" + f.data)))))))))
  }

  lemma TimeIs(s: string)
    requires MatchTime(s).Some?
    ensures var (sec, usec, rest) := MatchTime(s).value; s == "(" + (sec + ("." + (usec + (")" + rest))))
  {
    var (sec, usec, rest) := MatchTime(s).value;
    var s1 := s[1..];
    var s2 := s1[|sec|..][1..];
    assert s1 == sec + ("." + s2);
    assert s2 == usec + (")" + rest);
  }

  lemma WordIs(s: string) returns (gap1: string, gap2: string)
    requires MatchWord(s).Some?
    ensures var (word, rest) := MatchWord(s).value; Gap(gap1) && Gap(gap2) && s == gap1 + (word + (gap2 + rest))
  {
    gap1 := Span(s, Space);
    var s1 := s[|gap1|..];
    var word := Span(s1, NonSpace);
    var s2 := s1[|word|..];
    gap2 := Span(s2, Space);
    SpaceIsGap(s);
    SpaceIsGap(s2);
    Splits(s, gap1);
    Splits(s1, word);
    Splits(s2, gap2);
  }

  lemma SpaceIsGap(s: string)
    requires Span(s, Space) != []
    ensures Gap(Span(s, Space))
  {
    assert forall i :: 0 <= i < |Span(s, Space)| ==> Space(Span(s, Space)[i]);
  }

  lemma Splits(s: string, t: string)
    requires t <= s
    ensures s == t + s[|t|..]
  {
  }

  lemma GapsMatch(gap1: string, word: string, gap2: string, rest: string)
    requires Gap(gap1) && Gap(gap2) && InterfaceName(word) && rest != [] && !IsSpace(rest[0])
    ensures MatchWord(gap1 + (word + (gap2 + rest))) == Some((word, rest))
  {
    var s2 := gap2 + rest;
    var s1 := word + s2;
    assert NonSpace(word[0]) && s1[0] == word[0];
    SpanOf(gap1, s1, Space);
    assert (gap1 + s1)[|gap1|..] == s1;
    assert s2[0] == gap2[0];
    SpanOf(word, s2, NonSpace);
    assert s1[|word|..] == s2;
    SpanOf(gap2, rest, Space);
    assert s2[|gap2|..] == rest;
  }

  lemma TailIs(s: string)
    requires MatchTail(s).Some?
    ensures var (id, data) := MatchTail(s).value; s == id + ("#" + data)
  {
    var id := Span(s, Hexadecimal);
    assert s[|id|..] == "#" + s[|id|..][1..];
  }

  lemma LineOfMatch(s: string, f: Fields) returns (gap1: string, gap2: string)
    requires Match(s) == Some(f)
    ensures IsLine(s, f, gap1, gap2)
  {
    var time := MatchTime(s).value;
    TimeIs(s);
    gap1, gap2 := WordIs(time.2);
    TailIs(MatchWord(time.2).value.1);
  }

  lemma MatchOfLine(s: string, f: Fields, gap1: string, gap2: string)
    requires IsLine(s, f, gap1, gap2)
    ensures Match(s) == Some(f)
  {
    var tail := f.id + ("#" + f.data);
    var word := gap1 + (f.iface + (gap2 + tail));
    BracketMatches(f.sec, f.usec, word);
    DigitIsNoSpace(f.id[0]);
    GapsMatch(gap1, f.iface, gap2, tail);
    TailMatches(f.id, f.data);
    MatchIs(s, f.sec, f.usec, word, f.iface, tail, f.id, f.data);
  }

  /* ---- what a line says ---------------------------------------------------------------------------- */

  /** The hexadecimal digits at `2 * i` are those of `b`. */
  ghost predicate DigitsAt(s: string, i: nat, b: byte) {
    2 * i + 1 < |s| && b == 16 * DigitValue(s[2 * i]) + DigitValue(s[2 * i + 1])
  }

  /** The bytes are written as two digits each. */
  ghost predicate ByteDigits(s: string, d: seq<byte>) {
    |s| == 2 * |d| && forall i :: 0 <= i < |d| ==> DigitsAt(s, i, d[i])
  }

  lemma DigitsSnoc(s: string, d: seq<byte>, hi: char, lo: char, b: byte)
    requires ByteDigits(s, d) && b == 16 * DigitValue(hi) + DigitValue(lo)
    ensures ByteDigits(s + [hi, lo], d + [b])
  {
    var t := s + [hi, lo];
    forall i | 0 <= i < |d + [b]| ensures DigitsAt(t, i, (d + [b])[i]) {
      assert i < |d| ==> DigitsAt(s, i, d[i]);
    }
  }

  lemma {:induction false} FromHexIs(s: string)
    requires |s| % 2 == 0 && AllDigits(16, s)
    ensures ByteDigits(s, FromHex(s))
  {
    if s != [] {
      var n := |s|;
      FromHexIs(s[..n - 2]);
      assert s == s[..n - 2] + [s[n - 2], s[n - 1]];
      assert IsDigit(16, s[n - 2]) && IsDigit(16, s[n - 1]);
      var d, b := FromHex(s[..n - 2]), FromHex(s)[|FromHex(s)| - 1];
      DigitsSnoc(s[..n - 2], d, s[n - 2], s[n - 1], b);
    }
  }

  lemma DigitsUnique(s: string, d: seq<byte>, e: seq<byte>)
    requires ByteDigits(s, d) && ByteDigits(s, e)
    ensures d == e
  {
    forall i | 0 <= i < |d| ensures d[i] == e[i] {
      assert DigitsAt(s, i, d[i]) && DigitsAt(s, i, e[i]);
    }
  }

  /** The data part: R and a length, R alone, or the bytes. */
  ghost predicate SaysData(s: string, e: Entry) {
    if s != [] && s[0] == 'R' then
      e.isRtr && e.data == [] && AllDigits(10, s[1..]) && e.dlc == Value(s[1..], 10)
    else
      !e.isRtr && e.dlc == |e.data| && ByteDigits(s, e.data)
  }

  /** The entry of a line: seconds and millionths, the low 29 bits of the identifier, extended when written with
      more than three digits or beyond 11 bits, and eight bytes at most. */
  ghost predicate Says(f: Fields, e: Entry) {
    && WellFormed(f)
    && e.tUs == Value(f.sec, 10) * 1000000 + Millionths(f.usec)
    && e.arbitrationId == Value(f.id, 16) % 0x2000_0000
    && (e.isExtended <==> |f.id| > 3 || Value(f.id, 16) > 0x7FF)
    && e.iface == f.iface
    && SaysData(f.data, e) && e.dlc <= 8
  }

  lemma DataSaid(s: string, e: Entry)
    requires DataField(s)
    ensures SaysData(s, e) && e.dlc <= 8 <==> DataOf(s) == Ok((e.dlc, e.data, e.isRtr))
  {
    if s == [] || s[0] != 'R' {
      BytesSaid(s, e);
    }
  }

  lemma BytesSaid(s: string, e: Entry)
    requires AllDigits(16, s) && (s == [] || s[0] != 'R')
    ensures SaysData(s, e) && e.dlc <= 8 <==> DataOf(s) == Ok((e.dlc, e.data, e.isRtr))
  {
    if |s| % 2 == 0 {
      FromHexIs(s);
      if ByteDigits(s, e.data) {
        DigitsUnique(s, e.data, FromHex(s));
      }
    }
  }

  lemma EntrySaid(f: Fields, e: Entry)
    requires WellFormed(f)
    ensures Says(f, e) <==> EntryOf(f) == Ok(e)
  {
    MicrosAre(f.usec);
    DataSaid(f.data, e);
  }

  /** What is left of a line without the white space around it. */
  ghost predicate Trimmed(line: string, s: string) {
    && (s == [] || (!IsSpace(s[0]) && !IsSpace(s[|s| - 1])))
    && exists pre, post :: Blank(pre) && Blank(post) && Around(line, pre, s, post)
  }

  ghost predicate Blank(s: string) {
    forall i :: 0 <= i < |s| ==> IsSpace(s[i])
  }

  ghost predicate Around(line: string, pre: string, s: string, post: string) {
    line == pre + (s + post)
  }

  lemma {:induction false} StripRightIs(s: string) returns (post: string)
    ensures Blank(post) && s == StripRight(s) + post
    ensures StripRight(s) == [] || !IsSpace(StripRight(s)[|StripRight(s)| - 1])
  {
    post := [];
    if s != [] && IsSpace(s[|s| - 1]) {
      post := StripRightIs(s[..|s| - 1]);
      post := post + [s[|s| - 1]];
      assert s == s[..|s| - 1] + [s[|s| - 1]];
    }
  }

  lemma StripIs(line: string)
    ensures Trimmed(line, Strip(line))
  {
    var pre := Span(line, Space);
    assert forall i :: 0 <= i < |pre| ==> Space(pre[i]);
    var t := StripLeft(line);
    var post := StripRightIs(t);
    assert line == pre + t;
    var s := Strip(line);
    assert s != [] ==> s[0] == t[0];
    assert Blank(pre) && Blank(post) && Around(line, pre, s, post);
  }

  /** Some fields stand in the line and say the entry. */
  ghost predicate SaysEntry(s: string, e: Entry) {
    exists f, gap1, gap2 :: IsLine(s, f, gap1, gap2) && Says(f, e)
  }

  lemma EntryIff(s: string, e: Entry)
    ensures SaysEntry(s, e) <==> Match(s).Some? && EntryOf(Match(s).value) == Ok(e)
    ensures SaysEntry(s, e) ==> s != [] && s[0] == '('
  {
    if Match(s).Some? {
      var f := Match(s).value;
      EntrySaid(f, e);
      var gap1, gap2 := LineOfMatch(s, f);
      assert IsLine(s, f, gap1, gap2);
    }
    forall f, gap1, gap2 | IsLine(s, f, gap1, gap2) && Says(f, e)
      ensures s[0] == '(' && Match(s) == Some(f) && EntryOf(f) == Ok(e)
    {
      MatchOfLine(s, f, gap1, gap2);
      EntrySaid(f, e);
    }
  }

  /** A line is skipped when nothing or a comment is left of it, is read as an entry exactly when it says
      that entry, and is refused otherwise. */
  lemma LineTells(line: string, s: string, e: Entry)
    requires s == Strip(line)
    ensures Trimmed(line, s)
    ensures ParseLine(line) == Ok(None) <==> s == [] || s[0] == '#'
    ensures ParseLine(line) == Ok(Some(e)) <==> SaysEntry(s, e)
  {
    StripIs(line);
    EntryIff(s, e);
    ParseByCases(line, s, e);
  }

  lemma ParseByCases(line: string, s: string, e: Entry)
    requires s == Strip(line)
    ensures ParseLine(line) == Ok(None) <==> s == [] || s[0] == '#'
    ensures ParseLine(line) == Ok(Some(e)) <==>
            s != [] && s[0] != '#' && Match(s).Some? && EntryOf(Match(s).value) == Ok(e)
  {
  }

  /* ---- what is printed --------------------------------------------------------------------------------- */

  /** A number written with at least `width` digits, zeros in front only as far as needed for that. */
  ghost predicate Written(s: string, n: nat, b: nat, width: nat)
    requires Base(b)
  {
    && AllUpper(s) && AllDigits(b, s) && Value(s, b) == n && |s| >= width && s != []
    && (|s| > width ==> Plain(s))
  }

  lemma PaddedIsWritten(n: nat, b: nat, width: nat)
    requires Base(b)
    ensures Written(Padded(n, b, width), n, b, width)
  {
    ValueOfPadded(n, b, width);
    NumeralIsPlain(n, b);
  }

  lemma {:induction false} HexIsUpper(data: seq<byte>)
    ensures AllUpper(HexBytes(data)) && ByteDigits(HexBytes(data), data)
  {
    if data != [] {
      var n := |data| - 1;
      HexIsUpper(data[..n]);
      DigitPair(data[n]);
      DigitsSnoc(HexBytes(data[..n]), data[..n], Digit(data[n] / 16), Digit(data[n] % 16), data[n]);
      assert data == data[..n] + [data[n]];
    }
  }

  /** The payload part: the bytes up to the length code, or R and the length code if it is not 0. */
  ghost predicate PrintsData(s: string, data: seq<byte>, dlc: nat, isRtr: bool) {
    if !isRtr then AllUpper(s) && ByteDigits(s, data[..Min(dlc, |data|)])
    else if dlc == 0 then s == "R"
    else s != [] && s[0] == 'R' && Written(s[1..], dlc, 10, 1)
  }

  /** A printed line: seconds, six digits of microseconds, the interface, the identifier with eight digits when
      extended or beyond 11 bits and with three otherwise, and the payload. */
  lemma LinePrinted(tUs: nat, id: nat, data: seq<byte>, dlc: nat, isExtended: bool, isRtr: bool, iface: string)
    returns (sec: string, usec: string, idText: string, text: string)
    ensures FormatLine(tUs, id, data, dlc, isExtended, isRtr, iface) ==
            "(" + sec + "." + usec + ")" + " " + iface + " " + idText + "#" + text
    ensures Written(sec, tUs / 1000000, 10, 1) && Written(usec, tUs % 1000000, 10, 6) && |usec| == 6
    ensures Written(idText, id, 16, if isExtended || id > 0x7FF then 8 else 3)
    ensures PrintsData(text, data, dlc, isRtr)
  {
    sec, usec := Numeral(tUs / 1000000, 10), Padded(tUs % 1000000, 10, 6);
    idText, text := IdText(id, isExtended), DataText(data, dlc, isRtr);
    assert Padded(tUs / 1000000, 10, 1) == sec;
    PaddedIsWritten(tUs / 1000000, 10, 1);
    PaddedIsWritten(tUs % 1000000, 10, 6);
    SixDigits(tUs % 1000000);
    PaddedIsWritten(id, 16, if isExtended || id > 0x7FF then 8 else 3);
    if isRtr {
      PaddedIsWritten(dlc, 10, 1);
      assert text == "R" + (if dlc == 0 then "" else Numeral(dlc, 10));
    } else {
      HexIsUpper(Upto(data, dlc));
    }
  }
}
