/** The binary batch: one encoder and decoder in the backend, and two decoders and an encoder in the cockpit. */
module Wire {
  import opened Common
  import opened Seqs
  import opened Frames

  const VERSION: byte := 1
  const HEADER_BYTES: nat := 12
  const RECORD_BYTES: nat := 20
  const MAX_COUNT: nat := 0xFFFF
  const ID_LIMIT: nat := 0x2000_0000
  const ERROR_BIT: nat := 0x4000_0000
  const EXTENDED_BIT: nat := 0x8000_0000
  const U32: nat := 0x1_0000_0000
  const U64: nat := 0x1_0000_0000_0000_0000

  /* ---- little-endian integers --------------------------------------------------------------- */

  const U16: nat := 0x1_0000

  function Le16(n: nat): (b: seq<byte>)
    ensures |b| == 2
  {
    [n % 256, n / 256 % 256]
  }

  function Le32(n: nat): (b: seq<byte>)
    ensures |b| == 4
  {
    Le16(n % U16) + Le16(n / U16)
  }

  function Le64(n: nat): (b: seq<byte>)
    ensures |b| == 8
  {
    Le32(n % U32) + Le32(n / U32)
  }

  function Get16(b: seq<byte>, off: nat): (n: nat)
    requires off + 2 <= |b|
    ensures n < U16
  {
    var lo: int, hi: int := b[off], b[off + 1];
    lo + 256 * hi
  }

  function Get32(b: seq<byte>, off: nat): (n: nat)
    requires off + 4 <= |b|
    ensures n < U32
  {
    Get16(b, off) + U16 * Get16(b, off + 2)
  }

  function Get64(b: seq<byte>, off: nat): (n: nat)
    requires off + 8 <= |b|
    ensures n < U64
  {
    Get32(b, off) + U32 * Get32(b, off + 4)
  }

  /** Reading gives back just the number whose bytes were written. */
  lemma GetPut16(b: seq<byte>, off: nat, n: nat)
    requires off + 2 <= |b| && n < U16
    ensures b[off..off + 2] == Le16(n) <==> Get16(b, off) == n
  {
    assert b[off..off + 2] == [b[off], b[off + 1]];
    assert Le16(n)[0] == n % 256 && Le16(n)[1] == n / 256;
  }

  lemma GetPut32(b: seq<byte>, off: nat, n: nat)
    requires off + 4 <= |b| && n < U32
    ensures b[off..off + 4] == Le32(n) <==> Get32(b, off) == n
  {
    var lo, hi := n % U16, n / U16;
    GetPut16(b, off, lo);
    GetPut16(b, off + 2, hi);
    assert b[off..off + 4] == b[off..off + 2] + b[off + 2..off + 4];
    assert Le32(n)[..2] == Le16(lo) && Le32(n)[2..] == Le16(hi);
    assert Get32(b, off) == n <==> Get16(b, off) == lo && Get16(b, off + 2) == hi;
  }

  lemma GetPut64(b: seq<byte>, off: nat, n: nat)
    requires off + 8 <= |b| && n < U64
    ensures b[off..off + 8] == Le64(n) <==> Get64(b, off) == n
  {
    var lo, hi := n % U32, n / U32;
    GetPut32(b, off, lo);
    GetPut32(b, off + 4, hi);
    assert b[off..off + 8] == b[off..off + 4] + b[off + 4..off + 8];
    assert Le64(n)[..4] == Le32(lo) && Le64(n)[4..] == Le32(hi);
    assert Get64(b, off) == n <==> Get32(b, off) == lo && Get32(b, off + 4) == hi;
  }

  /* ---- frames on the backend ----------------------------------------------------------------- */

  datatype BusFrameRaw = BusFrame(
    tUs: int, canId: int, dlc: int, data: seq<byte>, isExtended: bool, isError: bool, isRtr: bool)

  /** Built frames are classic CAN; their data may be shorter or longer than `dlc`. */
  type BusFrame = f: BusFrameRaw | 0 <= f.dlc <= 8 && |f.data| <= 8
    witness BusFrame(0, 0, 0, [], false, false, false)

  /** Building a frame validates it. */
  function MakeFrame(tUs: int, canId: int, dlc: int, data: seq<byte>, isExtended: bool, isError: bool,
                     isRtr: bool): Result<BusFrame>
  {
    if dlc < 0 || dlc > 8 || |data| > 8 then Err
    else Ok(BusFrame(tUs, canId, dlc, data, isExtended, isError, isRtr))
  }

  /** Data padded with zeros or cut to `n` bytes. */
  function Fit(data: seq<byte>, n: nat): (d: seq<byte>)
    ensures |d| == n
    ensures forall i :: 0 <= i < n ==> d[i] == if i < |data| then data[i] else 0
  {
    seq(n, i requires 0 <= i => if i < |data| then data[i] else 0)
  }

  function Upto(data: seq<byte>, n: nat): seq<byte> {
    if n <= |data| then data[..n] else data
  }

  /** The frame a decoder should hand on: identifier masked, exactly `dlc` bytes. */
  function Shown(f: BusFrame): Frame {
    Frame(f.tUs, f.canId % ID_LIMIT, f.isExtended, f.isError, f.isRtr, f.dlc, Fit(f.data, f.dlc))
  }

  function ShownAll(frames: seq<BusFrame>): (s: seq<Frame>)
    ensures |s| == |frames|
  {
    seq(|frames|, i requires 0 <= i < |frames| => Shown(frames[i]))
  }

  /* ---- encoding ------------------------------------------------------------------------------ */

  function IdWord(canId: int, isExtended: bool, isError: bool): (w: nat)
    ensures w < U32
  {
    canId % ID_LIMIT + (if isExtended then EXTENDED_BIT else 0) + (if isError then ERROR_BIT else 0)
  }

  function RecordOf(dt: nat, word: nat, dlc: byte, recFlags: byte, data: seq<byte>): (b: seq<byte>)
    requires |data| == 8
    ensures |b| == RECORD_BYTES
  {
    Le32(dt) + Le32(word) + [dlc, recFlags, 0, 0] + data
  }

  function EncodeRecord(f: BusFrame, base: int): (r: Result<seq<byte>>)
    ensures r.Ok? ==> |r.value| == RECORD_BYTES
  {
    var dt := f.tUs - base;
    if dt < 0 || dt > 0xFFFF_FFFF then Err
    else
      Ok(RecordOf(dt, IdWord(f.canId, f.isExtended, f.isError), f.dlc, if f.isRtr then 1 else 0,
                  Fit(Upto(f.data, f.dlc), 8)))
  }

  function EncodeRecords(frames: seq<BusFrame>, base: int): (r: Result<seq<byte>>)
    ensures r.Ok? ==> |r.value| == RECORD_BYTES * |frames|
  {
    if frames == [] then Ok([])
    else
      var n := |frames| - 1;
      var init, last := EncodeRecords(frames[..n], base), EncodeRecord(frames[n], base);
      if init.Ok? && last.Ok? then Ok(init.value + last.value) else Err
  }

  function HeaderOf(flags: byte, count: nat, base: nat): (h: seq<byte>)
    ensures |h| == HEADER_BYTES
  {
    [VERSION, flags] + Le16(count) + Le64(base)
  }

  function EncodeBatch(frames: seq<BusFrame>, base: int, replay: bool): (r: Result<seq<byte>>) {
    if |frames| > MAX_COUNT || base < 0 || base >= U64 then Err
    else
      var records := EncodeRecords(frames, base);
      if records.Err? then Err else Ok(HeaderOf(if replay then 1 else 0, |frames|, base) + records.value)
  }

  /** What the wire can carry: 65535 frames, none before the base nor 2^32 us after it. */
  ghost predicate Encodable(frames: seq<BusFrame>, base: int) {
    && |frames| <= MAX_COUNT && 0 <= base < U64
    && forall i :: 0 <= i < |frames| ==> 0 <= frames[i].tUs - base < U32
  }

  lemma {:induction false} RecordsEncodable(frames: seq<BusFrame>, base: int)
    ensures EncodeRecords(frames, base).Ok? <==> forall i :: 0 <= i < |frames| ==> 0 <= frames[i].tUs - base < U32
  {
    if frames != [] {
      var n := |frames| - 1;
      RecordsEncodable(frames[..n], base);
      assert forall i :: 0 <= i < |frames| ==> frames[i] == if i < n then frames[..n][i] else frames[n];
    }
  }

  lemma EncodesExactly(frames: seq<BusFrame>, base: int, replay: bool)
    ensures EncodeBatch(frames, base, replay).Ok? <==> Encodable(frames, base)
  {
    RecordsEncodable(frames, base);
  }

  /** The `i`-th record of an encoding is that of the `i`-th frame. */
  lemma {:induction false} RecordAt(frames: seq<BusFrame>, base: int, i: nat)
    requires EncodeRecords(frames, base).Ok? && i < |frames|
    ensures EncodeRecord(frames[i], base).Ok?
    ensures EncodeRecords(frames, base).value[RECORD_BYTES * i..RECORD_BYTES * i + RECORD_BYTES]
            == EncodeRecord(frames[i], base).value
  {
    var n := |frames| - 1;
    if i < n {
      RecordAt(frames[..n], base, i);
      InPrefix(EncodeRecords(frames[..n], base).value, EncodeRecord(frames[n], base).value,
               RECORD_BYTES * i, RECORD_BYTES * i + RECORD_BYTES);
    }
  }

  lemma InPrefix(a: seq<byte>, b: seq<byte>, i: nat, j: nat)
    requires i <= j <= |a|
    ensures (a + b)[i..j] == a[i..j]
  {
  }

  /* ---- decoding ------------------------------------------------------------------------------ */

  datatype Batch = Batch(version: byte, replay: bool, base: nat, frames: seq<Frame>)

  /** The frame in the record at `off`, its length code clamped to eight. */
  function FrameAt(buf: seq<byte>, off: nat, base: nat): Frame
    requires off + RECORD_BYTES <= |buf|
  {
    var word, dlc := Get32(buf, off + 4), Min(buf[off + 8], 8);
    Frame(base + Get32(buf, off), word % ID_LIMIT, word / EXTENDED_BIT % 2 == 1, word / ERROR_BIT % 2 == 1,
          buf[off + 9] % 2 == 1, dlc, buf[off + 12..off + 12 + dlc])
  }

  function CountOf(buf: seq<byte>): nat
    requires |buf| >= HEADER_BYTES
  {
    Get16(buf, 2)
  }

  function Need(buf: seq<byte>): nat
    requires |buf| >= HEADER_BYTES
  {
    HEADER_BYTES + CountOf(buf) * RECORD_BYTES
  }

  function Offset(i: nat): nat {
    HEADER_BYTES + i * RECORD_BYTES
  }

  function FramesAt(buf: seq<byte>, n: nat, base: nat): (fs: seq<Frame>)
    requires Offset(n) <= |buf|
    ensures |fs| == n
  {
    seq(n, i requires 0 <= i < n => FrameAt(buf, Offset(i), base))
  }

  function BatchIn(buf: seq<byte>): Batch
    requires |buf| >= HEADER_BYTES && |buf| >= Need(buf)
  {
    var base := Get64(buf, 4);
    Batch(buf[0], buf[1] % 2 == 1, base, FramesAt(buf, CountOf(buf), base))
  }

  /** The backend refuses a wrong length and any length code above eight. */
  function DecodeBatch(buf: seq<byte>): Result<Batch> {
    if |buf| < HEADER_BYTES || buf[0] != VERSION || |buf| != Need(buf) then Err
    else if exists i :: 0 <= i < CountOf(buf) && DlcAt(buf, i) > 8 then Err
    else Ok(BatchIn(buf))
  }

  function DlcAt(buf: seq<byte>, i: nat): byte
    requires |buf| >= Offset(i) + RECORD_BYTES
  {
    buf[Offset(i) + 8]
  }

  /** Copy the payload bytes of one record. */
  method Payload(buf: seq<byte>, off: nat, dlc: nat) returns (data: seq<byte>)
    requires off + dlc <= |buf|
    ensures data == buf[off..off + dlc]
  {
    var a := new byte[dlc];
    for b := 0 to dlc
      invariant forall k :: 0 <= k < b ==> a[k] == buf[off + k]
    {
      a[b] := buf[off + b];
    }
    data := a[..];
  }

  /** The cockpit's worker: checks the version, ignores bytes past the records. */
  method ParseBatch(buf: seq<byte>) returns (r: Result<Batch>)
    ensures r.Ok? <==> |buf| >= HEADER_BYTES && buf[0] == VERSION && |buf| >= Need(buf)
    ensures r.Ok? ==> r.value == BatchIn(buf)
  {
    if |buf| < HEADER_BYTES || buf[0] != VERSION {
      return Err;
    }
    var replay := buf[1] % 2 == 1;
    var count, base := Get16(buf, 2), Get64(buf, 4);
    if |buf| < HEADER_BYTES + count * RECORD_BYTES {
      return Err;
    }
    var frames: seq<Frame> := [];
    var off := HEADER_BYTES;
    for i := 0 to count
      invariant off == Offset(i)
      invariant frames == FramesAt(buf, count, base)[..i]
    {
      var f := ReadFrame(buf, off, base);
      TakeNext(FramesAt(buf, count, base), i);
      frames := frames + [f];
      off := off + RECORD_BYTES;
    }
    r := Ok(Batch(buf[0], replay, base, frames));
  }

  method ReadFrame(buf: seq<byte>, off: nat, base: nat) returns (f: Frame)
    requires off + RECORD_BYTES <= |buf|
    ensures f == FrameAt(buf, off, base)
  {
    var dt, rawId, dlcRaw, recFlags := Get32(buf, off), Get32(buf, off + 4), buf[off + 8], buf[off + 9];
    var dlc := if dlcRaw > 8 then 8 else dlcRaw;
    var data := Payload(buf, off + 12, dlc);
    f := Frame(base + dt, rawId % ID_LIMIT, rawId / EXTENDED_BIT % 2 == 1, rawId / ERROR_BIT % 2 == 1,
               recFlags % 2 == 1, dlc, data);
  }

  /** A record as the shared library has it: time as an offset, masked identifier. */
  datatype Rec = Rec(dt: int, canId: int, dlc: int, isExtended: bool, isError: bool, isRtr: bool, data: seq<int>)

  datatype RecBatch = RecBatch(version: byte, replay: bool, base: nat, records: seq<Rec>)

  function RecOf(f: Frame, base: int): Rec {
    Rec(f.tUs - base, f.id, f.dlc, f.isExtended, f.isError, f.isRtr, f.data)
  }

  function RecsOf(fs: seq<Frame>, base: int): (rs: seq<Rec>)
    ensures |rs| == |fs|
  {
    seq(|fs|, i requires 0 <= i < |fs| => RecOf(fs[i], base))
  }

  /** The shared decoder: as the worker's, but it leaves the version to its caller. */
  method DecodeBatchShared(buf: seq<byte>) returns (r: Result<RecBatch>)
    ensures r.Ok? <==> |buf| >= HEADER_BYTES && |buf| >= Need(buf)
    ensures r.Ok? ==>
              var b := BatchIn(buf); r.value == RecBatch(b.version, b.replay, b.base, RecsOf(b.frames, b.base))
  {
    if |buf| < HEADER_BYTES {
      return Err;
    }
    var count, base := Get16(buf, 2), Get64(buf, 4);
    if |buf| < HEADER_BYTES + count * RECORD_BYTES {
      return Err;
    }
    ghost var all := RecsOf(FramesAt(buf, count, base), base);
    var records: seq<Rec> := [];
    for i := 0 to count
      invariant records == all[..i]
    {
      var rec := ReadRecord(buf, HEADER_BYTES + i * RECORD_BYTES, base);
      TakeNext(all, i);
      records := records + [rec];
    }
    r := Ok(RecBatch(buf[0], buf[1] % 2 == 1, base, records));
  }

  method ReadRecord(buf: seq<byte>, off: nat, ghost base: nat) returns (rec: Rec)
    requires off + RECORD_BYTES <= |buf|
    ensures rec == RecOf(FrameAt(buf, off, base), base)
  {
    var dt, word := Get32(buf, off), Get32(buf, off + 4);
    var dlc := Min(buf[off + 8], 8);
    var data := Payload(buf, off + 12, dlc);
    rec := Rec(dt, word % ID_LIMIT, dlc, word / EXTENDED_BIT % 2 == 1, word / ERROR_BIT % 2 == 1,
               buf[off + 9] % 2 == 1, data);
  }

  /* ---- the encoder of the shared library ------------------------------------------------------ */

  /** `canId & ~ID_MASK` is not zero although the number is no larger than the mask: a negative one. */
  predicate StrayBits(canId: int) {
    canId % U32 >= ID_LIMIT && canId < ID_LIMIT
  }

  predicate Packable(r: Rec) {
    0 <= r.dlc <= 8 && !StrayBits(r.canId)
  }

  function LowBytes(data: seq<int>): (b: seq<byte>)
    ensures |b| == |data|
  {
    seq(|data|, i requires 0 <= i < |data| => data[i] % 256)
  }

  function RecordOfRec(r: Rec): (b: seq<byte>)
    requires Packable(r)
    ensures |b| == RECORD_BYTES
  {
    RecordOf(r.dt % U32, IdWord(r.canId, r.isExtended, r.isError), r.dlc, if r.isRtr then 1 else 0,
             Fit(Upto(LowBytes(r.data), r.dlc), 8))
  }

  function RecordsOfRecs(rs: seq<Rec>): (b: seq<byte>)
    requires forall i :: 0 <= i < |rs| ==> Packable(rs[i])
    ensures |b| == RECORD_BYTES * |rs|
  {
    if rs == [] then [] else RecordsOfRecs(rs[..|rs| - 1]) + RecordOfRec(rs[|rs| - 1])
  }

  /** Overwrite `bytes` at `off`. */
  method Put(buf: array<byte>, off: nat, bytes: seq<byte>)
    requires off + |bytes| <= buf.Length
    modifies buf
    ensures buf[..] == old(buf[..off]) + bytes + old(buf[off + |bytes|..])
  {
    for i := 0 to |bytes|
      invariant buf[..] == old(buf[..off]) + bytes[..i] + old(buf[off + i..])
    {
      buf[off + i] := bytes[i];
    }
    assert bytes[..|bytes|] == bytes;
  }

  /** Copy the payload bytes, leaving the zeros of the fresh buffer after them. */
  method PutData(buf: array<byte>, off: nat, r: Rec)
    requires 0 <= r.dlc <= 8 && off + 8 <= buf.Length
    requires forall k :: off <= k < off + 8 ==> buf[k] == 0
    modifies buf
    ensures buf[..] == old(buf[..off]) + Fit(Upto(LowBytes(r.data), r.dlc), 8) + old(buf[off + 8..])
  {
    var b := 0;
    while b < r.dlc
      invariant 0 <= b <= r.dlc
      invariant forall k :: 0 <= k < buf.Length && !(off <= k < off + b) ==> buf[k] == old(buf[k])
      invariant forall k :: off <= k < off + b ==> buf[k] == if k - off < |r.data| then r.data[k - off] % 256 else 0
    {
      buf[off + b] := if b < |r.data| then r.data[b] % 256 else 0;
      b := b + 1;
    }
    ghost var data := Fit(Upto(LowBytes(r.data), r.dlc), 8);
    assert forall k :: off <= k < off + 8 ==> buf[k] == data[k - off];
  }

  method PutRecord(buf: array<byte>, off: nat, r: Rec)
    requires Packable(r) && off + RECORD_BYTES <= buf.Length
    requires forall k :: off <= k < off + RECORD_BYTES ==> buf[k] == 0
    modifies buf
    ensures buf[..] == old(buf[..off]) + RecordOfRec(r) + old(buf[off + RECORD_BYTES..])
  {
    var head := Le32(r.dt % U32) + Le32(IdWord(r.canId, r.isExtended, r.isError))
      + [r.dlc as byte, if r.isRtr then 1 else 0, 0, 0];
    label L:
    Put(buf, off, head);
    assert forall k :: off + 12 <= k < buf.Length ==> buf[k] == buf[..][k] == old@L(buf[k]);
    PutData(buf, off + 12, r);
  }

  method EncodeBatchShared(base: int, replay: bool, records: seq<Rec>) returns (r: Result<seq<byte>>)
    ensures r.Ok? <==> |records| <= MAX_COUNT && forall i :: 0 <= i < |records| ==> Packable(records[i])
    ensures r.Ok? ==>
              r.value == HeaderOf(if replay then 1 else 0, |records|, base % U64) + RecordsOfRecs(records)
  {
    var count := |records|;
    if count > MAX_COUNT {
      return Err;
    }
    var buf := new byte[HEADER_BYTES + count * RECORD_BYTES](_ => 0);
    var header := HeaderOf(if replay then 1 else 0, count, base % U64);
    Put(buf, 0, header);
    assert RecordsOfRecs(records[..0]) == [];
    assert buf[..Offset(0)] == header + [];
    for i := 0 to count
      invariant forall k :: 0 <= k < i ==> Packable(records[k])
      invariant Written(buf, header, records, i)
    {
      if records[i].dlc < 0 || records[i].dlc > 8 || StrayBits(records[i].canId) {
        return Err;
      }
      WriteNext(buf, header, records, i);
    }
    assert records[..count] == records;
    r := Ok(buf[..]);
    assert buf[..Offset(count)] == buf[..];
  }

  /** The header and the first `i` records are written, and zeros after them. */
  ghost predicate Written(buf: array<byte>, header: seq<byte>, records: seq<Rec>, i: nat)
    requires i <= |records| && buf.Length == Offset(|records|) && forall k :: 0 <= k < i ==> Packable(records[k])
    reads buf
  {
    && buf[..Offset(i)] == header + RecordsOfRecs(records[..i])
    && forall k :: Offset(i) <= k < buf.Length ==> buf[k] == 0
  }

  method WriteNext(buf: array<byte>, ghost header: seq<byte>, records: seq<Rec>, i: nat)
    requires i < |records| && buf.Length == Offset(|records|) && forall k :: 0 <= k <= i ==> Packable(records[k])
    requires Written(buf, header, records, i)
    modifies buf
    ensures Written(buf, header, records, i + 1)
  {
    ghost var before := buf[..];
    PutRecord(buf, Offset(i), records[i]);
    Spliced(before, Offset(i), RecordOfRec(records[i]), buf[..]);
    RecordsSnoc(records, i);
    assert Offset(i + 1) == Offset(i) + RECORD_BYTES;
  }

  lemma Spliced(before: seq<byte>, off: nat, bytes: seq<byte>, now: seq<byte>)
    requires off + |bytes| <= |before| && now == before[..off] + bytes + before[off + |bytes|..]
    ensures |now| == |before| && now[..off + |bytes|] == before[..off] + bytes
    ensures forall k :: off + |bytes| <= k < |now| ==> now[k] == before[k]
  {
  }

  lemma RecordsSnoc(rs: seq<Rec>, i: nat)
    requires i < |rs| && forall k :: 0 <= k <= i ==> Packable(rs[k])
    ensures RecordsOfRecs(rs[..i + 1]) == RecordsOfRecs(rs[..i]) + RecordOfRec(rs[i])
  {
    assert rs[..i + 1][..i] == rs[..i];
  }

  /* ---- the bytes on the wire --------------------------------------------------------------------- */

  /** One byte as a number. */
  function Num(b: seq<byte>, i: nat): nat
    requires i < |b|
  {
    b[i]
  }

  /** Four bytes, least significant first. */
  function Word(b: seq<byte>, off: nat): nat
    requires off + 4 <= |b|
  {
    Num(b, off) + 256 * Num(b, off + 1) + 65536 * Num(b, off + 2) + 16777216 * Num(b, off + 3)
  }

  /**
   * The twenty bytes of a frame's record: the time offset, the identifier with the extended, error and
   * unused flags in the three highest bits, the length code, the remote flag, two zeros, and the
   * payload up to the length code followed by zeros.
   */
  ghost predicate RecordBytes(b: seq<byte>, off: nat, f: BusFrame, base: int)
    requires off + 20 <= |b|
  {
    && Word(b, off) == f.tUs - base
    && Num(b, off + 4) + 256 * Num(b, off + 5) + 65536 * Num(b, off + 6) + 16777216 * (Num(b, off + 7) % 32)
       == f.canId % 0x2000_0000
    && (b[off + 7] / 128 == 1 <==> f.isExtended) && (b[off + 7] / 64 % 2 == 1 <==> f.isError)
    && b[off + 7] / 32 % 2 == 0
    && b[off + 8] == f.dlc && b[off + 9] == (if f.isRtr then 1 else 0) && b[off + 10] == 0 && b[off + 11] == 0
    && forall k :: 0 <= k < 8 ==> b[off + 12 + k] == if k < f.dlc && k < |f.data| then f.data[k] else 0
  }

  /** The twelve bytes before the records: version, replay flag, number of frames, base time. */
  ghost predicate HeaderBytes(b: seq<byte>, count: nat, base: int, replay: bool)
    requires |b| >= 12
  {
    && b[0] == 1 && b[1] == (if replay then 1 else 0) && Num(b, 2) + 256 * Num(b, 3) == count
    && Word(b, 4) + 0x1_0000_0000 * Word(b, 8) == base
  }

  /** What the backend puts on the wire, byte by byte. */
  lemma BytesOnWire(frames: seq<BusFrame>, base: int, replay: bool)
    requires EncodeBatch(frames, base, replay).Ok?
    ensures var b := EncodeBatch(frames, base, replay).value;
      && |b| == 12 + 20 * |frames| && HeaderBytes(b, |frames|, base, replay)
      && forall i :: 0 <= i < |frames| ==> RecordBytes(b, 12 + 20 * i, frames[i], base)
  {
    var b, body := EncodeBatch(frames, base, replay).value, EncodeRecords(frames, base).value;
    var header := HeaderOf(if replay then 1 else 0, |frames|, base);
    assert b[..12] == header;
    HeaderFields(b, if replay then 1 else 0, |frames|, base);
    HeaderWords(b);
    forall i | 0 <= i < |frames| ensures RecordBytes(b, 12 + 20 * i, frames[i], base) {
      RecordAt(frames, base, i);
      Shifted(header, body, 20 * i, 20 * i + 20);
      RecordWords(frames[i], base, b, 12 + 20 * i);
    }
  }

  lemma HeaderWords(b: seq<byte>)
    requires |b| >= 12
    ensures Get16(b, 2) == Num(b, 2) + 256 * Num(b, 3) && Get64(b, 4) == Word(b, 4) + 0x1_0000_0000 * Word(b, 8)
  {
    WordIs(b, 4);
    WordIs(b, 8);
  }

  lemma WordIs(b: seq<byte>, off: nat)
    requires off + 4 <= |b|
    ensures Get32(b, off) == Word(b, off)
  {
  }

  lemma RecordWords(f: BusFrame, base: int, b: seq<byte>, off: nat)
    requires off + 20 <= |b| && EncodeRecord(f, base) == Ok(b[off..off + 20])
    ensures RecordBytes(b, off, f, base)
  {
    RecordEncodes(f, base, b[off..off + 20]);
    var dt, word := f.tUs - base, IdWord(f.canId, f.isExtended, f.isError);
    var recFlags, data := if f.isRtr then 1 else 0, Fit(Upto(f.data, f.dlc), 8);
    RecordFields(b, off, dt, word, f.dlc, recFlags, data);
    FieldsAreBytes(f, base, b, off, dt, word, recFlags, data);
  }

  lemma FieldsAreBytes(f: BusFrame, base: int, b: seq<byte>, off: nat, dt: nat, word: nat, recFlags: byte,
                       data: seq<byte>)
    requires off + 20 <= |b| && Encodes(f, base, dt, word, recFlags, data)
    requires Get32(b, off) == dt && Get32(b, off + 4) == word && b[off + 8] == f.dlc && b[off + 9] == recFlags
    requires b[off + 10] == 0 && b[off + 11] == 0 && b[off + 12..off + 20] == data
    ensures RecordBytes(b, off, f, base)
  {
    WordIs(b, off);
    WordIs(b, off + 4);
    IdWordMasks(f.canId, f.isExtended, f.isError);
    FlagsOfWord(b, off + 4, f.canId % ID_LIMIT, f.isExtended, f.isError);
    PayloadIs(b, off + 12, f.data, f.dlc);
  }

  lemma IdWordMasks(canId: int, isExtended: bool, isError: bool)
    ensures IdWord(canId, isExtended, isError) == IdWord(canId % ID_LIMIT, isExtended, isError)
  {
  }

  lemma PayloadIs(b: seq<byte>, at: nat, data: seq<byte>, dlc: nat)
    requires at + 8 <= |b| && b[at..at + 8] == Fit(Upto(data, dlc), 8)
    ensures forall k :: 0 <= k < 8 ==> b[at + k] == if k < dlc && k < |data| then data[k] else 0
  {
    forall k | 0 <= k < 8 ensures b[at + k] == if k < dlc && k < |data| then data[k] else 0 {
      assert b[at..at + 8][k] == b[at + k];
    }
  }

  /** The identifier word, byte by byte. */
  lemma FlagsOfWord(b: seq<byte>, off: nat, id: nat, isExtended: bool, isError: bool)
    requires off + 4 <= |b| && id < 0x2000_0000 && Word(b, off) == IdWord(id, isExtended, isError)
    ensures Num(b, off) + 256 * Num(b, off + 1) + 65536 * Num(b, off + 2) + 16777216 * (Num(b, off + 3) % 32) == id
    ensures (b[off + 3] / 128 == 1 <==> isExtended) && (b[off + 3] / 64 % 2 == 1 <==> isError)
    ensures b[off + 3] / 32 % 2 == 0
  {
    TopByte(Num(b, off) + 256 * Num(b, off + 1) + 65536 * Num(b, off + 2), Num(b, off + 3), id, isExtended, isError);
  }

  lemma TopByte(low: nat, top: nat, id: nat, isExtended: bool, isError: bool)
    requires low < 16777216 && top < 256 && id < 0x2000_0000
    requires low + 16777216 * top == id + (if isExtended then 0x8000_0000 else 0) + (if isError then 0x4000_0000 else 0)
    ensures low + 16777216 * (top % 32) == id
    ensures (top / 128 == 1 <==> isExtended) && (top / 64 % 2 == 1 <==> isError) && top / 32 % 2 == 0
  {
  }

  /** What any decoder reads from the twenty bytes at `off`, whatever they are: a length code above
      eight counts as eight, and bits without a meaning are passed over. */
  lemma FrameReadsBytes(b: seq<byte>, off: nat, base: nat)
    requires off + 20 <= |b|
    ensures var f := FrameAt(b, off, base);
      && f.tUs == base + Word(b, off)
      && f.id == Num(b, off + 4) + 256 * Num(b, off + 5) + 65536 * Num(b, off + 6) + 16777216 * (Num(b, off + 7) % 32)
      && (f.isExtended <==> b[off + 7] / 128 == 1) && (f.isError <==> b[off + 7] / 64 % 2 == 1)
      && (f.isRtr <==> b[off + 9] % 2 == 1)
      && f.dlc == Min(8, b[off + 8]) && f.data == b[off + 12..off + 12 + f.dlc]
  {
    WordIs(b, off);
    WordIs(b, off + 4);
    ReadTopByte(Num(b, off + 4) + 256 * Num(b, off + 5) + 65536 * Num(b, off + 6), Num(b, off + 7));
  }

  /** The same of the shared library's record, which keeps the time as an offset. */
  lemma RecReadsBytes(b: seq<byte>, off: nat, base: nat)
    requires off + 20 <= |b|
    ensures var r := RecOf(FrameAt(b, off, base), base);
      && r.dt == Word(b, off)
      && r.canId == Num(b, off + 4) + 256 * Num(b, off + 5) + 65536 * Num(b, off + 6)
                    + 16777216 * (Num(b, off + 7) % 32)
      && (r.isExtended <==> b[off + 7] / 128 == 1) && (r.isError <==> b[off + 7] / 64 % 2 == 1)
      && (r.isRtr <==> b[off + 9] % 2 == 1)
      && r.dlc == Min(8, b[off + 8]) && r.data == b[off + 12..off + 12 + Min(8, b[off + 8])]
  {
    FrameReadsBytes(b, off, base);
  }

  lemma ReadTopByte(low: nat, top: nat)
    requires low < 16777216 && top < 256
    ensures var word := low + 16777216 * top;
      && word % ID_LIMIT == low + 16777216 * (top % 32)
      && (word / EXTENDED_BIT % 2 == 1 <==> top / 128 == 1) && (word / ERROR_BIT % 2 == 1 <==> top / 64 % 2 == 1)
  {
  }

  /** The header any decoder reads: bit 0 of the flags, the count and the base in their places. */
  lemma BatchReadsBytes(b: seq<byte>)
    requires |b| >= HEADER_BYTES && |b| >= Need(b)
    ensures var batch := BatchIn(b);
      && batch.version == b[0] && (batch.replay <==> b[1] % 2 == 1)
      && |batch.frames| == Num(b, 2) + 256 * Num(b, 3) && batch.base == Word(b, 4) + 0x1_0000_0000 * Word(b, 8)
      && Need(b) == 12 + 20 * |batch.frames|
      && forall i :: 0 <= i < |batch.frames| ==> batch.frames[i] == FrameAt(b, 12 + 20 * i, batch.base)
  {
    HeaderWords(b);
  }

  /** The record of the shared library, byte by byte: as the backend's, with the time offset modulo 2^32
      and the payload modulo 256. */
  ghost predicate RecBytes(b: seq<byte>, r: Rec)
    requires |b| == 20
  {
    && Word(b, 0) == r.dt % 0x1_0000_0000
    && Num(b, 4) + 256 * Num(b, 5) + 65536 * Num(b, 6) + 16777216 * (Num(b, 7) % 32) == r.canId % 0x2000_0000
    && (b[7] / 128 == 1 <==> r.isExtended) && (b[7] / 64 % 2 == 1 <==> r.isError) && b[7] / 32 % 2 == 0
    && b[8] == r.dlc && b[9] == (if r.isRtr then 1 else 0) && b[10] == 0 && b[11] == 0
    && forall k :: 0 <= k < 8 ==> b[12 + k] == if k < r.dlc && k < |r.data| then r.data[k] % 256 else 0
  }

  lemma SharedBytes(r: Rec)
    requires Packable(r)
    ensures RecBytes(RecordOfRec(r), r)
  {
    var b := RecordOfRec(r);
    var word, data := IdWord(r.canId, r.isExtended, r.isError), Fit(Upto(LowBytes(r.data), r.dlc), 8);
    assert b[0..20] == b;
    RecordFields(b, 0, r.dt % U32, word, r.dlc, if r.isRtr then 1 else 0, data);
    FieldsAreRec(b, r, word);
  }

  lemma FieldsAreRec(b: seq<byte>, r: Rec, word: nat)
    requires |b| == 20 && 0 <= r.dlc <= 8 && word == IdWord(r.canId, r.isExtended, r.isError)
    requires Get32(b, 0) == r.dt % U32 && Get32(b, 4) == word && b[8] == r.dlc && b[9] == (if r.isRtr then 1 else 0)
    requires b[10] == 0 && b[11] == 0 && b[12..20] == Fit(Upto(LowBytes(r.data), r.dlc), 8)
    ensures RecBytes(b, r)
  {
    WordIs(b, 0);
    WordIs(b, 4);
    FlagsOfWord(b, 4, r.canId % ID_LIMIT, r.isExtended, r.isError);
    SharedPayload(b, r);
  }

  lemma SharedPayload(b: seq<byte>, r: Rec)
    requires |b| == 20 && r.dlc >= 0 && b[12..20] == Fit(Upto(LowBytes(r.data), r.dlc), 8)
    ensures forall k :: 0 <= k < 8 ==> b[12 + k] == if k < r.dlc && k < |r.data| then r.data[k] % 256 else 0
  {
    forall k | 0 <= k < 8 ensures b[12 + k] == if k < r.dlc && k < |r.data| then r.data[k] % 256 else 0 {
      assert b[12..20][k] == b[12 + k];
    }
  }

  /** It refuses just length codes outside 0 to 8 and, of the identifiers, the negative ones that do not
      fit in 29 bits. */
  lemma PackableIs(r: Rec)
    ensures Packable(r) <==> 0 <= r.dlc <= 8 && (r.canId >= 0 || r.canId % 0x1_0000_0000 < 0x2000_0000)
  {
  }

  /* ---- round trips ----------------------------------------------------------------------------- */

  /** The identifier word splits back into what it was put together from, and bit 29 is unused. */
  lemma WordSplits(id: nat, isExtended: bool, isError: bool, w: nat)
    requires id < ID_LIMIT && w < U32
    ensures w == IdWord(id, isExtended, isError) <==>
              w % ID_LIMIT == id && (w / EXTENDED_BIT % 2 == 1) == isExtended
              && (w / ERROR_BIT % 2 == 1) == isError && w / ID_LIMIT % 2 == 0
  {
  }

  lemma Slice(s: seq<byte>, a: nat, b: nat, i: nat, j: nat)
    requires a <= b <= |s| && i <= j <= b - a
    ensures s[a..b][i..j] == s[a + i..a + j]
  {
    var t := s[a..b];
    assert forall k :: i <= k < j ==> t[k] == s[a + k];
  }

  lemma Parts(a: seq<byte>, b: seq<byte>, c: seq<byte>, d: seq<byte>)
    ensures (a + b + c + d)[0..|a|] == a
    ensures (a + b + c + d)[|a|..|a| + |b|] == b
    ensures (a + b + c + d)[|a| + |b|..|a| + |b| + |c|] == c
    ensures (a + b + c + d)[|a| + |b| + |c|..|a| + |b| + |c| + |d|] == d
  {
    var s := a + b + c + d;
    Middle([], a, b + c + d);
    Middle(a, b, c + d);
    Middle(a + b, c, d);
    Middle(a + b + c, d, []);
    assert [] + a + (b + c + d) == s && a + b + (c + d) == s && a + b + c + d + [] == s;
  }

  lemma Middle(p: seq<byte>, q: seq<byte>, r: seq<byte>)
    ensures (p + q + r)[|p|..|p| + |q|] == q
  {
    assert p + q + r == p + (q + r);
  }

  /** The fields of a record. */
  lemma RecordFields(buf: seq<byte>, off: nat, dt: nat, word: nat, dlc: byte, recFlags: byte, data: seq<byte>)
    requires off + RECORD_BYTES <= |buf| && |data| == 8 && dt < U32 && word < U32
    ensures buf[off..off + RECORD_BYTES] == RecordOf(dt, word, dlc, recFlags, data) <==>
              && Get32(buf, off) == dt && Get32(buf, off + 4) == word && buf[off + 8] == dlc
              && buf[off + 9] == recFlags && buf[off + 10] == 0 && buf[off + 11] == 0
              && buf[off + 12..off + 20] == data
  {
    GetPut32(buf, off, dt);
    GetPut32(buf, off + 4, word);
    var r := buf[off..off + RECORD_BYTES];
    Slice(buf, off, off + 20, 0, 4);
    Slice(buf, off, off + 20, 4, 8);
    Slice(buf, off, off + 20, 12, 20);
    var mid := [r[8], r[9], r[10], r[11]];
    assert r == r[0..4] + r[4..8] + mid + r[12..20];
    Parts(Le32(dt), Le32(word), [dlc, recFlags, 0, 0], data);
    Parts(r[0..4], r[4..8], mid, r[12..20]);
    assert mid == [dlc, recFlags, 0, 0] <==> r[8] == dlc && r[9] == recFlags && r[10] == 0 && r[11] == 0;
  }

  /** The fields a frame's record is made of. */
  ghost predicate Encodes(f: BusFrame, base: int, dt: nat, word: nat, recFlags: byte, data: seq<byte>) {
    && f.tUs == base + dt && dt < U32 && word == IdWord(f.canId, f.isExtended, f.isError)
    && recFlags == (if f.isRtr then 1 else 0) && data == Fit(Upto(f.data, f.dlc), 8)
  }

  lemma RecordEncodes(f: BusFrame, base: int, b: seq<byte>)
    requires EncodeRecord(f, base) == Ok(b)
    ensures var dt, word := f.tUs - base, IdWord(f.canId, f.isExtended, f.isError);
      var recFlags, data := if f.isRtr then 1 else 0, Fit(Upto(f.data, f.dlc), 8);
      dt >= 0 && Encodes(f, base, dt, word, recFlags, data) && b == RecordOf(dt, word, f.dlc, recFlags, data)
  {
  }

  /** A record holding a frame's fields shows the frame. */
  lemma FieldsShow(f: BusFrame, base: nat, buf: seq<byte>, off: nat, dt: nat, word: nat, recFlags: byte,
                   data: seq<byte>)
    requires off + RECORD_BYTES <= |buf| && Encodes(f, base, dt, word, recFlags, data)
    requires Get32(buf, off) == dt && Get32(buf, off + 4) == word && buf[off + 8] == f.dlc
    requires buf[off + 9] == recFlags && buf[off + 12..off + 20] == data
    ensures FrameAt(buf, off, base) == Shown(f)
  {
    WordSplits(f.canId % ID_LIMIT, f.isExtended, f.isError, word);
    Slice(buf, off + 12, off + 20, 0, f.dlc);
    FitCut(f.data, f.dlc);
  }

  /** Decoding the record of a frame shows that frame. */
  lemma RecordShows(f: BusFrame, base: nat, buf: seq<byte>, off: nat)
    requires off + RECORD_BYTES <= |buf|
    requires EncodeRecord(f, base) == Ok(buf[off..off + RECORD_BYTES])
    ensures FrameAt(buf, off, base) == Shown(f) && buf[off + 8] == f.dlc
  {
    RecordEncodes(f, base, buf[off..off + RECORD_BYTES]);
    var dt, word := f.tUs - base, IdWord(f.canId, f.isExtended, f.isError);
    var recFlags, data := if f.isRtr then 1 else 0, Fit(Upto(f.data, f.dlc), 8);
    RecordFields(buf, off, dt, word, f.dlc, recFlags, data);
    FieldsShow(f, base, buf, off, dt, word, recFlags, data);
  }

  /** Padding what was cut changes nothing within the cut. */
  lemma FitCut(data: seq<byte>, n: nat)
    requires n <= 8
    ensures Fit(Upto(data, n), 8)[0..n] == Fit(data, n)
  {
  }

  lemma HeaderFields(buf: seq<byte>, flags: byte, count: nat, base: nat)
    requires |buf| >= HEADER_BYTES && count <= MAX_COUNT && base < U64
    ensures buf[..HEADER_BYTES] == HeaderOf(flags, count, base) <==>
              buf[0] == VERSION && buf[1] == flags && Get16(buf, 2) == count && Get64(buf, 4) == base
  {
    GetPut16(buf, 2, count);
    GetPut64(buf, 4, base);
    var h := buf[..HEADER_BYTES];
    assert h[2..4] == buf[2..4] && h[4..] == buf[4..12];
    assert h == [h[0], h[1]] + h[2..4] + h[4..];
    var w := HeaderOf(flags, count, base);
    assert w[0] == VERSION && w[1] == flags && w[2..4] == Le16(count) && w[4..] == Le64(base);
  }

  lemma Shifted(h: seq<byte>, body: seq<byte>, i: nat, j: nat)
    requires i <= j <= |body|
    ensures (h + body)[|h| + i..|h| + j] == body[i..j]
  {
  }

  /**
   * Decoding an encoded batch gives back the frames with their data padded or cut to the length
   * code, the base and the replay flag.
   */
  lemma DecodeOfEncode(frames: seq<BusFrame>, base: int, replay: bool)
    requires Encodable(frames, base)
    ensures EncodeBatch(frames, base, replay).Ok?
    ensures DecodeBatch(EncodeBatch(frames, base, replay).value) == Ok(Batch(VERSION, replay, base, ShownAll(frames)))
  {
    EncodesExactly(frames, base, replay);
    var buf := EncodeBatch(frames, base, replay).value;
    var body := EncodeRecords(frames, base).value;
    var header := HeaderOf(if replay then 1 else 0, |frames|, base);
    assert buf[..HEADER_BYTES] == header;
    HeaderFields(buf, if replay then 1 else 0, |frames|, base);
    assert CountOf(buf) == |frames| && |buf| == Need(buf);
    forall i | 0 <= i < |frames| ensures FrameAt(buf, Offset(i), base) == Shown(frames[i]) && DlcAt(buf, i) <= 8 {
      RecordAt(frames, base, i);
      Shifted(header, body, RECORD_BYTES * i, RECORD_BYTES * i + RECORD_BYTES);
      RecordShows(frames[i], base, buf, Offset(i));
    }
    assert FramesAt(buf, |frames|, base) == ShownAll(frames);
  }

  /** Once the backend accepts a buffer, every decoder reads the same frames from it; the worker
      additionally clamps long length codes and ignores bytes past the records. */
  lemma DecodersAgree(buf: seq<byte>)
    requires |buf| >= HEADER_BYTES && buf[0] == VERSION && |buf| >= Need(buf)
    ensures DecodeBatch(buf).Ok? <==> |buf| == Need(buf) && forall i :: 0 <= i < CountOf(buf) ==> DlcAt(buf, i) <= 8
    ensures DecodeBatch(buf).Ok? ==> DecodeBatch(buf).value == BatchIn(buf)
    ensures forall trailing :: BatchIn(buf[..Need(buf)] + trailing) == BatchIn(buf)
  {
    forall trailing ensures BatchIn(buf[..Need(buf)] + trailing) == BatchIn(buf) {
      SamePrefix(buf, buf[..Need(buf)] + trailing);
    }
  }

  lemma SamePrefix(a: seq<byte>, b: seq<byte>)
    requires |a| >= HEADER_BYTES && |a| >= Need(a) && |b| >= Need(a) && a[..Need(a)] == b[..Need(a)]
    ensures Need(b) == Need(a) && BatchIn(b) == BatchIn(a)
  {
    var n := Need(a);
    assert forall k :: 0 <= k < n ==> a[k] == a[..n][k] && b[k] == b[..n][k];
    forall i | 0 <= i < CountOf(a) ensures FrameAt(a, Offset(i), Get64(a, 4)) == FrameAt(b, Offset(i), Get64(b, 4)) {
      assert Offset(i) + RECORD_BYTES <= n;
    }
  }

  /* ---- re-encoding ------------------------------------------------------------------------------ */

  function AsBus(f: Frame): BusFrame {
    BusFrame(f.tUs, f.id, f.dlc, f.data, f.isExtended, f.isError, f.isRtr)
  }

  function AsBusAll(fs: seq<Frame>): (b: seq<BusFrame>)
    ensures |b| == |fs|
  {
    seq(|fs|, i requires 0 <= i < |fs| => AsBus(fs[i]))
  }

  /** A record with no reserved bit set and zeros after its payload. */
  ghost predicate CanonicalRecord(buf: seq<byte>, off: nat)
    requires off + RECORD_BYTES <= |buf|
  {
    && Get32(buf, off + 4) / ID_LIMIT % 2 == 0
    && buf[off + 9] <= 1 && buf[off + 10] == 0 && buf[off + 11] == 0
    && forall k :: off + 12 + buf[off + 8] <= k < off + RECORD_BYTES ==> buf[k] == 0
  }

  ghost predicate Canonical(buf: seq<byte>)
    requires |buf| >= HEADER_BYTES && |buf| >= Need(buf)
  {
    buf[1] <= 1 && forall i :: 0 <= i < CountOf(buf) ==> CanonicalRecord(buf, Offset(i))
  }

  /** Cutting and padding again gives the same eight bytes just when the padding was zero. */
  lemma PaddingIsZero(buf: seq<byte>, at: nat, n: nat)
    requires at + 8 <= |buf| && n <= 8
    ensures Fit(buf[at..at + n], 8) == buf[at..at + 8] <==> forall k :: at + n <= k < at + 8 ==> buf[k] == 0
  {
    var was, fit := buf[at..at + 8], Fit(buf[at..at + n], 8);
    assert forall k :: at <= k < at + 8 ==> was[k - at] == buf[k];
    assert forall i :: 0 <= i < 8 ==> fit[i] == if i < n then was[i] else 0;
    assert forall i :: n <= i < 8 ==> was[i] == buf[at + i];
  }

  /** What a decoded frame is encoded to. */
  lemma AsBusEncodes(buf: seq<byte>, off: nat, base: nat)
    requires off + RECORD_BYTES <= |buf| && buf[off + 8] <= 8
    ensures var f := FrameAt(buf, off, base);
      && f.dlc == buf[off + 8] && f.data == buf[off + 12..off + 12 + f.dlc]
      && EncodeRecord(AsBus(f), base) == Ok(RecordOf(Get32(buf, off), IdWord(f.id, f.isExtended, f.isError), f.dlc,
                                                     if f.isRtr then 1 else 0, Fit(f.data, 8)))
  {
    var f := FrameAt(buf, off, base);
    assert Upto(f.data, f.dlc) == f.data;
  }

  /** Put together again from what was read, a record is the same just when it is canonical. */
  lemma SameIfCanonical(buf: seq<byte>, off: nat, f: Frame, back: nat)
    requires off + RECORD_BYTES <= |buf| && buf[off + 8] <= 8 && back < U32
    requires (back == Get32(buf, off + 4)) == (Get32(buf, off + 4) / ID_LIMIT % 2 == 0)
    requires f.isRtr == (buf[off + 9] % 2 == 1)
    requires f.dlc == buf[off + 8] && f.data == buf[off + 12..off + 12 + f.dlc]
    ensures CanonicalRecord(buf, off) <==>
            buf[off..off + RECORD_BYTES] ==
            RecordOf(Get32(buf, off), back, f.dlc, if f.isRtr then 1 else 0, Fit(f.data, 8))
  {
    var flags := if f.isRtr then 1 else 0;
    RecordFields(buf, off, Get32(buf, off), back, f.dlc, flags, Fit(f.data, 8));
    PaddingIsZero(buf, off + 12, f.dlc);
    assert buf[off + 9] == flags <==> buf[off + 9] <= 1;
  }

  lemma RecordReencodes(buf: seq<byte>, off: nat, base: nat)
    requires off + RECORD_BYTES <= |buf| && buf[off + 8] <= 8
    ensures EncodeRecord(AsBus(FrameAt(buf, off, base)), base) == Ok(buf[off..off + RECORD_BYTES])
            <==> CanonicalRecord(buf, off)
  {
    var f, word := FrameAt(buf, off, base), Get32(buf, off + 4);
    AsBusEncodes(buf, off, base);
    WordSplits(f.id, f.isExtended, f.isError, word);
    SameIfCanonical(buf, off, f, IdWord(f.id, f.isExtended, f.isError));
  }

  /** The `i`-th slice of a body is the record of the `i`-th frame. */
  ghost predicate HoldsRecord(frames: seq<BusFrame>, base: int, body: seq<byte>, i: nat)
    requires i < |frames| && |body| == RECORD_BYTES * |frames|
  {
    EncodeRecord(frames[i], base) == Ok(body[RECORD_BYTES * i..RECORD_BYTES * i + RECORD_BYTES])
  }

  /** Encoding is injective record by record: a body is the encoding just when all its records are. */
  lemma {:induction false} BodyIs(frames: seq<BusFrame>, base: int, body: seq<byte>)
    requires EncodeRecords(frames, base).Ok? && |body| == RECORD_BYTES * |frames|
    ensures EncodeRecords(frames, base).value == body
            <==> forall i :: 0 <= i < |frames| ==> HoldsRecord(frames, base, body, i)
  {
    if frames != [] {
      var n := |frames| - 1;
      var init, last := body[..RECORD_BYTES * n], body[RECORD_BYTES * n..];
      BodyIs(frames[..n], base, init);
      assert body == init + last;
      forall i | 0 <= i < n ensures HoldsRecord(frames, base, body, i) <==> HoldsRecord(frames[..n], base, init, i) {
        InPrefix(init, last, RECORD_BYTES * i, RECORD_BYTES * i + RECORD_BYTES);
      }
      assert body[RECORD_BYTES * n..RECORD_BYTES * n + RECORD_BYTES] == last;
      var e, r := EncodeRecords(frames[..n], base).value, EncodeRecord(frames[n], base).value;
      assert (e + r)[..|e|] == e && (e + r)[|e|..] == r;
      assert HoldsRecord(frames, base, body, n) <==> r == last;
    }
  }

  /** Two buffers of a header and a body. */
  lemma SplitEqual(h1: seq<byte>, b1: seq<byte>, h2: seq<byte>, b2: seq<byte>)
    requires |h1| == |h2|
    ensures h1 + b1 == h2 + b2 <==> h1 == h2 && b1 == b2
  {
    assert h1 == (h1 + b1)[..|h1|] && b1 == (h1 + b1)[|h1|..];
    assert h2 == (h2 + b2)[..|h2|] && b2 == (h2 + b2)[|h2|..];
  }

  /** Re-encoding what the backend decoded is the identity exactly on canonical bytes. */
  lemma Reencode(buf: seq<byte>)
    requires DecodeBatch(buf).Ok?
    ensures var b := DecodeBatch(buf).value;
            EncodeBatch(AsBusAll(b.frames), b.base, b.replay).Ok? &&
            (EncodeBatch(AsBusAll(b.frames), b.base, b.replay).value == buf <==> Canonical(buf))
  {
    var b := BatchIn(buf);
    EncodesExactly(AsBusAll(b.frames), b.base, b.replay);
    HeaderReencodes(buf);
    BodyReencodes(buf);
    var again := HeaderOf(if b.replay then 1 else 0, |b.frames|, b.base);
    var records := EncodeRecords(AsBusAll(b.frames), b.base).value;
    SplitEqual(again, records, buf[..HEADER_BYTES], buf[HEADER_BYTES..]);
    assert buf == buf[..HEADER_BYTES] + buf[HEADER_BYTES..];
  }

  lemma HeaderReencodes(buf: seq<byte>)
    requires DecodeBatch(buf).Ok?
    ensures var b := BatchIn(buf);
            HeaderOf(if b.replay then 1 else 0, |b.frames|, b.base) == buf[..HEADER_BYTES] <==> buf[1] <= 1
  {
    var b := BatchIn(buf);
    HeaderFields(buf, if b.replay then 1 else 0, |b.frames|, b.base);
  }

  /** The `i`-th slice of the body is written again just when it is canonical. */
  lemma SliceReencodes(buf: seq<byte>, frames: seq<BusFrame>, base: nat, i: nat)
    requires |buf| == Offset(|frames|) && i < |frames| && DlcAt(buf, i) <= 8
    requires frames[i] == AsBus(FrameAt(buf, Offset(i), base))
    ensures HoldsRecord(frames, base, buf[HEADER_BYTES..], i) <==> CanonicalRecord(buf, Offset(i))
  {
    RecordReencodes(buf, Offset(i), base);
    Shifted(buf[..HEADER_BYTES], buf[HEADER_BYTES..], RECORD_BYTES * i, RECORD_BYTES * i + RECORD_BYTES);
    assert buf[..HEADER_BYTES] + buf[HEADER_BYTES..] == buf;
  }

  lemma BodyReencodes(buf: seq<byte>)
    requires |buf| >= HEADER_BYTES && |buf| == Need(buf) && forall i :: 0 <= i < CountOf(buf) ==> DlcAt(buf, i) <= 8
    requires EncodeRecords(AsBusAll(BatchIn(buf).frames), BatchIn(buf).base).Ok?
    ensures EncodeRecords(AsBusAll(BatchIn(buf).frames), BatchIn(buf).base).value == buf[HEADER_BYTES..] <==>
            forall i :: 0 <= i < CountOf(buf) ==> CanonicalRecord(buf, Offset(i))
  {
    var base := BatchIn(buf).base;
    var frames := AsBusAll(BatchIn(buf).frames);
    BodyIs(frames, base, buf[HEADER_BYTES..]);
    forall i | 0 <= i < |frames|
      ensures HoldsRecord(frames, base, buf[HEADER_BYTES..], i) <==> CanonicalRecord(buf, Offset(i))
    {
      assert DlcAt(buf, i) <= 8;
      SliceReencodes(buf, frames, base, i);
    }
  }

  /* ---- the two encoders ---------------------------------------------------------------------------- */

  /** The record a frame becomes when the shared library encodes it. */
  function RecOfBus(f: BusFrame, base: int): Rec {
    Rec(f.tUs - base, f.canId % ID_LIMIT, f.dlc, f.isExtended, f.isError, f.isRtr, f.data)
  }

  function RecsOfBus(frames: seq<BusFrame>, base: int): (rs: seq<Rec>)
    ensures |rs| == |frames|
    ensures forall i :: 0 <= i < |rs| ==> rs[i] == RecOfBus(frames[i], base) && Packable(rs[i])
  {
    seq(|frames|, i requires 0 <= i < |frames| => RecOfBus(frames[i], base))
  }

  /** On everything the backend encodes, the shared encoder writes the same bytes. */
  lemma {:induction false} EncodersAgree(frames: seq<BusFrame>, base: int)
    requires EncodeRecords(frames, base).Ok?
    ensures RecordsOfRecs(RecsOfBus(frames, base)) == EncodeRecords(frames, base).value
  {
    if frames != [] {
      var n := |frames| - 1;
      EncodersAgree(frames[..n], base);
      var recs := RecsOfBus(frames, base);
      assert recs[..n] == RecsOfBus(frames[..n], base);
      RecordAgrees(frames[n], base);
    }
  }

  lemma RecordAgrees(f: BusFrame, base: int)
    requires EncodeRecord(f, base).Ok?
    ensures RecordOfRec(RecOfBus(f, base)) == EncodeRecord(f, base).value
  {
    assert LowBytes(f.data) == f.data;
    var dt: nat := f.tUs - base;
    assert dt % U32 == dt;
    assert IdWord(f.canId % ID_LIMIT, f.isExtended, f.isError) == IdWord(f.canId, f.isExtended, f.isError);
  }
}
