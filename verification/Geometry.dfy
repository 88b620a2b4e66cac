/**
 * Where a signal lives in a payload, and what its bits mean.  The reference meaning is given
 * without any walk: Intel bits ascend from the start bit, Motorola bits are a contiguous range
 * seen in a mirror that reverses the bits of every byte.
 */
module Geometry {
  import opened Common
  import opened Bits

  datatype ByteOrder = Little | Big

  datatype Signal = Signal(bitStart: nat, bitLength: nat, byteOrder: ByteOrder, signed: bool)

  /** Reverse the bit number within its byte. */
  function Mirror(b: nat): nat {
    b / 8 * 8 + (7 - b % 8)
  }

  lemma MirrorInvolution(b: nat)
    ensures Mirror(Mirror(b)) == b && Mirror(b) / 8 == b / 8
  {
  }

  lemma MirrorAt(byteIndex: nat, k: nat)
    requires k < 8
    ensures Mirror(byteIndex * 8 + k) == byteIndex * 8 + (7 - k)
  {
  }

  /** The CAN bit that carries bit `i` (0 = least significant) of the signal. */
  function BitAt(sig: Signal, i: nat): nat
    requires i < sig.bitLength
  {
    match sig.byteOrder
    case Little => sig.bitStart + i
    case Big => Mirror(Mirror(sig.bitStart) + (sig.bitLength - 1 - i))
  }

  function BitOrder(sig: Signal): (bits: seq<nat>)
    ensures |bits| == sig.bitLength
  {
    seq(sig.bitLength, i requires 0 <= i < sig.bitLength => BitAt(sig, i))
  }

  /** No two bits of a signal share a place in the payload. */
  lemma NoDuplicateBits(sig: Signal, i: nat, j: nat)
    requires i < sig.bitLength && j < sig.bitLength && BitOrder(sig)[i] == BitOrder(sig)[j]
    ensures i == j
  {
    if sig.byteOrder == Big {
      MirrorInvolution(Mirror(sig.bitStart) + (sig.bitLength - 1 - i));
      MirrorInvolution(Mirror(sig.bitStart) + (sig.bitLength - 1 - j));
    }
  }

  /** One bit of a payload; bits past the end read as zero. */
  function GetBit(data: seq<byte>, bitIndex: nat): (b: nat)
    ensures b <= 1
  {
    if bitIndex / 8 >= |data| then 0 else Bit(data[bitIndex / 8], bitIndex % 8)
  }

  /** The weight that position `i` of a bit list contributes. */
  function PlaceValue(data: seq<byte>, order: seq<nat>, i: nat): nat
    requires i < |order|
  {
    if GetBit(data, order[i]) == 1 then Pow2(i) else 0
  }

  /** Sum of the first `n` place values of a bit list. */
  function RawSum(data: seq<byte>, order: seq<nat>, n: nat): (r: nat)
    requires n <= |order|
    ensures r < Pow2(n)
  {
    if n == 0 then 0 else RawSum(data, order, n - 1) + PlaceValue(data, order, n - 1)
  }

  /** The integer a signal denotes: its place values, the top one negative when signed. */
  function Meaning(data: seq<byte>, sig: Signal): int {
    var order, n := BitOrder(sig), sig.bitLength;
    if sig.signed && n > 0 then RawSum(data, order, n - 1) - PlaceValue(data, order, n - 1)
    else RawSum(data, order, n)
  }

  /** The binary digits of the sum are the payload bits, in the signal's order. */
  lemma {:induction false} BitOfRawSum(data: seq<byte>, order: seq<nat>, n: nat, i: nat)
    requires i < n <= |order|
    ensures Bit(RawSum(data, order, n), i) == GetBit(data, order[i])
  {
    var x := RawSum(data, order, n - 1);
    SetAtTop(x, n - 1);
    BitOfSetAt(x, n - 1, i);
    if i < n - 1 {
      BitOfRawSum(data, order, n - 1, i);
    }
  }

  /** One step of the Motorola walk: towards the least significant bit, then to the next byte. */
  lemma WalkStep(byteIndex: nat, bitInByte: nat, m: nat)
    requires bitInByte < 8 && byteIndex * 8 + bitInByte == Mirror(m)
    ensures if bitInByte == 0 then (byteIndex + 1) * 8 + 7 == Mirror(m + 1)
            else byteIndex * 8 + (bitInByte - 1) == Mirror(m + 1)
  {
    assert byteIndex == m / 8 && bitInByte == 7 - m % 8;
  }

  method SignalBitOrder(sig: Signal) returns (bits: seq<nat>)
    ensures bits == BitOrder(sig)
  {
    bits := [];
    if sig.byteOrder == Little {
      for i := 0 to sig.bitLength
        invariant |bits| == i && forall k :: 0 <= k < i ==> bits[k] == BitAt(sig, k)
      {
        bits := bits + [sig.bitStart + i];
      }
      return bits;
    }
    var byteIndex, bitInByte := sig.bitStart / 8, sig.bitStart % 8;
    for i := 0 to sig.bitLength
      invariant 0 <= byteIndex && 0 <= bitInByte < 8
      invariant byteIndex * 8 + bitInByte == Mirror(Mirror(sig.bitStart) + i)
      invariant |bits| == i && forall k :: 0 <= k < i ==> bits[k] == BitAt(sig, k + (sig.bitLength - i))
    {
      WalkStep(byteIndex, bitInByte, Mirror(sig.bitStart) + i);
      bits := [byteIndex * 8 + bitInByte] + bits;
      if bitInByte == 0 {
        bitInByte := 7;
        byteIndex := byteIndex + 1;
      } else {
        bitInByte := bitInByte - 1;
      }
    }
  }

  method ExtractRaw(data: seq<byte>, sig: Signal) returns (raw: int)
    ensures raw == Meaning(data, sig)
  {
    var order := SignalBitOrder(sig);
    raw := 0;
    for i := 0 to |order|
      invariant raw == RawSum(data, order, i)
    {
      if GetBit(data, order[i]) == 1 {
        SetAtTop(raw, i);
        raw := SetAt(raw, i);
      }
    }
    if sig.signed && sig.bitLength > 0 {
      BitOfRawSum(data, order, |order|, sig.bitLength - 1);
      if Bit(raw, sig.bitLength - 1) != 0 {
        raw := raw - Pow2(sig.bitLength);
      }
    }
  }

  /** The highest bit a signal touches, 0 for an empty one. */
  method HighestBitIndex(sig: Signal) returns (max: nat)
    ensures forall i :: 0 <= i < sig.bitLength ==> BitOrder(sig)[i] <= max
    ensures if sig.bitLength == 0 then max == 0 else max in BitOrder(sig)
  {
    var order := SignalBitOrder(sig);
    max := 0;
    ghost var at := 0;
    for i := 0 to |order|
      invariant forall k :: 0 <= k < i ==> order[k] <= max
      invariant if i == 0 then max == 0 else at < i && max == order[at]
    {
      if i == 0 || order[i] > max {
        at := i;
      }
      if order[i] > max {
        max := order[i];
      }
    }
  }

  /**
   * Decode against a payload.  `truncated` is raised exactly when some bit of the signal lies
   * past the end of the payload, so that an untruncated raw value comes from real bits only.
   */
  method DecodeSignal(data: seq<byte>, sig: Signal, factor: real, offset: real)
    returns (raw: int, value: real, truncated: bool)
    ensures raw == Meaning(data, sig) && value == raw as real * factor + offset
    ensures sig.bitLength > 0 ==> (truncated <==> exists b :: b in BitOrder(sig) && b / 8 >= |data|)
  {
    var last := HighestBitIndex(sig);
    truncated := last / 8 >= |data|;
    raw := ExtractRaw(data, sig);
    value := raw as real * factor + offset;
  }

  /** Two's complement: subtracting the modulus from the upper half gives the signed meaning. */
  lemma SignedMeaning(data: seq<byte>, sig: Signal)
    requires sig.signed && sig.bitLength > 0
    ensures var raw := RawSum(data, BitOrder(sig), sig.bitLength);
            Meaning(data, sig) == if raw >= Pow2(sig.bitLength - 1) then raw - Pow2(sig.bitLength) else raw
  {
  }

  /** The place after `p` on the Motorola walk. */
  function NextPlace(p: nat): nat {
    if p % 8 == 0 then p + 15 else p - 1
  }

  /** The Motorola walk visits the signal's bits from the most significant one down. */
  lemma MotorolaWalk(sig: Signal)
    requires sig.byteOrder == Big
    ensures var order, n := BitOrder(sig), sig.bitLength;
      && (n > 0 ==> order[n - 1] == sig.bitStart)
      && (forall i :: 0 < i < n ==> order[i - 1] == NextPlace(order[i]))
  {
    MirrorInvolution(sig.bitStart);
    forall i | 0 < i < sig.bitLength ensures BitAt(sig, i - 1) == NextPlace(BitAt(sig, i)) {
      var p := BitAt(sig, i);
      WalkStep(p / 8, p % 8, Mirror(sig.bitStart) + (sig.bitLength - 1 - i));
    }
  }

  /** The Intel bits ascend from the start bit, the least significant one. */
  lemma IntelWalk(sig: Signal, i: nat)
    requires sig.byteOrder == Little && i < sig.bitLength
    ensures BitOrder(sig)[i] == if i == 0 then sig.bitStart else BitOrder(sig)[i - 1] + 1
  {
  }

  /** The Motorola branch of the second bit walk: `order` names the places it visits. */
  method WalkBig(data: seq<byte>, bitStart: nat, width: nat, ghost order: seq<nat>) returns (raw: int)
    requires |order| == width && (width > 0 ==> order[width - 1] == bitStart)
    requires forall i :: 0 < i < width ==> order[i - 1] == NextPlace(order[i])
    ensures raw == RawSum(data, order, width)
  {
    ghost var total := RawSum(data, order, width);
    var byteIndex, bitInByte := bitStart / 8, bitStart % 8;
    raw := 0;
    var i := width;
    while i > 0
      invariant 0 <= i <= width && 0 <= byteIndex && 0 <= bitInByte < 8
      invariant i > 0 ==> order[i - 1] == byteIndex * 8 + bitInByte
      invariant raw == total - RawSum(data, order, i)
    {
      i := i - 1;
      var canBit := byteIndex * 8 + bitInByte;
      RawStep(data, order, i, canBit);
      if GetBit(data, canBit) == 1 {
        raw := raw + Pow2(i);
      }
      if bitInByte == 0 {
        bitInByte := 7;
        byteIndex := byteIndex + 1;
      } else {
        bitInByte := bitInByte - 1;
      }
    }
  }

  lemma RawStep(data: seq<byte>, order: seq<nat>, i: nat, canBit: nat)
    requires i < |order| && order[i] == canBit
    ensures RawSum(data, order, i + 1) == RawSum(data, order, i) + (if GetBit(data, canBit) == 1 then Pow2(i) else 0)
  {
  }

  /** The discovery sweep's own decoder: a second bit walk, kept separate from the first. */
  method DecodeRaw(data: seq<byte>, sig: Signal) returns (raw: int)
    ensures raw == Meaning(data, sig)
  {
    var width := sig.bitLength;
    raw := 0;
    if sig.byteOrder == Little {
      for i := 0 to width
        invariant raw == RawSum(data, BitOrder(sig), i)
      {
        if GetBit(data, sig.bitStart + i) == 1 {
          raw := raw + Pow2(i);
        }
      }
    } else {
      MotorolaWalk(sig);
      raw := WalkBig(data, sig.bitStart, width, BitOrder(sig));
    }
    if sig.signed && width > 0 {
      SignedMeaning(data, sig);
      if raw >= Pow2(width - 1) {
        raw := raw - Pow2(width);
      }
    }
  }

  /* ---- packing ---------------------------------------------------------------------- */

  /** `x | (1 << k)` on a byte. */
  function SetBit(x: byte, k: nat): (y: byte)
    requires k < 8
  {
    assert Pow2(8) == 256 by {
      assert Pow2(4) == 16;
    }
    SetAtInRange(x, k, 8);
    SetAt(x, k)
  }

  /** The buffer with one position set; a position past the end is dropped. */
  function WithBit(buf: seq<byte>, bit: nat): (r: seq<byte>)
    ensures |r| == |buf|
  {
    if bit / 8 < |buf| then buf[bit / 8 := SetBit(buf[bit / 8], bit % 8)] else buf
  }

  /** The buffer after the first `n` bits of `raw` were OR-ed in; bits past the end are dropped. */
  function PackSpec(buf: seq<byte>, order: seq<nat>, raw: int, n: nat): (r: seq<byte>)
    requires n <= |order|
    ensures |r| == |buf|
  {
    if n == 0 then buf
    else
      var r := PackSpec(buf, order, raw, n - 1);
      if Bit(raw, n - 1) == 1 then WithBit(r, order[n - 1]) else r
  }

  function Packed(buf: seq<byte>, sig: Signal, raw: int): seq<byte> {
    PackSpec(buf, BitOrder(sig), raw, sig.bitLength)
  }

  /** `pack_signal` on the raw value: negative numbers are first brought into range. */
  method PackSignal(buf: array<byte>, sig: Signal, value: int)
    modifies buf
    ensures buf[..] == Packed(old(buf[..]), sig, value)
  {
    var raw, length := value, sig.bitLength;
    if sig.signed && raw < 0 {
      raw := raw + Pow2(length);
    }
    raw := Low(raw, length);
    LowOfSum(value, 1, length);
    var order := SignalBitOrder(sig);
    ghost var was := buf[..];
    for i := 0 to |order|
      invariant buf[..] == PackSpec(was, order, value, i)
    {
      BitOfLow(value, length, i);
      PackNext(was, order, value, i);
      if Bit(raw, i) == 1 {
        OrBit(buf, order[i]);
      }
    }
  }

  /** Set one position of the buffer, unless it lies past the end. */
  method OrBit(buf: array<byte>, bit: nat)
    modifies buf
    ensures buf[..] == WithBit(old(buf[..]), bit)
  {
    var bi := bit / 8;
    if bi < buf.Length {
      buf[bi] := SetBit(buf[bi], bit % 8);
    }
  }

  lemma PackNext(buf: seq<byte>, order: seq<nat>, raw: int, i: nat)
    requires i < |order|
    ensures PackSpec(buf, order, raw, i + 1) ==
            if Bit(raw, i) == 1 then WithBit(PackSpec(buf, order, raw, i), order[i]) else PackSpec(buf, order, raw, i)
  {
  }

  /** Position `b` is written by one of the first `n` set bits of `raw`. */
  ghost predicate Written(order: seq<nat>, raw: int, n: nat, b: nat)
    requires n <= |order|
  {
    exists i :: 0 <= i < n && order[i] == b && Bit(raw, i) == 1
  }

  /** Packing sets exactly the written positions inside the buffer, and leaves every other bit. */
  lemma {:induction false} BitOfPacked(buf: seq<byte>, order: seq<nat>, raw: int, n: nat, b: nat)
    requires n <= |order|
    ensures GetBit(PackSpec(buf, order, raw, n), b) ==
            if b / 8 < |buf| && Written(order, raw, n, b) then 1 else GetBit(buf, b)
  {
    if n > 0 {
      BitOfPacked(buf, order, raw, n - 1, b);
      var r, c := PackSpec(buf, order, raw, n - 1), order[n - 1];
      assert Written(order, raw, n, b) <==> Written(order, raw, n - 1, b) || (c == b && Bit(raw, n - 1) == 1);
      if Bit(raw, n - 1) == 1 && c / 8 < |buf| && c / 8 == b / 8 {
        BitOfSetAt(r[c / 8], c % 8, b % 8);
      }
    }
  }

  /** The number `value` becomes when only `bitLength` bits of it are kept. */
  function Wrapped(value: int, sig: Signal): int {
    if sig.signed && sig.bitLength > 0 then Low(value, sig.bitLength - 1) - Weight(value, sig.bitLength - 1)
    else Low(value, sig.bitLength)
  }

  /**
   * Round trip: packing into a buffer whose bits under the signal are clear, then extracting,
   * returns the value modulo 2^length, read back with the signal's own signedness.
   */
  lemma PackThenExtract(buf: seq<byte>, sig: Signal, value: int)
    requires forall i :: 0 <= i < sig.bitLength ==>
               BitOrder(sig)[i] / 8 < |buf| && GetBit(buf, BitOrder(sig)[i]) == 0
    ensures Meaning(Packed(buf, sig, value), sig) == Wrapped(value, sig)
  {
    var order, out := BitOrder(sig), Packed(buf, sig, value);
    forall i | 0 <= i < sig.bitLength ensures GetBit(out, order[i]) == Bit(value, i) {
      BitOfPacked(buf, order, value, sig.bitLength, order[i]);
      forall j | 0 <= j < sig.bitLength && order[j] == order[i] ensures j == i {
        NoDuplicateBits(sig, j, i);
      }
    }
    RawSumOfBits(out, order, value, sig.bitLength);
    if sig.bitLength > 0 {
      RawSumOfBits(out, order, value, sig.bitLength - 1);
    }
  }

  lemma {:induction false} RawSumOfBits(data: seq<byte>, order: seq<nat>, value: int, n: nat)
    requires n <= |order| && forall i :: 0 <= i < n ==> GetBit(data, order[i]) == Bit(value, i)
    ensures RawSum(data, order, n) == Low(value, n)
  {
    if n > 0 {
      RawSumOfBits(data, order, value, n - 1);
      LowStep(value, n - 1);
    }
  }

  /** The values a signal can hold. */
  predicate Representable(value: int, sig: Signal) {
    if sig.signed && sig.bitLength > 0 then 0 <= value + Pow2(sig.bitLength - 1) < Pow2(sig.bitLength)
    else 0 <= value < Pow2(sig.bitLength)
  }

  /** Keeping `bitLength` bits changes nothing exactly for the representable values. */
  lemma WrappedIsIdentityWhenRepresentable(value: int, sig: Signal)
    ensures Wrapped(value, sig) == value <==> Representable(value, sig)
  {
    var n := sig.bitLength;
    if sig.signed && n > 0 {
      if 0 <= value < Pow2(n - 1) {
        LowWide(value, n - 1);
        SetAtTop(value, n - 1);
      } else if value < 0 <= value + Pow2(n - 1) {
        var v := value + Pow2(n - 1);
        LowWide(v, n - 1);
        LowOfSum(value, 1, n - 1);
        LowStep(value, n - 1);
        LowOfSum(value, 1, n);
        LowWide(value + Pow2(n), n);
        SetAtTop(v, n - 1);
        assert Low(value, n) == value + Pow2(n);
      }
    } else if Representable(value, sig) {
      LowWide(value, n);
    }
  }

  /** Packing one signal cannot disturb another that shares no bit with it. */
  lemma PackLeavesOthers(buf: seq<byte>, sig: Signal, value: int, other: Signal)
    requires forall i, j :: 0 <= i < sig.bitLength && 0 <= j < other.bitLength ==>
               BitOrder(sig)[i] != BitOrder(other)[j]
    ensures Meaning(Packed(buf, sig, value), other) == Meaning(buf, other)
  {
    var out, order := Packed(buf, sig, value), BitOrder(other);
    forall j | 0 <= j < other.bitLength ensures GetBit(out, order[j]) == GetBit(buf, order[j]) {
      BitOfPacked(buf, BitOrder(sig), value, sig.bitLength, order[j]);
    }
    RawSumAgree(out, buf, order, other.bitLength);
    if other.bitLength > 0 {
      RawSumAgree(out, buf, order, other.bitLength - 1);
    }
  }

  lemma {:induction false} RawSumAgree(a: seq<byte>, b: seq<byte>, order: seq<nat>, n: nat)
    requires n <= |order| && forall i :: 0 <= i < n ==> GetBit(a, order[i]) == GetBit(b, order[i])
    ensures RawSum(a, order, n) == RawSum(b, order, n)
  {
    if n > 0 {
      RawSumAgree(a, b, order, n - 1);
    }
  }

  /* ---- runs inside one byte --------------------------------------------------------- */

  /** Consecutive places read from consecutive bits of one byte. */
  ghost predicate IsRun(order: seq<nat>, lo: nat, w: nat, byteIndex: nat, srcLo: nat) {
    && lo + w <= |order| && srcLo + w <= 8
    && forall k :: lo <= k < lo + w ==> order[k] == byteIndex * 8 + srcLo + (k - lo)
  }

  /** Reading a bit is reading its byte; bytes past the end are zero. */
  lemma GetBitOfByte(data: seq<byte>, byteIndex: nat, k: nat)
    requires k < 8
    ensures GetBit(data, byteIndex * 8 + k) == Bit(ByteAt(data, byteIndex), k)
  {
    ShrZero(k);
  }

  /** A run contributes its masked, shifted byte at the weight of its lowest place. */
  lemma {:induction false} RunSum(data: seq<byte>, order: seq<nat>, lo: nat, w: nat, byteIndex: nat, srcLo: nat)
    requires IsRun(order, lo, w, byteIndex, srcLo)
    ensures RawSum(data, order, lo + w) ==
            RawSum(data, order, lo) + ShiftUp(Low(Shr(ByteAt(data, byteIndex), srcLo), w), lo)
  {
    var x := Shr(ByteAt(data, byteIndex), srcLo);
    if w > 0 {
      var v := w - 1;
      RunSum(data, order, lo, v, byteIndex, srcLo);
      assert order[lo + v] == byteIndex * 8 + (srcLo + v);
      GetBitOfByte(data, byteIndex, srcLo + v);
      BitOfShift(ByteAt(data, byteIndex), srcLo, v);
      LowStep(x, v);
      ShiftUpSum(Low(x, v), Weight(x, v), lo);
      ShiftUpWeight(x, v, lo);
    } else {
      assert Low(x, 0) == 0;
      ShiftUpZero(lo);
    }
  }

  lemma {:induction false} ShiftUpZero(n: nat)
    ensures ShiftUp(0, n) == 0
  {
    if n > 0 {
      ShiftUpZero(n - 1);
    }
  }

  /** A payload byte; bytes past the end read as zero. */
  function ByteAt(data: seq<byte>, i: nat): byte {
    if i < |data| then data[i] else 0
  }

  /* ---- the trend scorer's byte-wise reader ------------------------------------------ */

  datatype Width = W8 | W16

  /** The geometry of a byte-aligned field: the start bit is the low bit of its first byte (Intel)
      or the high one (Motorola); single bytes have no sign. */
  function FieldSignal(byteIndex: nat, width: Width, order: ByteOrder, signed: bool): Signal {
    match width
    case W8 => Signal(byteIndex * 8, 8, Little, false)
    case W16 => Signal(if order == Little then byteIndex * 8 else byteIndex * 8 + 7, 16, order, signed)
  }

  /** The two bytes of a 16-bit field, low byte first, as runs of its bit order. */
  lemma FieldSum(data: seq<byte>, i: nat, order: ByteOrder, signed: bool)
    ensures var sig := FieldSignal(i, W16, order, signed);
            RawSum(data, BitOrder(sig), 16) ==
            if order == Big then ByteAt(data, i + 1) + 256 * ByteAt(data, i)
            else ByteAt(data, i) + 256 * ByteAt(data, i + 1)
  {
    var bits := BitOrder(FieldSignal(i, W16, order, signed));
    var first, second := if order == Big then i + 1 else i, if order == Big then i else i + 1;
    FieldRuns(i, order, signed);
    RunSum(data, bits, 0, 8, first, 0);
    RunSum(data, bits, 8, 8, second, 0);
    PowersUsed();
    LowWide(ByteAt(data, first), 8);
    LowWide(ByteAt(data, second), 8);
    ShiftUpIsProduct(ByteAt(data, second), 8);
    assert ShiftUp(ByteAt(data, first), 0) == ByteAt(data, first);
  }

  lemma FieldRuns(i: nat, order: ByteOrder, signed: bool)
    ensures var bits := BitOrder(FieldSignal(i, W16, order, signed));
            && IsRun(bits, 0, 8, if order == Big then i + 1 else i, 0)
            && IsRun(bits, 8, 8, if order == Big then i else i + 1, 0)
  {
    var sig := FieldSignal(i, W16, order, signed);
    forall k | 0 <= k < 16
      ensures BitAt(sig, k) == if order == Big then (if k < 8 then (i + 1) * 8 + k else i * 8 + (k - 8)) else i * 8 + k
    {
      if order == Big {
        MirrorAt(i, 7);
        if k < 8 {
          MirrorAt(i + 1, 7 - k);
        } else {
          MirrorAt(i, 15 - k);
        }
      }
    }
  }

  lemma PowersUsed()
    ensures Pow2(0) == 1 && Pow2(8) == 256 && Pow2(16) == 65536 && Pow2(15) == 32768
  {
    assert Pow2(4) == 16;
    assert Pow2(12) == 4096;
  }

  /** What the field means byte by byte: single bytes are unsigned, two bytes are joined in their order and
      lose 65536 when signed and not below 32768. */
  lemma FieldMeaning(data: seq<byte>, i: nat, order: ByteOrder, signed: bool)
    requires i + 1 < |data|
    ensures Meaning(data, FieldSignal(i, W8, order, signed)) == data[i]
    ensures var raw := if order == Big then 256 * data[i] as int + data[i + 1] else data[i] + 256 * data[i + 1] as int;
      Meaning(data, FieldSignal(i, W16, order, signed)) == if signed && raw >= 32768 then raw - 65536 else raw
  {
    PowersUsed();
    var one := FieldSignal(i, W8, order, signed);
    assert IsRun(BitOrder(one), 0, 8, i, 0);
    RunSum(data, BitOrder(one), 0, 8, i, 0);
    LowWide(data[i], 8);
    FieldSum(data, i, order, signed);
    if signed {
      SignedMeaning(data, FieldSignal(i, W16, order, signed));
    }
  }

  /** The byte-wise reader agrees with the bit walk, and declines exactly the short payloads. */
  method DecodeField(data: seq<byte>, i: nat, width: Width, order: ByteOrder, signed: bool)
    returns (v: Option<int>)
    ensures v.Some? <==> i + (if width == W8 then 0 else 1) < |data|
    ensures v.Some? ==> v.value == Meaning(data, FieldSignal(i, width, order, signed))
  {
    ghost var sig := FieldSignal(i, width, order, signed);
    PowersUsed();
    if width == W8 {
      if i >= |data| {
        return None;
      }
      assert IsRun(BitOrder(sig), 0, 8, i, 0);
      RunSum(data, BitOrder(sig), 0, 8, i, 0);
      LowWide(data[i], 8);
      return Some(data[i]);
    }
    if i + 1 >= |data| {
      return None;
    }
    var hi: int, lo: int := data[i], data[i + 1];
    var raw := if order == Big then hi * 256 + lo else lo * 256 + hi;
    FieldSum(data, i, order, signed);
    if signed {
      SignedMeaning(data, sig);
      if raw >= 0x8000 {
        return Some(raw - 0x10000);
      }
    }
    return Some(raw);
  }
}
