/** Checksum functions over a payload and the redundancy they leave in the bytes they cover. */
module Checksums {
  import opened Common
  import opened Bits
  import opened Frames
  import opened Windows
  import opened Tagger

  /* ---- exclusive or ---------------------------------------------------------------------------------- */

  function Xor(a: nat, b: nat): nat
    decreases a + b
  {
    if a == 0 && b == 0 then 0 else (a + b) % 2 + 2 * Xor(a / 2, b / 2)
  }

  lemma {:induction false} XorCommutes(a: nat, b: nat)
    ensures Xor(a, b) == Xor(b, a)
    decreases a + b
  {
    if a != 0 || b != 0 {
      XorCommutes(a / 2, b / 2);
    }
  }

  lemma {:induction false} XorZero(a: nat)
    ensures Xor(a, 0) == a && Xor(a, a) == 0
  {
    if a != 0 {
      XorZero(a / 2);
    }
  }

  lemma XorStep(a: nat, b: nat)
    ensures Xor(a, b) % 2 == (a + b) % 2 && Xor(a, b) / 2 == Xor(a / 2, b / 2)
  {
    BitAndRest((a + b) % 2, Xor(a / 2, b / 2));
  }

  /** Bit by bit, the exclusive or is set where the two numbers differ. */
  lemma {:induction false} BitOfXor(a: nat, b: nat, i: nat)
    ensures Bit(Xor(a, b), i) == 1 <==> Bit(a, i) != Bit(b, i)
    decreases i
  {
    XorStep(a, b);
    if i == 0 {
      ParityDiffers(a, b);
    } else {
      BitOfXor(a / 2, b / 2, i - 1);
      assert Bit(Xor(a, b), i) == Bit(Xor(a, b) / 2, i - 1) && Bit(a, i) == Bit(a / 2, i - 1);
      assert Bit(b, i) == Bit(b / 2, i - 1);
    }
  }

  lemma ParityDiffers(a: nat, b: nat)
    ensures (a + b) % 2 == 1 <==> a % 2 != b % 2
  {
  }

  lemma BitAndRest(bit: nat, x: nat)
    requires bit < 2
    ensures (bit + 2 * x) % 2 == bit && (bit + 2 * x) / 2 == x
  {
  }

  lemma SameHalves(x: nat, y: nat)
    requires x % 2 == y % 2 && x / 2 == y / 2
    ensures x == y
  {
  }

  lemma {:induction false} XorAssociates(a: nat, b: nat, c: nat)
    ensures Xor(Xor(a, b), c) == Xor(a, Xor(b, c))
    decreases a + b + c
  {
    if a != 0 || b != 0 || c != 0 {
      XorAssociates(a / 2, b / 2, c / 2);
      XorStep(a, b);
      XorStep(b, c);
      AssociatesNext(a, b, c, Xor(a, b), Xor(b, c), Xor(a / 2, b / 2), Xor(b / 2, c / 2));
    }
  }

  /** The step of the proof, with the inner results known by their last bit and their half. */
  lemma AssociatesNext(a: nat, b: nat, c: nat, x: nat, y: nat, u: nat, v: nat)
    requires x % 2 == (a + b) % 2 && x / 2 == u && y % 2 == (b + c) % 2 && y / 2 == v
    requires Xor(u, c / 2) == Xor(a / 2, v)
    ensures Xor(x, c) == Xor(a, y)
  {
    XorStep(x, c);
    XorStep(a, y);
    Parity(a, b, c);
    SameParity(x, (a + b) % 2, c);
    SameParity(y, (b + c) % 2, a);
    SameHalves(Xor(x, c), Xor(a, y));
  }

  lemma SameParity(x: nat, y: nat, c: nat)
    requires x % 2 == y
    ensures (x + c) % 2 == (y + c) % 2
  {
  }

  lemma Parity(a: nat, b: nat, c: nat)
    ensures ((a + b) % 2 + c) % 2 == (a + (b + c) % 2) % 2
  {
  }

  /** Numbers below a power of two stay below it. */
  lemma {:induction false} XorBelow(a: nat, b: nat, w: nat)
    requires a < Pow2(w) && b < Pow2(w)
    ensures Xor(a, b) < Pow2(w)
    decreases w
  {
    if w > 0 {
      XorBelow(a / 2, b / 2, w - 1);
    }
  }

  /** The two factors of an exclusive or cancel. */
  lemma XorCancels(a: nat, b: nat)
    ensures Xor(Xor(a, b), b) == a
    ensures Xor(a, b) == 0 <==> a == b
  {
    XorAssociates(a, b, b);
    XorZero(b);
    XorZero(a);
    XorCommutes(0, b);
  }

  lemma XorSwaps(a: nat, b: nat, c: nat)
    ensures Xor(Xor(a, b), c) == Xor(Xor(a, c), b)
  {
    XorAssociates(a, b, c);
    XorCommutes(b, c);
    XorAssociates(a, c, b);
  }

  /* ---- schemes ------------------------------------------------------------------------------------------ */

  /** All of the first `n` bytes. */
  function XorUpto(p: seq<byte>, n: nat): nat
    requires n <= |p|
  {
    if n == 0 then 0 else Xor(XorUpto(p, n - 1), p[n - 1])
  }

  /** The first `n` bytes but one. */
  function XorBut(p: seq<byte>, target: nat, n: nat): nat
    requires n <= |p|
  {
    if n == 0 then 0
    else if n - 1 == target then XorBut(p, target, n - 1)
    else Xor(XorBut(p, target, n - 1), p[n - 1])
  }

  function SumBut(p: seq<byte>, target: nat, n: nat): nat
    requires n <= |p|
  {
    if n == 0 then 0 else SumBut(p, target, n - 1) + (if n - 1 == target then 0 else p[n - 1])
  }

  const POLYNOMIAL: byte := 0x1D

  function CrcBit(c: nat): nat {
    if c / 128 % 2 == 1 then Xor(2 * c, POLYNOMIAL) % 256 else 2 * c % 256
  }

  function CrcBits(c: nat, n: nat): nat {
    if n == 0 then c else CrcBit(CrcBits(c, n - 1))
  }

  /** CRC-8 with polynomial 0x1D over the first `n` bytes. */
  function Crc(p: seq<byte>, n: nat): nat
    requires n <= |p|
  {
    if n == 0 then 0 else CrcBits(Xor(Crc(p, n - 1), p[n - 1]), 8)
  }

  function ChecksumOf(scheme: Scheme, p: seq<byte>, target: nat): nat
    requires target < |p|
  {
    match scheme
    case XorAll => XorBut(p, target, |p|) % 256
    case XorPrefix => XorUpto(p, target) % 256
    case SumAll => SumBut(p, target, |p|) % 256
    case Crc8 => Crc(p, target) % 256
  }

  method ComputeChecksum(scheme: Scheme, p: seq<byte>, target: nat) returns (v: nat)
    requires target < |p|
    ensures v == ChecksumOf(scheme, p, target)
  {
    var x: nat := 0;
    match scheme {
      case XorAll =>
        for j := 0 to |p|
          invariant x == XorBut(p, target, j)
        {
          if j != target {
            x := Xor(x, p[j]);
          }
        }
      case XorPrefix =>
        for j := 0 to target
          invariant x == XorUpto(p, j)
        {
          x := Xor(x, p[j]);
        }
      case SumAll =>
        for j := 0 to |p|
          invariant x == SumBut(p, target, j)
        {
          if j != target {
            x := x + p[j];
          }
        }
      case Crc8 =>
        for j := 0 to target
          invariant x == Crc(p, j)
        {
          x := CrcByte(x, p[j]);
        }
    }
    v := x % 256;
  }

  method CrcByte(crc: nat, b: byte) returns (c: nat)
    ensures c == CrcBits(Xor(crc, b), 8)
  {
    c := Xor(crc, b);
    ghost var start := c;
    for bit := 0 to 8
      invariant c == CrcBits(start, bit)
    {
      c := if c / 128 % 2 == 1 then Xor(2 * c, POLYNOMIAL) % 256 else 2 * c % 256;
    }
  }

  method ComputeChecksumPacked(scheme: Scheme, data: seq<byte>, dlc: seq<nat>, idx: nat, target: nat) returns (v: nat)
    requires Columns(data, dlc) && idx < |dlc| && target < dlc[idx]
    ensures v == ChecksumOf(scheme, PayloadAt(data, dlc, idx), target)
  {
    ghost var p := PayloadAt(data, dlc, idx);
    var len := dlc[idx];
    var x: nat := 0;
    match scheme {
      case XorAll =>
        for j := 0 to len
          invariant x == XorBut(p, target, j)
        {
          if j != target {
            x := Xor(x, ByteAt(data, idx, j));
          }
        }
      case XorPrefix =>
        for j := 0 to target
          invariant x == XorUpto(p, j)
        {
          x := Xor(x, ByteAt(data, idx, j));
        }
      case SumAll =>
        for j := 0 to len
          invariant x == SumBut(p, target, j)
        {
          if j != target {
            x := x + ByteAt(data, idx, j);
          }
        }
      case Crc8 =>
        for j := 0 to target
          invariant x == Crc(p, j)
        {
          x := CrcByte(x, ByteAt(data, idx, j));
        }
    }
    v := x % 256;
  }

  /* ---- redundancy ------------------------------------------------------------------------------------------ */

  lemma {:induction false} XorButIs(p: seq<byte>, t: nat, n: nat)
    requires n <= |p| && t < |p|
    ensures XorBut(p, t, n) == if t < n then Xor(XorUpto(p, n), p[t]) else XorUpto(p, n)
  {
    if n > 0 {
      XorButIs(p, t, n - 1);
      if n - 1 == t {
        XorCancels(XorUpto(p, n - 1), p[t]);
      } else if t < n - 1 {
        XorSwaps(XorUpto(p, n - 1), p[t], p[n - 1]);
      }
    }
  }

  lemma {:induction false} XorUptoBelow(p: seq<byte>, n: nat)
    requires n <= |p|
    ensures XorUpto(p, n) < 256
  {
    if n > 0 {
      XorUptoBelow(p, n - 1);
      EightBits();
      XorBelow(XorUpto(p, n - 1), p[n - 1], 8);
    }
  }

  lemma EightBits()
    ensures Pow2(8) == 256
  {
    assert Pow2(1) == 2 && Pow2(2) == 4 && Pow2(3) == 8 && Pow2(4) == 16;
  }

  /** A byte is the exclusive or of all others just when the exclusive or of the whole payload is 0. */
  lemma XorMatchIff(p: seq<byte>, t: nat)
    requires t < |p|
    ensures p[t] == ChecksumOf(XorAll, p, t) <==> XorUpto(p, |p|) == 0
  {
    XorButIs(p, t, |p|);
    XorUptoBelow(p, |p|);
    XorKeeps(XorUpto(p, |p|), p[t]);
  }

  /** Only 0 leaves the other factor as it is. */
  lemma XorKeeps(u: nat, b: byte)
    requires u < 256
    ensures Xor(u, b) % 256 == b <==> u == 0
  {
    EightBits();
    XorBelow(u, b, 8);
    CutAt8(Xor(u, b));
    XorCancels(u, b);
    XorZero(b);
    XorCommutes(0, b);
  }

  /** So if one byte is, every byte is. */
  lemma XorRedundancy(p: seq<byte>, t: nat, u: nat)
    requires t < |p| && u < |p|
    ensures p[t] == ChecksumOf(XorAll, p, t) <==> p[u] == ChecksumOf(XorAll, p, u)
  {
    XorMatchIff(p, t);
    XorMatchIff(p, u);
  }

  /** For the last byte the prefix scheme computes the same value. */
  lemma TrailingPrefix(p: seq<byte>)
    requires p != []
    ensures ChecksumOf(XorPrefix, p, |p| - 1) == ChecksumOf(XorAll, p, |p| - 1)
  {
    XorButIs(p, |p| - 1, |p| - 1);
    assert XorBut(p, |p| - 1, |p|) == XorBut(p, |p| - 1, |p| - 1);
  }

  lemma {:induction false} SumButIs(p: seq<byte>, t: nat, n: nat)
    requires n <= |p| && t < |p|
    ensures SumBut(p, t, n) == SumBut(p, |p|, n) - (if t < n then p[t] else 0)
  {
    if n > 0 {
      SumButIs(p, t, n - 1);
    }
  }

  /** For the sum the redundancy is not symmetric: when one byte is the sum of the others, another is
      exactly when the two agree modulo 128. */
  lemma SumRedundancy(p: seq<byte>, t: nat, u: nat)
    requires t < |p| && u < |p| && p[t] == ChecksumOf(SumAll, p, t)
    ensures p[u] == ChecksumOf(SumAll, p, u) <==> (p[u] as int - p[t] as int) % 128 == 0
  {
    SumButIs(p, t, |p|);
    SumButIs(p, u, |p|);
    var total := SumBut(p, |p|, |p|);
    SumMatch(total, p[t]);
    SumMatch(total, p[u]);
    Halves(total, p[t], p[u]);
  }

  lemma SumMatch(total: nat, b: byte)
    requires total >= b
    ensures b == (total - b) % 256 <==> (total - 2 * b) % 256 == 0
  {
  }

  lemma Halves(total: int, a: int, b: int)
    requires (total - 2 * a) % 256 == 0
    ensures (total - 2 * b) % 256 == 0 <==> (b - a) % 128 == 0
  {
    var k := (total - 2 * a) / 256;
    assert total == 256 * k + 2 * a;
  }

  lemma SumRedundancyFails()
    ensures var p: seq<byte> := [3, 1, 2]; p[0] == ChecksumOf(SumAll, p, 0) && p[1] != ChecksumOf(SumAll, p, 1)
  {
    var p: seq<byte> := [3, 1, 2];
    assert SumBut(p, 0, 1) == 0 && SumBut(p, 0, 2) == 1 && SumBut(p, 0, 3) == 3;
    assert SumBut(p, 1, 1) == 3 && SumBut(p, 1, 2) == 3 && SumBut(p, 1, 3) == 5;
  }

  /* ---- the CRC ---------------------------------------------------------------------------------------------- */

  lemma AddEven(x: nat, h: nat)
    ensures (x + 2 * h) % 2 == x % 2 && (x + 2 * h) / 2 == x / 2 + h
  {
  }

  /** An even number added to one or both of the factors. */
  lemma XorAddEven(x: nat, y: nat, h: nat, g: nat)
    ensures Xor(x + 2 * h, y + 2 * g) % 2 == Xor(x, y) % 2
    ensures Xor(x + 2 * h, y + 2 * g) / 2 == Xor(x / 2 + h, y / 2 + g)
  {
    XorStep(x, y);
    XorStep(x + 2 * h, y + 2 * g);
    AddEven(x, h);
    AddEven(y, g);
    AddEven(x + y, h + g);
  }

  lemma XorOne()
    ensures Xor(1, 0) == 1 && Xor(1, 1) == 0 && Xor(0, 0) == 0
  {
  }

  /** A bit above both numbers goes through an exclusive or. */
  lemma {:induction false} XorTop(x: nat, y: nat, w: nat)
    requires x < Pow2(w) && y < Pow2(w)
    ensures Xor(x + Pow2(w), y) == Xor(x, y) + Pow2(w) && Xor(x + Pow2(w), y + Pow2(w)) == Xor(x, y)
    decreases w
  {
    if w == 0 {
      XorOne();
    } else {
      XorTop(x / 2, y / 2, w - 1);
      XorTopNext(x, y, Pow2(w - 1));
    }
  }

  lemma XorTopNext(x: nat, y: nat, h: nat)
    requires Xor(x / 2 + h, y / 2) == Xor(x / 2, y / 2) + h && Xor(x / 2 + h, y / 2 + h) == Xor(x / 2, y / 2)
    ensures Xor(x + 2 * h, y) == Xor(x, y) + 2 * h && Xor(x + 2 * h, y + 2 * h) == Xor(x, y)
  {
    XorStep(x, y);
    OneTop(x, y, h);
    XorAddEven(x, y, h, h);
    SameHalves(Xor(x + 2 * h, y + 2 * h), Xor(x, y));
  }

  lemma OneTop(x: nat, y: nat, h: nat)
    requires Xor(x / 2 + h, y / 2) == Xor(x / 2, y / 2) + h
    ensures Xor(x + 2 * h, y) == Xor(x, y) + 2 * h
  {
    XorStep(x, y);
    XorAddEven(x, y, h, 0);
    AddEven(Xor(x, y), h);
    SameHalves(Xor(x + 2 * h, y), Xor(x, y) + 2 * h);
  }

  lemma XorDoubles(a: nat, b: nat)
    ensures Xor(2 * a, 2 * b) == 2 * Xor(a, b)
  {
    XorStep(2 * a, 2 * b);
    AddEven(0, a);
    AddEven(0, b);
    AddEven(0, a + b);
    AddEven(0, Xor(a, b));
    SameHalves(Xor(2 * a, 2 * b), 2 * Xor(a, b));
  }

  lemma XorMiddle(a: nat, b: nat, c: nat, d: nat)
    ensures Xor(Xor(a, b), Xor(c, d)) == Xor(Xor(a, c), Xor(b, d))
  {
    XorAssociates(Xor(a, b), c, d);
    XorSwaps(a, b, c);
    XorAssociates(Xor(a, c), b, d);
  }

  lemma SevenBits()
    ensures Pow2(7) == 128 && Pow2(8) == 256
  {
    EightBits();
  }

  /** What the top bit of a byte adds when it is shifted out. */
  function Fed(top: bool, poly: byte): byte {
    if top then poly else 0
  }

  /** A byte by its seven low bits and its top bit. */
  function ByteOf(low: nat, top: bool): nat {
    low + (if top then 128 else 0)
  }

  lemma SplitByte(c: byte) returns (low: nat, top: bool)
    ensures low < 128 && c == ByteOf(low, top)
  {
    top := c >= 128;
    low := if top then c - 128 else c;
  }

  lemma CutAt8(r: nat)
    requires r < 256
    ensures (r + 256) % 256 == r && r % 256 == r
  {
  }

  lemma ShiftedOut(x: nat, poly: byte)
    requires x < 256
    ensures Xor(x, poly) < 256 && Xor(x + 256, poly) % 256 == Xor(x, poly)
  {
    EightBits();
    XorBelow(x, poly, 8);
    XorTop(x, poly, 8);
    CutAt8(Xor(x, poly));
  }

  lemma TopBit(low: nat)
    requires low < 128
    ensures (low + 128) / 128 % 2 == 1 && low / 128 % 2 == 0 && 2 * (low + 128) == 2 * low + 256
  {
  }

  /** Shift out the top bit; when it was set, add the polynomial. */
  lemma CrcBitIs(low: nat, top: bool)
    requires low < 128
    ensures CrcBit(ByteOf(low, top)) == Xor(2 * low, Fed(top, POLYNOMIAL)) < 256
  {
    TopBit(low);
    if top {
      ShiftedOut(2 * low, POLYNOMIAL);
    } else {
      XorZero(2 * low);
      CutAt8(2 * low);
    }
  }

  /** The step is linear in the two parts. */
  lemma CrcBitParts(l: nat, m: nat, s: bool, t: bool)
    requires l < 128 && m < 128
    ensures Xor(l, m) < 128
    ensures CrcBit(ByteOf(Xor(l, m), s != t)) == Xor(CrcBit(ByteOf(l, s)), CrcBit(ByteOf(m, t)))
  {
    SevenBits();
    XorBelow(l, m, 7);
    CrcBitIs(l, s);
    CrcBitIs(m, t);
    CrcBitIs(Xor(l, m), s != t);
    PolynomialsAdd(l, m, s, t, POLYNOMIAL);
  }

  lemma CrcBitLinear(a: byte, b: byte)
    ensures Xor(a, b) < 256 && CrcBit(a) < 256 && CrcBit(b) < 256
    ensures CrcBit(Xor(a, b)) == Xor(CrcBit(a), CrcBit(b))
  {
    var l, s := SplitByte(a);
    var m, t := SplitByte(b);
    TopsAdd(l, m, s, t);
    CrcBitParts(l, m, s, t);
    CrcBitIs(l, s);
    CrcBitIs(m, t);
  }

  lemma PolynomialsAdd(l: nat, m: nat, s: bool, t: bool, poly: byte)
    ensures Xor(Xor(2 * l, Fed(s, poly)), Xor(2 * m, Fed(t, poly))) == Xor(2 * Xor(l, m), Fed(s != t, poly))
  {
    XorDoubles(l, m);
    XorMiddle(2 * l, Fed(s, poly), 2 * m, Fed(t, poly));
    XorZero(poly);
    XorZero(0);
    XorCommutes(0, poly);
  }

  lemma TopsAdd(l: nat, m: nat, s: bool, t: bool)
    requires l < 128 && m < 128
    ensures Xor(ByteOf(l, s), ByteOf(m, t)) == ByteOf(Xor(l, m), s != t) && Xor(l, m) < 128
  {
    SevenBits();
    XorBelow(l, m, 7);
    TopsAddAt(l, m, s, t, 7);
  }

  lemma TopsAddAt(l: nat, m: nat, s: bool, t: bool, w: nat)
    requires l < Pow2(w) && m < Pow2(w)
    ensures Xor(l + (if s then Pow2(w) else 0), m + (if t then Pow2(w) else 0))
            == Xor(l, m) + (if s != t then Pow2(w) else 0)
  {
    XorTop(l, m, w);
    XorTop(m, l, w);
    XorCommutes(l, m + Pow2(w));
    XorCommutes(l, m);
  }

  lemma {:induction false} CrcBitsLinear(a: byte, b: byte, n: nat)
    ensures Xor(a, b) < 256 && CrcBits(a, n) < 256 && CrcBits(b, n) < 256
    ensures CrcBits(Xor(a, b), n) == Xor(CrcBits(a, n), CrcBits(b, n))
  {
    CrcBitLinear(a, b);
    if n > 0 {
      CrcBitsLinear(a, b, n - 1);
      CrcBitLinear(CrcBits(a, n - 1), CrcBits(b, n - 1));
    }
  }

  /** Only 0 goes to 0: the polynomial is odd, so a bit shifted out leaves a trace. */
  lemma CrcBitZero(c: byte)
    ensures CrcBit(c) < 256 && (CrcBit(c) == 0 <==> c == 0)
  {
    var low, top := SplitByte(c);
    CrcBitIs(low, top);
    if top {
      OddIsNoZero(low, POLYNOMIAL);
    } else {
      XorZero(2 * low);
    }
  }

  lemma OddIsNoZero(low: nat, poly: byte)
    requires poly % 2 == 1
    ensures Xor(2 * low, poly) != 0
  {
    XorStep(2 * low, poly);
    AddEven(poly, low);
  }

  lemma {:induction false} CrcBitsZero(a: byte, n: nat)
    ensures CrcBits(a, n) < 256 && (CrcBits(a, n) == 0 <==> a == 0)
  {
    if n > 0 {
      CrcBitsZero(a, n - 1);
      CrcBitZero(CrcBits(a, n - 1));
    }
  }

  function XorByte(a: byte, b: byte): byte {
    EightBits();
    XorBelow(a, b, 8);
    Xor(a, b)
  }

  /** The difference of two payloads, byte by byte. */
  function XorBytes(p: seq<byte>, q: seq<byte>): (d: seq<byte>)
    requires |p| == |q|
    ensures |d| == |p| && forall i :: 0 <= i < |p| ==> d[i] == Xor(p[i], q[i])
  {
    seq(|p|, i requires 0 <= i < |p| => XorByte(p[i], q[i]))
  }

  lemma {:induction false} CrcBelow(p: seq<byte>, n: nat)
    requires n <= |p|
    ensures Crc(p, n) < 256
  {
    if n > 0 {
      CrcBelow(p, n - 1);
      EightBits();
      XorBelow(Crc(p, n - 1), p[n - 1], 8);
      CrcBitsZero(Xor(Crc(p, n - 1), p[n - 1]), 8);
    }
  }

  /** The CRC is linear; so two payloads have the same one just when that of their difference is 0. */
  lemma {:induction false} CrcLinear(p: seq<byte>, q: seq<byte>, n: nat)
    requires n <= |p| == |q|
    ensures Crc(XorBytes(p, q), n) == Xor(Crc(p, n), Crc(q, n))
    ensures Crc(p, n) == Crc(q, n) <==> Crc(XorBytes(p, q), n) == 0
  {
    if n > 0 {
      CrcLinear(p, q, n - 1);
      CrcBelow(p, n - 1);
      CrcBelow(q, n - 1);
      EightBits();
      var a, b, c, d := Crc(p, n - 1), Crc(q, n - 1), p[n - 1], q[n - 1];
      XorBelow(a, c, 8);
      XorBelow(b, d, 8);
      XorMiddle(a, b, c, d);
      CrcBitsLinear(Xor(a, c), Xor(b, d), 8);
    }
    XorCancels(Crc(p, n), Crc(q, n));
  }

  lemma {:induction false} CrcOfDifference(d: seq<byte>, k: nat, n: nat)
    requires k < n <= |d| && d[k] != 0 && forall i :: 0 <= i < n && i != k ==> d[i] == 0
    ensures Crc(d, n) != 0
  {
    CrcBelow(d, n - 1);
    XorZero(Crc(d, n - 1));
    XorZero(d[k]);
    XorCommutes(0, d[k]);
    if n - 1 == k {
      CrcOfZeros(d, k);
      CrcBitsZero(d[k], 8);
    } else {
      CrcOfDifference(d, k, n - 1);
      CrcBitsZero(Crc(d, n - 1), 8);
    }
  }

  lemma {:induction false} CrcOfZeros(d: seq<byte>, n: nat)
    requires n <= |d| && forall i :: 0 <= i < n ==> d[i] == 0
    ensures Crc(d, n) == 0
  {
    if n > 0 {
      CrcOfZeros(d, n - 1);
      XorZero(0);
      CrcBitsZero(0, 8);
    }
  }

  lemma CrcOfByte(b: byte)
    ensures Crc([b], 1) == CrcBits(b, 8)
  {
    XorZero(b);
    XorCommutes(0, b);
  }

  lemma {:induction false} OneShifted(n: nat)
    requires n <= 7
    ensures CrcBits(1, n) == Pow2(n)
  {
    if n > 0 {
      OneShifted(n - 1);
      SevenBits();
      Pow2Monotone(n - 1, 6);
      assert Pow2(7) == 2 * Pow2(6);
      CrcBitIs(Pow2(n - 1), false);
      XorZero(2 * Pow2(n - 1));
    }
  }

  lemma CrcOfOne()
    ensures Crc([0x01], 1) == 0x1D
  {
    CrcOfByte(0x01);
    OneShifted(7);
    SevenBits();
    CrcBitIs(0, true);
    XorZero(POLYNOMIAL);
    XorCommutes(0, POLYNOMIAL);
    assert CrcBits(0x01, 8) == CrcBit(CrcBits(0x01, 7));
  }

  lemma {:induction false} BitsOfTwice(b: nat, n: nat)
    requires b < 128
    ensures CrcBits(2 * b, n) == CrcBits(b, n + 1)
  {
    if n == 0 {
      CrcBitIs(b, false);
      XorZero(2 * b);
      assert CrcBits(b, 1) == CrcBit(CrcBits(b, 0));
    } else {
      BitsOfTwice(b, n - 1);
    }
  }

  /**
   * What the CRC is, told by its values: that of the byte 1 is 0x1D; shifting a byte up by one place
   * shifts its CRC up, and adds 0x1D for a bit that leaves the eight; and that of a longer payload is
   * the CRC of its last byte after the CRC of the others is added to it.
   */
  lemma CrcValues(b: byte, p: seq<byte>, n: nat)
    requires b < 128 && n < |p|
    ensures Crc([1], 1) == 0x1D && Crc(p, 0) == 0
    ensures var c := Crc([b], 1); Crc([2 * b], 1) == if c < 128 then 2 * c else Xor(2 * (c - 128), 0x1D)
    ensures Xor(Crc(p, n), p[n]) < 256 && Crc(p, n + 1) == Crc([Xor(Crc(p, n), p[n])], 1)
  {
    CrcOfOne();
    CrcOfByte(b);
    CrcOfByte(2 * b);
    BitsOfTwice(b, 8);
    StepIs(Crc([b], 1), b);
    CrcBelow(p, n);
    EightBits();
    XorBelow(Crc(p, n), p[n], 8);
    CrcOfByte(Xor(Crc(p, n), p[n]));
  }

  lemma StepIs(c: nat, b: byte)
    requires c == Crc([b], 1)
    ensures CrcBit(c) == if c < 128 then 2 * c else Xor(2 * (c - 128), 0x1D)
  {
    CrcBelow([b], 1);
    var low, top := SplitByte(c);
    CrcBitIs(low, top);
    XorZero(2 * low);
  }

  /** The CRC notices every change of a single byte it covers. */
  lemma CrcNoticesByte(p: seq<byte>, k: nat, b: byte, n: nat)
    requires k < n <= |p| && b != p[k]
    ensures Crc(p[k := b], n) != Crc(p, n)
  {
    var q := p[k := b];
    CrcLinear(p, q, n);
    forall i | 0 <= i < n ensures XorBytes(p, q)[i] == 0 <==> i != k {
      XorCancels(p[i], q[i]);
    }
    CrcOfDifference(XorBytes(p, q), k, n);
  }

  /* ---- what a change of one byte does ---------------------------------------------------------------------- */

  /** The scheme for byte `target` reads byte `k`. */
  predicate CoversByte(scheme: Scheme, target: nat, k: nat) {
    if scheme == XorAll || scheme == SumAll then k != target else k < target
  }

  lemma XorInjective(u: nat, v: nat, c: nat)
    requires u != v
    ensures Xor(u, c) != Xor(v, c) && Xor(c, u) != Xor(c, v)
  {
    XorCancels(u, c);
    XorCancels(v, c);
    XorCommutes(u, c);
    XorCommutes(v, c);
  }

  lemma {:induction false} XorNoticesByte(p: seq<byte>, k: nat, b: byte, n: nat)
    requires k < |p| && n <= |p| && b != p[k]
    ensures XorUpto(p[k := b], n) != XorUpto(p, n) <==> k < n
  {
    if n > 0 {
      var q := p[k := b];
      XorNoticesByte(p, k, b, n - 1);
      if n - 1 == k {
        XorInjective(b, p[k], XorUpto(p, n - 1));
      } else if k < n - 1 {
        XorInjective(XorUpto(q, n - 1), XorUpto(p, n - 1), p[n - 1]);
      }
    }
  }

  lemma {:induction false} SumMoves(p: seq<byte>, t: nat, k: nat, b: byte, n: nat)
    requires k < |p| && n <= |p| && k != t
    ensures SumBut(p[k := b], t, n) == SumBut(p, t, n) + (if k < n then b - p[k] else 0)
  {
    if n > 0 {
      SumMoves(p, t, k, b, n - 1);
    }
  }

  /** The target byte itself does not enter the schemes that leave it out. */
  lemma {:induction false} ButIgnores(p: seq<byte>, t: nat, b: byte, n: nat)
    requires t < |p| && n <= |p|
    ensures SumBut(p[t := b], t, n) == SumBut(p, t, n) && XorBut(p[t := b], t, n) == XorBut(p, t, n)
  {
    if n > 0 {
      ButIgnores(p, t, b, n - 1);
    }
  }

  lemma {:induction false} CrcIgnores(p: seq<byte>, k: nat, b: byte, n: nat)
    requires n <= k < |p|
    ensures Crc(p[k := b], n) == Crc(p, n)
  {
    if n > 0 {
      CrcIgnores(p, k, b, n - 1);
    }
  }

  lemma Moved256(x: nat, y: nat, d: int)
    requires y == x + d && -256 < d < 256 && d != 0
    ensures y % 256 != x % 256
  {
  }

  lemma XorAllNotices(p: seq<byte>, t: nat, k: nat, b: byte)
    requires t < |p| && k < |p| && k != t && b != p[k]
    ensures ChecksumOf(XorAll, p[k := b], t) != ChecksumOf(XorAll, p, t)
  {
    var q := p[k := b];
    XorNoticesByte(p, k, b, |p|);
    XorButIs(p, t, |p|);
    XorButIs(q, t, |p|);
    XorInjective(XorUpto(q, |p|), XorUpto(p, |p|), p[t]);
    XorUptoBelow(p, |p|);
    XorUptoBelow(q, |p|);
    EightBits();
    XorBelow(XorUpto(p, |p|), p[t], 8);
    XorBelow(XorUpto(q, |p|), p[t], 8);
    CutAt8(Xor(XorUpto(p, |p|), p[t]));
    CutAt8(Xor(XorUpto(q, |p|), p[t]));
  }

  /** A checksum changes with a single byte of the payload exactly when its scheme reads that byte. */
  lemma ChecksumFollowsByte(scheme: Scheme, p: seq<byte>, target: nat, k: nat, b: byte)
    requires target < |p| && k < |p| && b != p[k]
    ensures ChecksumOf(scheme, p[k := b], target) != ChecksumOf(scheme, p, target) <==> CoversByte(scheme, target, k)
  {
    match scheme
    case XorAll => XorAllFollows(p, target, k, b);
    case XorPrefix => XorPrefixFollows(p, target, k, b);
    case SumAll => SumFollows(p, target, k, b);
    case Crc8 => CrcFollows(p, target, k, b);
  }

  lemma XorAllFollows(p: seq<byte>, target: nat, k: nat, b: byte)
    requires target < |p| && k < |p| && b != p[k]
    ensures ChecksumOf(XorAll, p[k := b], target) != ChecksumOf(XorAll, p, target) <==> k != target
  {
    if k == target {
      ButIgnores(p, target, b, |p|);
    } else {
      XorAllNotices(p, target, k, b);
    }
  }

  lemma XorPrefixFollows(p: seq<byte>, target: nat, k: nat, b: byte)
    requires target < |p| && k < |p| && b != p[k]
    ensures ChecksumOf(XorPrefix, p[k := b], target) != ChecksumOf(XorPrefix, p, target) <==> k < target
  {
    XorNoticesByte(p, k, b, target);
    XorUptoBelow(p, target);
    XorUptoBelow(p[k := b], target);
    CutAt8(XorUpto(p, target));
    CutAt8(XorUpto(p[k := b], target));
  }

  lemma SumFollows(p: seq<byte>, target: nat, k: nat, b: byte)
    requires target < |p| && k < |p| && b != p[k]
    ensures ChecksumOf(SumAll, p[k := b], target) != ChecksumOf(SumAll, p, target) <==> k != target
  {
    if k == target {
      ButIgnores(p, target, b, |p|);
    } else {
      SumMoves(p, target, k, b, |p|);
      Moved256(SumBut(p, target, |p|), SumBut(p[k := b], target, |p|), b - p[k]);
    }
  }

  lemma CrcFollows(p: seq<byte>, target: nat, k: nat, b: byte)
    requires target < |p| && k < |p| && b != p[k]
    ensures ChecksumOf(Crc8, p[k := b], target) != ChecksumOf(Crc8, p, target) <==> k < target
  {
    CrcBelow(p, target);
    CrcBelow(p[k := b], target);
    CutAt8(Crc(p, target));
    CutAt8(Crc(p[k := b], target));
    if k < target {
      CrcNoticesByte(p, k, b, target);
    } else {
      CrcIgnores(p, k, b, target);
    }
  }
}

/** Choosing the checksum bytes of a message, and all its tags. */
module ChecksumTags {
  import opened Common
  import opened Seqs
  import opened Frames
  import opened Windows
  import CoOccurrence
  import opened Tagger
  import opened Checksums

  datatype Hit = Hit(scheme: Scheme, confidence: real)

  predicate Asymmetric(s: Scheme) {
    s == XorPrefix || s == Crc8
  }

  const SCHEMES: seq<Scheme> := [XorPrefix, Crc8, XorAll, SumAll]

  /** The payloads whose byte `i` is its checksum. */
  function Matches(ps: seq<seq<byte>>, i: nat, s: Scheme): (n: nat)
    requires Carry(ps, i)
    ensures n <= |ps|
  {
    if ps == [] then 0
    else
      var n := |ps| - 1;
      Matches(ps[..n], i, s) + (if ps[n][i] == ChecksumOf(s, ps[n], i) then 1 else 0)
  }

  predicate Carry(ps: seq<seq<byte>>, i: nat) {
    forall k :: 0 <= k < |ps| ==> i < |ps[k]|
  }

  function Score(ps: seq<seq<byte>>, i: nat, s: Scheme): real
    requires Carry(ps, i) && ps != []
  {
    Matches(ps, i, s) as real / |ps| as real
  }

  /** A qualifying scheme replaces the best so far when it is better, or as good and more specific. */
  function Better(best: Option<Hit>, s: Scheme, confidence: real, threshold: real): Option<Hit> {
    if confidence < threshold then best
    else if best.None? || confidence > best.value.confidence
         || (confidence == best.value.confidence && Asymmetric(s) && !Asymmetric(best.value.scheme))
    then Some(Hit(s, confidence))
    else best
  }

  function Chosen(ps: seq<seq<byte>>, i: nat, schemes: seq<Scheme>, threshold: real): Option<Hit>
    requires Carry(ps, i) && ps != []
  {
    if schemes == [] then None
    else
      var s := schemes[|schemes| - 1];
      Better(Chosen(ps, i, schemes[..|schemes| - 1], threshold), s, Score(ps, i, s), threshold)
  }

  predicate AllShort(ps: seq<seq<byte>>) {
    forall k :: 0 <= k < |ps| ==> |ps[k]| <= 1
  }

  predicate AllSame(ps: seq<seq<byte>>, i: nat)
    requires Carry(ps, i)
  {
    forall k :: 0 <= k < |ps| ==> ps[k][i] == ps[0][i]
  }

  /** Enough payloads carry the byte, some carries another, and it varies. */
  predicate Testable(ps: seq<seq<byte>>, i: nat, cfg: Config)
    requires Carry(ps, i)
  {
    |ps| >= cfg.minFrames && !AllShort(ps) && !AllSame(ps, i)
  }

  function ByteHit(ps: seq<seq<byte>>, i: nat, cfg: Config): Option<Hit> {
    var fs := Carriers(ps, i);
    if !Testable(fs, i, cfg) then None else Chosen(fs, i, SCHEMES, cfg.checksumThreshold)
  }

  /** The tags of all hits on the first `n` bytes. */
  function Hits(ps: seq<seq<byte>>, n: nat, cfg: Config): (tags: seq<Tag>)
    ensures forall k :: 0 <= k < |tags| ==> tags[k].Checksum? && tags[k].byteIndex < n
    ensures forall k, l :: 0 <= k < l < |tags| ==> tags[k].byteIndex < tags[l].byteIndex
  {
    if n == 0 then []
    else
      var hit := ByteHit(ps, n - 1, cfg);
      Hits(ps, n - 1, cfg) + (if hit.Some? then [Checksum(n - 1, hit.value.scheme, hit.value.confidence)] else [])
  }

  function OnlyAsymmetric(tags: seq<Tag>): (r: seq<Tag>)
    requires forall k :: 0 <= k < |tags| ==> tags[k].Checksum?
    ensures forall t :: t in r <==> t in tags && t.Checksum? && Asymmetric(t.scheme)
  {
    if tags == [] then []
    else
      var n := |tags| - 1;
      assert tags == tags[..n] + [tags[n]];
      OnlyAsymmetric(tags[..n]) + (if Asymmetric(tags[n].scheme) then [tags[n]] else [])
  }

  /** Asymmetric hits when there are any; else the hit at the highest byte. */
  function Resolved(hits: seq<Tag>): seq<Tag>
    requires forall k :: 0 <= k < |hits| ==> hits[k].Checksum?
  {
    var asym := OnlyAsymmetric(hits);
    if asym != [] then asym else if hits == [] then [] else [hits[|hits| - 1]]
  }

  function ChecksumTagsOf(ps: seq<seq<byte>>, width: nat, cfg: Config): seq<Tag> {
    Resolved(Hits(ps, width, cfg))
  }

  method ResolveHits(hits: seq<Tag>) returns (tags: seq<Tag>)
    requires forall k :: 0 <= k < |hits| ==> hits[k].Checksum?
    requires forall k, l :: 0 <= k < l < |hits| ==> hits[k].byteIndex < hits[l].byteIndex
    ensures tags == Resolved(hits)
  {
    if |hits| == 0 {
      return [];
    }
    var asym := OnlyAsymmetric(hits);
    if |asym| > 0 {
      return asym;
    }
    var trailing := hits[0];
    for k := 1 to |hits|
      invariant trailing == hits[k - 1]
    {
      if hits[k].byteIndex > trailing.byteIndex {
        trailing := hits[k];
      }
    }
    tags := [trailing];
  }

  method CountMatches(fs: seq<seq<byte>>, i: nat, s: Scheme) returns (matches: nat)
    requires Carry(fs, i)
    ensures matches == Matches(fs, i, s)
  {
    matches := 0;
    for k := 0 to |fs|
      invariant matches == Matches(fs[..k], i, s)
    {
      assert fs[..k + 1][..k] == fs[..k];
      var v := ComputeChecksum(s, fs[k], i);
      if fs[k][i] == v {
        matches := matches + 1;
      }
    }
    assert fs[..|fs|] == fs;
  }

  method CountMatchesPacked(p: Packed, frames: seq<nat>, i: nat, s: Scheme) returns (matches: nat)
    requires Columns(p.data, p.dlc) && Within(frames, |p.dlc|) && Carry(PayloadsAt(p.data, p.dlc, frames), i)
    ensures matches == Matches(PayloadsAt(p.data, p.dlc, frames), i, s)
  {
    ghost var fs := PayloadsAt(p.data, p.dlc, frames);
    matches := 0;
    for k := 0 to |frames|
      invariant matches == Matches(fs[..k], i, s)
    {
      assert fs[..k + 1][..k] == fs[..k] && i < |fs[k]|;
      var v := ComputeChecksumPacked(s, p.data, p.dlc, frames[k], i);
      if ByteAt(p.data, frames[k], i) == v {
        matches := matches + 1;
      }
    }
    assert fs[..|frames|] == fs;
  }

  method Choose(fs: seq<seq<byte>>, i: nat, threshold: real) returns (best: Option<Hit>)
    requires Carry(fs, i) && fs != []
    ensures best == Chosen(fs, i, SCHEMES, threshold)
  {
    best := None;
    for k := 0 to |SCHEMES|
      invariant best == Chosen(fs, i, SCHEMES[..k], threshold)
    {
      TakeNext(SCHEMES, k);
      var matches := CountMatches(fs, i, SCHEMES[k]);
      best := Better(best, SCHEMES[k], matches as real / |fs| as real, threshold);
    }
    assert SCHEMES[..|SCHEMES|] == SCHEMES;
  }

  method ChoosePacked(p: Packed, frames: seq<nat>, i: nat, threshold: real) returns (best: Option<Hit>)
    requires Columns(p.data, p.dlc) && Within(frames, |p.dlc|) && Carry(PayloadsAt(p.data, p.dlc, frames), i)
             && frames != []
    ensures best == Chosen(PayloadsAt(p.data, p.dlc, frames), i, SCHEMES, threshold)
  {
    ghost var fs := PayloadsAt(p.data, p.dlc, frames);
    best := None;
    for k := 0 to |SCHEMES|
      invariant best == Chosen(fs, i, SCHEMES[..k], threshold)
    {
      TakeNext(SCHEMES, k);
      var matches := CountMatchesPacked(p, frames, i, SCHEMES[k]);
      best := Better(best, SCHEMES[k], matches as real / |frames| as real, threshold);
    }
    assert SCHEMES[..|SCHEMES|] == SCHEMES;
  }

  method DetectChecksums(payloads: seq<seq<byte>>, width: nat, cfg: Config) returns (tags: seq<Tag>)
    ensures tags == ChecksumTagsOf(payloads, width, cfg)
  {
    var hits: seq<Tag> := [];
    for i := 0 to width
      invariant hits == Hits(payloads, i, cfg)
    {
      var best := FindHit(payloads, i, cfg);
      if best.Some? {
        hits := hits + [Checksum(i, best.value.scheme, best.value.confidence)];
      }
    }
    tags := ResolveHits(hits);
  }

  /** The hit at one byte. */
  method FindHit(payloads: seq<seq<byte>>, i: nat, cfg: Config) returns (hit: Option<Hit>)
    ensures hit == ByteHit(payloads, i, cfg)
  {
    var frames := FilterCarriers(payloads, i);
    if |frames| < cfg.minFrames || AllShort(frames) || AllSame(frames, i) {
      return None;
    }
    hit := Choose(frames, i, cfg.checksumThreshold);
  }

  method FilterCarriers(payloads: seq<seq<byte>>, i: nat) returns (frames: seq<seq<byte>>)
    ensures frames == Carriers(payloads, i)
  {
    frames := [];
    for k := 0 to |payloads|
      invariant frames == Carriers(payloads[..k], i)
    {
      CarriersNext(payloads, i, k);
      if i < |payloads[k]| {
        frames := frames + [payloads[k]];
      }
    }
    assert payloads[..|payloads|] == payloads;
  }

  method FilterCarriersPacked(p: Packed, indices: seq<nat>, i: nat) returns (frames: seq<nat>)
    requires Columns(p.data, p.dlc) && Within(indices, |p.dlc|)
    ensures Within(frames, |p.dlc|)
    ensures PayloadsAt(p.data, p.dlc, frames) == Carriers(PayloadsAt(p.data, p.dlc, indices), i)
  {
    ghost var ps := PayloadsAt(p.data, p.dlc, indices);
    frames := [];
    for k := 0 to |indices|
      invariant Within(frames, |p.dlc|)
      invariant PayloadsAt(p.data, p.dlc, frames) == Carriers(ps[..k], i)
    {
      CarriersNext(ps, i, k);
      if i < p.dlc[indices[k]] {
        frames := frames + [indices[k]];
      }
    }
    assert ps[..|indices|] == ps;
  }

  method TestablePacked(p: Packed, frames: seq<nat>, i: nat, cfg: Config) returns (testable: bool)
    requires Columns(p.data, p.dlc) && Within(frames, |p.dlc|) && Carry(PayloadsAt(p.data, p.dlc, frames), i)
    ensures testable == Testable(PayloadsAt(p.data, p.dlc, frames), i, cfg)
  {
    ghost var fs := PayloadsAt(p.data, p.dlc, frames);
    assert forall k :: 0 <= k < |frames| ==> |fs[k]| == p.dlc[frames[k]];
    var short := forall k :: 0 <= k < |frames| ==> p.dlc[frames[k]] <= 1;
    if |frames| < cfg.minFrames || short {
      return false;
    }
    assert forall k :: 0 <= k < |frames| ==> i < |fs[k]| && fs[k][i] == ByteAt(p.data, frames[k], i);
    var same := forall k :: 0 <= k < |frames| ==> ByteAt(p.data, frames[k], i) == ByteAt(p.data, frames[0], i);
    testable := !same;
  }

  /** The hit at one byte. */
  method FindHitPacked(p: Packed, indices: seq<nat>, i: nat, cfg: Config) returns (hit: Option<Hit>)
    requires Columns(p.data, p.dlc) && Within(indices, |p.dlc|)
    ensures hit == ByteHit(PayloadsAt(p.data, p.dlc, indices), i, cfg)
  {
    var frames := FilterCarriersPacked(p, indices, i);
    var testable := TestablePacked(p, frames, i, cfg);
    if !testable {
      return None;
    }
    hit := ChoosePacked(p, frames, i, cfg.checksumThreshold);
  }

  method DetectChecksumsPacked(p: Packed, indices: seq<nat>, width: nat, cfg: Config) returns (tags: seq<Tag>)
    requires Columns(p.data, p.dlc) && Within(indices, |p.dlc|)
    ensures tags == ChecksumTagsOf(PayloadsAt(p.data, p.dlc, indices), width, cfg)
  {
    ghost var ps := PayloadsAt(p.data, p.dlc, indices);
    var hits: seq<Tag> := [];
    for i := 0 to width
      invariant hits == Hits(ps, i, cfg)
    {
      var best := FindHitPacked(p, indices, i, cfg);
      if best.Some? {
        hits := hits + [Checksum(i, best.value.scheme, best.value.confidence)];
      }
    }
    tags := ResolveHits(hits);
  }

  /* ---- all tags of an identifier --------------------------------------------------------------------------- */

  function CountersUpto(ps: seq<seq<byte>>, n: nat, cfg: Config): seq<Tag> {
    if n == 0 then [] else CountersUpto(ps, n - 1, cfg) + CounterTags(ps, n - 1, cfg)
  }

  function TagsOf(ps: seq<seq<byte>>, cfg: Config): seq<Tag> {
    CountersUpto(ps, CoOccurrence.MaxLength(ps), cfg) + ChecksumTagsOf(ps, CoOccurrence.MaxLength(ps), cfg)
  }

  /** The last `maxFrames` elements; 0 disables the cap. */
  function Recent<T>(s: seq<T>, maxFrames: nat): (r: seq<T>) {
    if maxFrames > 0 && |s| > maxFrames then s[|s| - maxFrames..] else s
  }

  method TagOneId(group: seq<seq<byte>>, maxFrames: nat, cfg: Config) returns (tags: seq<Tag>)
    ensures tags == TagsOf(Recent(group, maxFrames), cfg)
  {
    var payloads := Recent(group, maxFrames);
    var width := 0;
    for k := 0 to |payloads|
      invariant width == CoOccurrence.MaxLength(payloads[..k])
    {
      TakeNext(payloads, k);
      width := Max(width, |payloads[k]|);
    }
    assert payloads[..|payloads|] == payloads;
    tags := [];
    for i := 0 to width
      invariant tags == CountersUpto(payloads, i, cfg)
    {
      var byteCol := ColumnAt(payloads, i, Whole);
      var lowCol := ColumnAt(payloads, i, LowNibble);
      var highCol := ColumnAt(payloads, i, HighNibble);
      var counter := TagCounter(byteCol, lowCol, highCol, i, cfg, payloads);
      tags := tags + counter;
    }
    var checksums := DetectChecksums(payloads, width, cfg);
    tags := tags + checksums;
  }

  method TagOneIdPacked(p: Packed, group: seq<nat>, maxFrames: nat, cfg: Config) returns (tags: seq<Tag>)
    requires Columns(p.data, p.dlc) && Within(group, |p.dlc|)
    ensures tags == TagsOf(Recent(PayloadsAt(p.data, p.dlc, group), maxFrames), cfg)
  {
    var indices := Recent(group, maxFrames);
    ghost var ps := PayloadsAt(p.data, p.dlc, indices);
    assert ps == Recent(PayloadsAt(p.data, p.dlc, group), maxFrames);
    var width := 0;
    for k := 0 to |indices|
      invariant width == CoOccurrence.MaxLength(ps[..k])
    {
      TakeNext(ps, k);
      if p.dlc[indices[k]] > width {
        width := p.dlc[indices[k]];
      }
    }
    assert ps[..|indices|] == ps;
    tags := [];
    for i := 0 to width
      invariant tags == CountersUpto(ps, i, cfg)
    {
      var byteCol := ColumnAtPacked(p, indices, i, Whole);
      var lowCol := ColumnAtPacked(p, indices, i, LowNibble);
      var highCol := ColumnAtPacked(p, indices, i, HighNibble);
      var counter := TagCounter(byteCol, lowCol, highCol, i, cfg, ps);
      tags := tags + counter;
    }
    var checksums := DetectChecksumsPacked(p, indices, width, cfg);
    tags := tags + checksums;
  }

  /** Packed and unpacked windows of the same frames get the same tags. */
  lemma PackedTagsAgree(p: Packed, fs: seq<Frame>, id: nat, maxFrames: nat, cfg: Config)
    requires Packs(p, fs)
    ensures Columns(p.data, p.dlc) && Within(IndicesOf(p, id), |p.dlc|)
    ensures TagsOf(Recent(PayloadsAt(p.data, p.dlc, IndicesOf(p, id)), maxFrames), cfg)
            == TagsOf(Recent(PayloadsOf(fs, id), maxFrames), cfg)
  {
    SamePayloads(p, fs, id);
  }

  /* ---- what checksum tags can look like ------------------------------------------------------------------------ */

  /** Either all tags are asymmetric, or there is at most one, symmetric, at the highest byte that hit. */
  lemma ChecksumShape(ps: seq<seq<byte>>, width: nat, cfg: Config)
    ensures var tags, hits := ChecksumTagsOf(ps, width, cfg), Hits(ps, width, cfg);
      || (tags != [] && forall k :: 0 <= k < |tags| ==> tags[k].Checksum? && Asymmetric(tags[k].scheme))
      || (tags == [] && hits == [])
      || (|tags| == 1 && tags[0] in hits && !Asymmetric(tags[0].scheme)
          && forall t :: t in hits ==> !Asymmetric(t.scheme) && t.byteIndex <= tags[0].byteIndex)
  {
    var hits := Hits(ps, width, cfg);
    var asym := OnlyAsymmetric(hits);
    if asym != [] {
      assert forall k :: 0 <= k < |asym| ==> asym[k] in asym;
    } else if hits != [] {
      var last := hits[|hits| - 1];
      assert last in hits;
      forall t | t in hits ensures !Asymmetric(t.scheme) && t.byteIndex <= last.byteIndex {
        assert t !in asym;
      }
    }
  }

  /** The chosen scheme qualifies and no scheme tried scores higher. */
  lemma {:induction false} ChosenIsBest(ps: seq<seq<byte>>, i: nat, schemes: seq<Scheme>, threshold: real)
    requires Carry(ps, i) && ps != []
    ensures var best := Chosen(ps, i, schemes, threshold);
      && (best.Some? <==> exists s :: s in schemes && Score(ps, i, s) >= threshold)
      && (best.Some? ==>
            && best.value.scheme in schemes
            && best.value.confidence == Score(ps, i, best.value.scheme) >= threshold
            && forall s :: s in schemes ==> Score(ps, i, s) <= best.value.confidence || Score(ps, i, s) < threshold)
  {
    if schemes != [] {
      var init, last := schemes[..|schemes| - 1], schemes[|schemes| - 1];
      ChosenIsBest(ps, i, init, threshold);
      assert schemes == init + [last];
      if Chosen(ps, i, schemes, threshold).Some? {
        assert Chosen(ps, i, schemes, threshold).value.scheme in schemes;
      }
    }
  }

  lemma {:induction false} AllMatch(ps: seq<seq<byte>>, i: nat, s: Scheme)
    requires Carry(ps, i) && forall k :: 0 <= k < |ps| ==> ps[k][i] == ChecksumOf(s, ps[k], i)
    ensures Matches(ps, i, s) == |ps|
  {
    if ps != [] {
      AllMatch(ps[..|ps| - 1], i, s);
    }
  }

  lemma {:induction false} CarriersOfWide(ps: seq<seq<byte>>, i: nat)
    requires forall k :: 0 <= k < |ps| ==> i < |ps[k]|
    ensures Carriers(ps, i) == ps
  {
    if ps != [] {
      CarriersOfWide(ps[..|ps| - 1], i);
    }
  }

  /**
   * When the exclusive or of every payload is 0 and all have the same width, every byte satisfies the
   * symmetric scheme, yet the last byte is reported by the prefix scheme with confidence 1, and then
   * every reported checksum is asymmetric.
   */
  lemma XorMessageIsResolved(ps: seq<seq<byte>>, width: nat, cfg: Config)
    requires width >= 2 && forall k :: 0 <= k < |ps| ==> |ps[k]| == width && XorUpto(ps[k], width) == 0
    requires |ps| >= cfg.minFrames && !AllSame(ps, width - 1) && cfg.checksumThreshold <= 1.0
    ensures forall k, t :: 0 <= k < |ps| && 0 <= t < width ==> ps[k][t] == ChecksumOf(XorAll, ps[k], t)
    ensures Checksum(width - 1, XorPrefix, 1.0) in ChecksumTagsOf(ps, width, cfg)
    ensures forall t :: t in ChecksumTagsOf(ps, width, cfg) ==> t.Checksum? && Asymmetric(t.scheme)
  {
    forall k, t | 0 <= k < |ps| && 0 <= t < width ensures ps[k][t] == ChecksumOf(XorAll, ps[k], t) {
      XorMatchIff(ps[k], t);
    }
    var i := width - 1;
    forall k | 0 <= k < |ps| ensures ps[k][i] == ChecksumOf(XorPrefix, ps[k], i) {
      TrailingPrefix(ps[k]);
      XorMatchIff(ps[k], i);
    }
    CarriersOfWide(ps, i);
    AllMatch(ps, i, XorPrefix);
    assert |ps[0]| == width;
    AtMostOne(|ps|, |ps|);
    FirstStays(ps, i, cfg.checksumThreshold);
    assert ByteHit(ps, i, cfg) == Some(Hit(XorPrefix, 1.0));
    var tag := Checksum(i, XorPrefix, 1.0);
    assert tag in Hits(ps, width, cfg);
    assert tag in OnlyAsymmetric(Hits(ps, width, cfg));
  }

  /** A first scheme that always matches is not displaced by the later ones. */
  lemma FirstStays(ps: seq<seq<byte>>, i: nat, threshold: real)
    requires Carry(ps, i) && ps != [] && Score(ps, i, XorPrefix) == 1.0 && threshold <= 1.0
    ensures Chosen(ps, i, SCHEMES, threshold) == Some(Hit(XorPrefix, 1.0))
  {
    var one, two, three := [XorPrefix], [XorPrefix, Crc8], [XorPrefix, Crc8, XorAll];
    assert one[..0] == [] && two[..1] == one && three[..2] == two && SCHEMES[..3] == three;
    AtMostOne(Matches(ps, i, Crc8), |ps|);
    AtMostOne(Matches(ps, i, XorAll), |ps|);
    AtMostOne(Matches(ps, i, SumAll), |ps|);
    assert Chosen(ps, i, one, threshold) == Some(Hit(XorPrefix, 1.0));
    assert Chosen(ps, i, two, threshold) == Some(Hit(XorPrefix, 1.0));
    assert Chosen(ps, i, three, threshold) == Some(Hit(XorPrefix, 1.0));
  }
}
