/**
 * Signal geometry compiled to an arithmetic expression over the byte variables A..H.  The
 * expression language is the fragment of the formula engine that the compiler emits, with the
 * helpers' 32-bit wrap-around; arithmetic is exact (the engine's doubles are exact on the
 * integers below 2^53 that a signal of at most 52 bits can reach, before scaling).
 */
module Formula {
  import opened Common
  import opened Bits
  import opened Geometry

  datatype Expr =
    | Num(v: real)
    | Letter(k: nat)                                      // A..H = data[0..7]
    | Band(x: Expr, mask: nat)                            // band(x, mask)
    | ShrBy(x: Expr, n: nat)                              // shr(x, n)
    | Times(l: Expr, r: Expr)
    | Plus(l: Expr, r: Expr)
    | Minus(l: Expr, r: Expr)
    | IfAtLeast(x: Expr, bound: real, thn: Expr, els: Expr)  // x >= bound ? thn : els

  /** ECMAScript's conversion to an integer: towards zero. */
  function Truncate(r: real): int {
    if r >= 0.0 then r.Floor else -((-r).Floor)
  }

  /** Bitwise AND with a non-negative mask. */
  function AndBits(x: int, m: nat): (r: nat)
    ensures r <= m
    decreases m
  {
    if m == 0 then 0 else x % 2 * (m % 2) + 2 * AndBits(x / 2, m / 2)
  }

  const MODULUS: nat := 0x1_0000_0000

  /** `(x & m) >>> 0`: only the low 32 bits of the mask count. */
  function BandHelper(x: real, m: nat): nat {
    AndBits(Truncate(x), m % MODULUS)
  }

  /** `x >>> n`: unsigned 32-bit shift, the count taken modulo 32. */
  function ShrHelper(x: real, n: nat): nat {
    Shr(Truncate(x) % MODULUS, n % 32)
  }

  function Eval(e: Expr, data: seq<byte>): real {
    match e
    case Num(v) => v
    case Letter(k) => ByteAt(data, k) as real
    case Band(x, m) => BandHelper(Eval(x, data), m) as real
    case ShrBy(x, n) => ShrHelper(Eval(x, data), n) as real
    case Times(l, r) => Eval(l, data) * Eval(r, data)
    case Plus(l, r) => Eval(l, data) + Eval(r, data)
    case Minus(l, r) => Eval(l, data) - Eval(r, data)
    case IfAtLeast(x, bound, thn, els) => if Eval(x, data) >= bound then Eval(thn, data) else Eval(els, data)
  }

  datatype ScaledSignal = ScaledSignal(sig: Signal, factor: real, offset: real)

  function Affine(raw: real, factor: real, offset: real): real {
    raw * factor + offset
  }

  lemma AffineIs(raw: real, factor: real, offset: real)
    ensures Affine(raw, factor, offset) - offset == raw * factor
  {
  }

  /** What the compiled formula has to compute. */
  function Physical(s: ScaledSignal, data: seq<byte>): real {
    Affine(Meaning(data, s.sig) as real, s.factor, s.offset)
  }

  /** A signal the formula language can express: 1 to 52 bits, all inside the first eight bytes. */
  predicate Expressible(sig: Signal) {
    && 1 <= sig.bitLength <= 52
    && (if sig.byteOrder == Little then sig.bitStart else Mirror(sig.bitStart)) + sig.bitLength <= 64
  }

  /** The largest mirrored position is the last of the range, so byte 7 bounds them all. */
  lemma BytesInReach(sig: Signal)
    requires sig.bitLength > 0
    ensures (forall i :: 0 <= i < sig.bitLength ==> BitOrder(sig)[i] / 8 <= 7) <==>
            (if sig.byteOrder == Little then sig.bitStart else Mirror(sig.bitStart)) + sig.bitLength <= 64
  {
    forall i | 0 <= i < sig.bitLength
      ensures sig.byteOrder == Big ==> BitOrder(sig)[i] / 8 == (Mirror(sig.bitStart) + (sig.bitLength - 1 - i)) / 8
    {
      MirrorInvolution(Mirror(sig.bitStart) + (sig.bitLength - 1 - i));
    }
    var last := if sig.byteOrder == Little then sig.bitLength - 1 else 0;
    assert BitOrder(sig)[last] / 8 ==
           ((if sig.byteOrder == Little then sig.bitStart else Mirror(sig.bitStart)) + sig.bitLength - 1) / 8;
  }

  /** Expressible signals have 1 to 52 bits, each of them in one of the first eight bytes. */
  lemma ExpressibleIs(sig: Signal)
    ensures Expressible(sig) <==>
      1 <= sig.bitLength <= 52 && forall i :: 0 <= i < sig.bitLength ==> BitOrder(sig)[i] / 8 <= 7
  {
    if sig.bitLength > 0 {
      BytesInReach(sig);
    }
  }

  /** The source bits of a run, aligned to bit 0: a letter, or a mask, or a shift and a mask. */
  function RunSource(byteIndex: nat, srcLo: nat, width: nat): Expr {
    if srcLo == 0 && width == 8 then Letter(byteIndex)
    else if srcLo == 0 then Band(Letter(byteIndex), Pow2(width) - 1)
    else Band(ShrBy(Letter(byteIndex), srcLo), Pow2(width) - 1)
  }

  /** A mask of `w` ones keeps the low `w` bits. */
  lemma {:induction false} AndMask(x: int, w: nat)
    ensures AndBits(x, Pow2(w) - 1) == Low(x, w)
    decreases w
  {
    if w > 0 {
      AndMask(x / 2, w - 1);
      AndOdd(x, Pow2(w - 1) - 1);
    }
  }

  lemma AndOdd(x: int, h: nat)
    ensures AndBits(x, 2 * h + 1) == x % 2 + 2 * AndBits(x / 2, h)
  {
    assert (2 * h + 1) / 2 == h && (2 * h + 1) % 2 == 1;
  }

  lemma TruncateOfInt(n: nat)
    ensures Truncate(n as real) == n
  {
  }

  /** On bytes the 32-bit helpers are a plain mask ... */
  lemma BandOnByte(x: nat, w: nat)
    requires x < 256 && w <= 8
    ensures BandHelper(x as real, Pow2(w) - 1) == Low(x, w)
  {
    TruncateOfInt(x);
    ByteMask(w);
    InWord(Pow2(w) - 1);
    AndMask(x, w);
  }

  /** ... and a plain shift. */
  lemma ShrOnByte(x: nat, n: nat)
    requires x < 256 && n < 8
    ensures ShrHelper(x as real, n) == Shr(x, n) < 256
  {
    TruncateOfInt(x);
    InWord(x);
    InWord(n);
    ShrShrinks(x, n);
  }

  lemma InWord(m: nat)
    requires m < 256
    ensures m % MODULUS == m && (m < 32 ==> m % 32 == m)
  {
  }

  lemma ByteMask(w: nat)
    requires w <= 8
    ensures Pow2(w) <= 256
  {
    Pow2Monotone(w, 8);
    PowersUsed();
  }

  lemma {:induction false} ShrShrinks(x: nat, n: nat)
    ensures Shr(x, n) <= x
    decreases n
  {
    if n > 0 {
      ShrShrinks(x / 2, n - 1);
    }
  }

  lemma WholeByte(x: byte, w: nat)
    requires w == 8
    ensures Low(x, w) == x && Shr(x, 0) == x
  {
    PowersUsed();
    LowWide(x, w);
  }

  /** The emitted chunk reads exactly its run, despite going through 32-bit helpers. */
  lemma RunSourceCorrect(byteIndex: nat, srcLo: nat, width: nat, data: seq<byte>)
    requires width >= 1 && srcLo + width <= 8
    ensures Eval(RunSource(byteIndex, srcLo, width), data) == Low(Shr(ByteAt(data, byteIndex), srcLo), width) as real
  {
    var x: int := ByteAt(data, byteIndex);
    var letter := Letter(byteIndex);
    BandOnByte(x, width);
    ShrOnByte(x, srcLo);
    assert Eval(letter, data) == x as real;
    if srcLo == 0 && width == 8 {
      WholeByte(x, width);
    } else if srcLo > 0 {
      var y := Shr(x, srcLo);
      assert Eval(ShrBy(letter, srcLo), data) == y as real;
      BandOnByte(y, width);
    }
  }

  /** `chunks.join(' + ')`: a left-associated sum. */
  function JoinPlus(chunks: seq<Expr>): Expr
    requires chunks != []
  {
    if |chunks| == 1 then chunks[0] else Plus(JoinPlus(chunks[..|chunks| - 1]), chunks[|chunks| - 1])
  }

  function SumEval(chunks: seq<Expr>, data: seq<byte>): real {
    if chunks == [] then 0.0 else Eval(JoinPlus(chunks), data)
  }

  lemma SumEvalSnoc(chunks: seq<Expr>, c: Expr, data: seq<byte>)
    ensures SumEval(chunks + [c], data) == SumEval(chunks, data) + Eval(c, data)
  {
    assert (chunks + [c])[..|chunks|] == chunks;
  }

  lemma RealProduct(a: int, b: int)
    ensures (a * b) as real == a as real * b as real
  {
  }

  lemma ScaledEval(k: nat, src: Expr, part: nat, data: seq<byte>)
    requires Eval(src, data) == part as real
    ensures Eval(Times(Num(k as real), src), data) == (k * part) as real
  {
    RealProduct(k, part);
    assert Eval(Num(k as real), data) == k as real;
  }

  /** One chunk placed at its destination by multiplication adds its run to the raw sum. */
  lemma ChunkCorrect(order: seq<nat>, destLo: nat, width: nat, byteIndex: nat, srcLo: nat, c: Expr, data: seq<byte>)
    requires width >= 1 && IsRun(order, destLo, width, byteIndex, srcLo)
    requires c == var src := RunSource(byteIndex, srcLo, width);
                  if destLo == 0 then src else Times(Num(Pow2(destLo) as real), src)
    ensures RawSum(data, order, destLo) as real + Eval(c, data) == RawSum(data, order, destLo + width) as real
  {
    var part, src := Low(Shr(ByteAt(data, byteIndex), srcLo), width), RunSource(byteIndex, srcLo, width);
    RunSum(data, order, destLo, width, byteIndex, srcLo);
    RunSourceCorrect(byteIndex, srcLo, width, data);
    if destLo == 0 {
      assert ShiftUp(part, 0) == part;
    } else {
      ScaledEval(Pow2(destLo), src, part, data);
      ShiftUpIsProduct(part, destLo);
    }
  }

  /** Collapse the bit list into runs inside one byte each, lowest destination first. */
  method Chunks(order: seq<nat>) returns (chunks: seq<Expr>)
    requires order != [] && forall i :: 0 <= i < |order| ==> order[i] / 8 <= 7
    ensures chunks != []
    ensures forall data :: Eval(JoinPlus(chunks), data) == RawSum(data, order, |order|) as real
  {
    chunks := [];
    var i := 0;
    while i < |order|
      invariant 0 <= i <= |order| && (chunks == [] <==> i == 0)
      invariant forall data :: SumEval(chunks, data) == RawSum(data, order, i) as real
    {
      var destLo, byteIndex, srcLo, width := i, order[i] / 8, order[i] % 8, 1;
      while i + width < |order| && order[i + width] / 8 == byteIndex && order[i + width] % 8 == srcLo + width
        invariant 1 <= width && IsRun(order, destLo, width, byteIndex, srcLo)
      {
        assert order[i + width] == byteIndex * 8 + srcLo + width;
        width := width + 1;
      }
      i := i + width;
      var src :=
        if srcLo == 0 && width == 8 then Letter(byteIndex)
        else if srcLo == 0 then Band(Letter(byteIndex), Pow2(width) - 1)
        else Band(ShrBy(Letter(byteIndex), srcLo), Pow2(width) - 1);
      var c := if destLo == 0 then src else Times(Num(Pow2(destLo) as real), src);
      forall data ensures SumEval(chunks + [c], data) == RawSum(data, order, i) as real {
        SumEvalSnoc(chunks, c, data);
        ChunkCorrect(order, destLo, width, byteIndex, srcLo, c, data);
      }
      chunks := chunks + [c];
    }
  }

  /** Two's complement in the formula language mirrors the sign extension of the decoder. */
  lemma SignExtension(sig: Signal, sum: Expr, data: seq<byte>)
    requires sig.signed && sig.bitLength > 0
    requires Eval(sum, data) == RawSum(data, BitOrder(sig), sig.bitLength) as real
    ensures Eval(IfAtLeast(sum, Pow2(sig.bitLength - 1) as real, Minus(sum, Num(Pow2(sig.bitLength) as real)), sum),
                 data)
            == Meaning(data, sig) as real
  {
    SignedMeaning(data, sig);
    var n := sig.bitLength;
    var modulus := Num(Pow2(n) as real);
    assert Eval(Minus(sum, modulus), data) == Eval(sum, data) - Pow2(n) as real by {
      assert Eval(modulus, data) == Pow2(n) as real;
    }
    var raw := RawSum(data, BitOrder(sig), n);
    assert (raw - Pow2(n)) as real == raw as real - Pow2(n) as real;
  }

  /** Scaling: a factor of 1 and an offset of 0 are left out, a negative offset is subtracted. */
  function Scaled(expr: Expr, factor: real, offset: real): Expr {
    Shifted(if factor != 1.0 then Times(expr, Num(factor)) else expr, offset)
  }

  function Shifted(e: Expr, offset: real): Expr {
    if offset == 0.0 then e else if offset < 0.0 then Minus(e, Num(-offset)) else Plus(e, Num(offset))
  }

  lemma ShiftedCorrect(e: Expr, offset: real, data: seq<byte>)
    ensures Eval(Shifted(e, offset), data) == Eval(e, data) + offset
  {
    assert Eval(Num(offset), data) == offset && Eval(Num(-offset), data) == -offset;
  }

  lemma ScaledCorrect(expr: Expr, factor: real, offset: real, data: seq<byte>)
    ensures Eval(Scaled(expr, factor, offset), data) == Affine(Eval(expr, data), factor, offset)
  {
    var e := if factor != 1.0 then Times(expr, Num(factor)) else expr;
    ShiftedCorrect(e, offset, data);
    assert Eval(Num(factor), data) == factor;
  }

  /**
   * The compiler.  It declines exactly the signals that do not fit the language, and what it
   * emits computes the physical value on every payload, of any length.
   */
  method SignalToFormula(s: ScaledSignal) returns (f: Option<Expr>)
    ensures f.Some? <==> Expressible(s.sig)
    ensures f.Some? ==> forall data :: Eval(f.value, data) == Physical(s, data)
  {
    var order := SignalBitOrder(s.sig);
    if |order| == 0 || |order| > 52 {
      return None;
    }
    BytesInReach(s.sig);
    for i := 0 to |order|
      invariant forall k :: 0 <= k < i ==> order[k] / 8 <= 7
    {
      if order[i] / 8 > 7 {
        return None;
      }
    }
    var chunks := Chunks(order);
    var rawSum := JoinPlus(chunks);
    assert forall data :: Eval(rawSum, data) == RawSum(data, BitOrder(s.sig), s.sig.bitLength) as real;
    var expr := rawSum;
    if s.sig.signed && s.sig.bitLength > 0 {
      var signBound, modulus := Pow2(s.sig.bitLength - 1) as real, Pow2(s.sig.bitLength) as real;
      expr := IfAtLeast(rawSum, signBound, Minus(rawSum, Num(modulus)), rawSum);
      forall data ensures Eval(expr, data) == Meaning(data, s.sig) as real {
        SignExtension(s.sig, rawSum, data);
      }
    }
    forall data ensures Eval(Scaled(expr, s.factor, s.offset), data) == Physical(s, data) {
      ScaledPhysical(expr, s, data);
    }
    return Some(Scaled(expr, s.factor, s.offset));
  }

  lemma ScaledPhysical(expr: Expr, s: ScaledSignal, data: seq<byte>)
    requires Eval(expr, data) == Meaning(data, s.sig) as real
    ensures Eval(Scaled(expr, s.factor, s.offset), data) == Physical(s, data)
  {
    ScaledCorrect(expr, s.factor, s.offset, data);
  }
}
