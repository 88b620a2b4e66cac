/** Stock datatypes and the arithmetic of bits that the other modules share. */
module Common {
  datatype Option<+T> = None | Some(value: T)

  datatype Result<+T> = Ok(value: T) | Err

  type byte = x: int | 0 <= x < 256

  function Min(a: int, b: int): int {
    if a <= b then a else b
  }

  function Max(a: int, b: int): int {
    if a >= b then a else b
  }
}

module Seqs {
  lemma SplitAt<T>(s: seq<T>, from: nat, at: nat)
    requires from <= at <= |s|
    ensures s[from..at] + s[at..] == s[from..] && s[from..|s|] == s[from..]
  {
  }

  lemma TakeNext<T>(s: seq<T>, i: nat)
    requires i < |s|
    ensures s[..i + 1] == s[..i] + [s[i]]
  {
  }
}

/** Counting by places: how many elements of a list, or pairs of neighbours in it, satisfy a condition. */
module Counting {
  /** The places of the elements that satisfy the condition. */
  ghost function Places<T>(s: seq<T>, p: T -> bool): set<int> {
    set k | 0 <= k < |s| && p(s[k])
  }

  ghost function HowMany<T>(s: seq<T>, p: T -> bool): nat {
    |Places(s, p)|
  }

  lemma HowManyNone<T>(s: seq<T>, p: T -> bool)
    requires s == []
    ensures HowMany(s, p) == 0
  {
    assert forall k :: k !in Places(s, p);
    assert Places(s, p) == {};
  }

  lemma HowManySnoc<T>(s: seq<T>, x: T, p: T -> bool)
    ensures HowMany(s + [x], p) == HowMany(s, p) + (if p(x) then 1 else 0)
  {
    assert Places(s + [x], p) == Places(s, p) + (if p(x) then {|s|} else {});
  }

  /** Element `k` and the one before it satisfy the condition. */
  ghost predicate PairAt<T>(s: seq<T>, k: int, p: (T, T) -> bool) {
    1 <= k < |s| && p(s[k - 1], s[k])
  }

  /** The places of the second elements of such pairs. */
  ghost function PairPlaces<T>(s: seq<T>, p: (T, T) -> bool): set<int> {
    set k | 1 <= k < |s| && PairAt(s, k, p)
  }

  /** Pairs of neighbours, by the place of the second. */
  ghost function PairsWhere<T>(s: seq<T>, p: (T, T) -> bool): nat {
    |PairPlaces(s, p)|
  }

  lemma PairsNone<T>(s: seq<T>, p: (T, T) -> bool)
    requires forall k :: !PairAt(s, k, p)
    ensures PairsWhere(s, p) == 0
  {
    assert PairPlaces(s, p) == {};
  }

  lemma PairsSnoc<T>(s: seq<T>, x: T, p: (T, T) -> bool)
    requires s != []
    ensures PairsWhere(s + [x], p) == PairsWhere(s, p) + (if p(s[|s| - 1], x) then 1 else 0)
  {
    assert forall k :: PairAt(s + [x], k, p) <==> PairAt(s, k, p) || (k == |s| && p(s[|s| - 1], x));
    assert PairPlaces(s + [x], p) == PairPlaces(s, p) + (if p(s[|s| - 1], x) then {|s|} else {});
  }

  /** Conditions that agree on every pair count the same. */
  lemma PairsSame<T>(s: seq<T>, p: (T, T) -> bool, q: (T, T) -> bool)
    requires forall k :: PairAt(s, k, p) <==> PairAt(s, k, q)
    ensures PairsWhere(s, p) == PairsWhere(s, q)
  {
    assert PairPlaces(s, p) == PairPlaces(s, q);
  }
}

/** Powers of two, shifts and masks by recursion on binary digits; negative numbers in two's complement. */
module Bits {
  function Pow2(n: nat): (p: nat)
    ensures p >= 1
  {
    if n == 0 then 1 else 2 * Pow2(n - 1)
  }

  /** `x >> s`. */
  function Shr(x: int, s: nat): (r: int)
    ensures x >= 0 ==> r >= 0
    decreases s
  {
    if s == 0 then x else Shr(x / 2, s - 1)
  }

  /** The low `w` bits of `x`, that is `x & (2^w - 1)`. */
  function Low(x: int, w: nat): (r: nat)
    ensures r < Pow2(w)
    decreases w
  {
    if w == 0 then 0 else x % 2 + 2 * Low(x / 2, w - 1)
  }

  /** `(x >> i) & 1`. */
  function Bit(x: int, i: nat): (b: nat)
    ensures b <= 1
  {
    Shr(x, i) % 2
  }

  lemma {:induction false} ShrShr(x: int, s: nat, t: nat)
    ensures Shr(Shr(x, s), t) == Shr(x, s + t)
    decreases s
  {
    if s > 0 {
      ShrShr(x / 2, s - 1, t);
    }
  }

  /** Bits of `x >> s` are the bits of `x`, `s` places up. */
  lemma BitOfShift(x: int, s: nat, i: nat)
    ensures Bit(Shr(x, s), i) == Bit(x, s + i)
  {
    ShrShr(x, s, i);
  }

  /** The weight of bit `i` in `x`: `2^i` if it is set. */
  function Weight(x: int, i: nat): nat {
    if Bit(x, i) == 1 then Pow2(i) else 0
  }

  /** `x | (1 << k)`. */
  function SetAt(x: int, k: nat): (y: int)
    ensures x >= 0 ==> y >= 0
    decreases k
  {
    if k == 0 then x / 2 * 2 + 1 else x % 2 + 2 * SetAt(x / 2, k - 1)
  }

  lemma {:induction false} BitOfSetAt(x: int, k: nat, j: nat)
    ensures Bit(SetAt(x, k), j) == if j == k then 1 else Bit(x, j)
    decreases k
  {
    var y := SetAt(x, k);
    if k == 0 {
      assert y / 2 == x / 2 && y % 2 == 1;
    } else {
      assert y / 2 == SetAt(x / 2, k - 1) && y % 2 == x % 2;
      if j > 0 {
        BitOfSetAt(x / 2, k - 1, j - 1);
      }
    }
    if j > 0 {
      assert Bit(y, j) == Bit(y / 2, j - 1) && Bit(x, j) == Bit(x / 2, j - 1);
    }
  }

  lemma {:induction false} SetAtInRange(x: nat, k: nat, w: nat)
    requires x < Pow2(w) && k < w
    ensures SetAt(x, k) < Pow2(w)
    decreases k
  {
    if k == 0 {
      assert x / 2 < Pow2(w - 1);
    } else {
      SetAtInRange(x / 2, k - 1, w - 1);
      assert SetAt(x, k) == x % 2 + 2 * SetAt(x / 2, k - 1);
    }
  }

  /** Setting a bit above all others adds its weight. */
  lemma {:induction false} SetAtTop(x: nat, n: nat)
    requires x < Pow2(n)
    ensures SetAt(x, n) == x + Pow2(n) && Bit(x, n) == 0
    decreases n
  {
    if n > 0 {
      SetAtTop(x / 2, n - 1);
      assert Bit(x, n) == Bit(x / 2, n - 1);
    }
  }

  /** One more bit of the mask adds that bit at its weight. */
  lemma {:induction false} LowStep(x: int, w: nat)
    ensures Low(x, w + 1) == Low(x, w) + Weight(x, w)
    decreases w
  {
    if w > 0 {
      LowStep(x / 2, w - 1);
      assert Bit(x, w) == Bit(x / 2, w - 1);
    }
  }

  /** A mask wide enough keeps the number. */
  lemma {:induction false} LowWide(x: int, w: nat)
    requires 0 <= x < Pow2(w)
    ensures Low(x, w) == x
    decreases w
  {
    if w > 0 {
      LowWide(x / 2, w - 1);
    }
  }

  /** Masking never changes the bits it keeps, and clears the others. */
  lemma {:induction false} BitOfLow(x: int, w: nat, i: nat)
    ensures Bit(Low(x, w), i) == if i < w then Bit(x, i) else 0
    decreases w
  {
    if w == 0 {
      ShrZero(i);
    } else {
      var y := Low(x, w);
      assert y % 2 == x % 2 && y / 2 == Low(x / 2, w - 1);
      if i > 0 {
        BitOfLow(x / 2, w - 1, i - 1);
        assert Bit(y, i) == Bit(y / 2, i - 1);
        assert Bit(x, i) == Bit(x / 2, i - 1);
      }
    }
  }

  lemma {:induction false} ShrZero(i: nat)
    ensures Shr(0, i) == 0
  {
    if i > 0 {
      ShrZero(i - 1);
    }
  }

  /** Numbers with the same low bits. */
  lemma {:induction false} LowOfSum(x: int, k: int, w: nat)
    ensures Low(x + Pow2(w) * k, w) == Low(x, w)
    decreases w
  {
    if w > 0 {
      MulDouble(Pow2(w - 1), k);
      var m := Pow2(w - 1) * k;
      assert (x + 2 * m) / 2 == x / 2 + m;
      LowOfSum(x / 2, k, w - 1);
    }
  }

  /** `x * 2^n`, one doubling at a time. */
  function ShiftUp(x: int, n: nat): (y: int)
    ensures x >= 0 ==> y >= 0
  {
    if n == 0 then x else 2 * ShiftUp(x, n - 1)
  }

  lemma {:induction false} ShiftUpSum(x: int, y: int, n: nat)
    ensures ShiftUp(x + y, n) == ShiftUp(x, n) + ShiftUp(y, n)
  {
    if n > 0 {
      ShiftUpSum(x, y, n - 1);
    }
  }

  lemma {:induction false} ShiftUpWeight(x: int, w: nat, n: nat)
    ensures ShiftUp(Weight(x, w), n) == if Bit(x, w) == 1 then Pow2(n + w) else 0
  {
    if n > 0 {
      ShiftUpWeight(x, w, n - 1);
    }
  }

  lemma {:induction false} ShiftUpIsProduct(x: int, n: nat)
    ensures ShiftUp(x, n) == Pow2(n) * x
  {
    if n > 0 {
      ShiftUpIsProduct(x, n - 1);
      MulDouble(Pow2(n - 1), x);
    }
  }

  lemma MulDouble(p: int, q: int)
    ensures (2 * p) * q == 2 * (p * q)
  {
  }

  lemma {:induction false} Pow2Monotone(a: nat, b: nat)
    requires a <= b
    ensures Pow2(a) <= Pow2(b)
    decreases b
  {
    if a < b {
      Pow2Monotone(a, b - 1);
    }
  }

  /** The quotient is the only number that leaves a remainder below the divisor. */
  lemma DivUnique(x: int, d: nat, q: int, r: int)
    requires d > 0 && x == d * q + r && 0 <= r < d
    ensures x / d == q && x % d == r
  {
    var e := x / d - q;
    assert d * e == r - x % d by {
      assert x == d * (x / d) + x % d;
      assert d * e == d * (x / d) - d * q;
    }
    if e != 0 {
      MulAtLeast(d, e);
      assert false;
    }
  }

  lemma MulAtLeast(d: int, e: int)
    requires d > 0
    ensures e > 0 ==> d * e >= d
    ensures e < 0 ==> d * e <= -d
  {
    if e > 0 {
      assert d * (e - 1) >= 0;
    } else if e < 0 {
      assert d * (-e - 1) >= 0;
    }
  }
}
