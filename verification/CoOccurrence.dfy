/** Which bytes of a message change together: the tally over payload arrays and its packed bitmask twin. */
module CoOccurrence {
  import opened Common
  import opened Seqs
  import opened Bits
  import opened Frames
  import opened Windows

  /* ---- what is counted ------------------------------------------------------------------------------ */

  type Hit = (seq<byte>, seq<byte>) -> bool

  /** Consecutive pairs of payloads that `hit`. */
  function CountPairs(ps: seq<seq<byte>>, hit: Hit): nat {
    if |ps| < 2 then 0
    else
      var n := |ps| - 1;
      CountPairs(ps[..n], hit) + (if hit(ps[n - 1], ps[n]) then 1 else 0)
  }

  /** How many bytes of a pair can be compared. */
  function Comparable(a: seq<byte>, b: seq<byte>, bc: nat): (n: nat)
    ensures n <= |a| && n <= |b| && n <= bc
  {
    Min(Min(|a|, |b|), bc)
  }

  predicate Carried(a: seq<byte>, b: seq<byte>, bc: nat, i: nat) {
    i < Comparable(a, b, bc)
  }

  predicate Moved(a: seq<byte>, b: seq<byte>, bc: nat, i: nat) {
    Carried(a, b, bc, i) && a[i] != b[i]
  }

  function CarriedHit(bc: nat, i: nat): Hit {
    (a: seq<byte>, b: seq<byte>) => Carried(a, b, bc, i)
  }

  function MovedHit(bc: nat, i: nat): Hit {
    (a: seq<byte>, b: seq<byte>) => Moved(a, b, bc, i)
  }

  /** Two different bytes, both carried. */
  function BothCarried(bc: nat, i: nat, j: nat): Hit {
    (a: seq<byte>, b: seq<byte>) => i != j && Carried(a, b, bc, i) && Carried(a, b, bc, j)
  }

  function BothMoved(bc: nat, i: nat, j: nat): Hit {
    (a: seq<byte>, b: seq<byte>) => i != j && Moved(a, b, bc, i) && Moved(a, b, bc, j)
  }

  function EitherMoved(bc: nat, i: nat, j: nat): Hit {
    (a: seq<byte>, b: seq<byte>) => Moved(a, b, bc, i) || Moved(a, b, bc, j)
  }

  function Present(ps: seq<seq<byte>>, bc: nat, i: nat): nat {
    CountPairs(ps, CarriedHit(bc, i))
  }

  function Changed(ps: seq<seq<byte>>, bc: nat, i: nat): nat {
    CountPairs(ps, MovedHit(bc, i))
  }

  function CoPresent(ps: seq<seq<byte>>, bc: nat, i: nat, j: nat): nat {
    CountPairs(ps, BothCarried(bc, i, j))
  }

  function CoChange(ps: seq<seq<byte>>, bc: nat, i: nat, j: nat): nat {
    CountPairs(ps, BothMoved(bc, i, j))
  }

  /* ---- laws of the counts ----------------------------------------------------------------------------- */

  lemma {:induction false} CountLe(ps: seq<seq<byte>>, h1: Hit, h2: Hit)
    requires forall a, b :: h1(a, b) ==> h2(a, b)
    ensures CountPairs(ps, h1) <= CountPairs(ps, h2) <= (if |ps| < 2 then 0 else |ps| - 1)
  {
    if |ps| >= 2 {
      CountLe(ps[..|ps| - 1], h1, h2);
    }
  }

  lemma {:induction false} CountSame(ps: seq<seq<byte>>, h1: Hit, h2: Hit)
    requires forall a, b :: h1(a, b) <==> h2(a, b)
    ensures CountPairs(ps, h1) == CountPairs(ps, h2)
  {
    if |ps| >= 2 {
      CountSame(ps[..|ps| - 1], h1, h2);
    }
  }

  /** Inclusion and exclusion. */
  lemma {:induction false} CountUnion(ps: seq<seq<byte>>, h1: Hit, h2: Hit, both: Hit, either: Hit)
    requires forall a, b :: both(a, b) <==> h1(a, b) && h2(a, b)
    requires forall a, b :: either(a, b) <==> h1(a, b) || h2(a, b)
    ensures CountPairs(ps, h1) + CountPairs(ps, h2) == CountPairs(ps, both) + CountPairs(ps, either)
  {
    if |ps| >= 2 {
      CountUnion(ps[..|ps| - 1], h1, h2, both, either);
    }
  }

  /** The counts are symmetric; a change needs presence; two bytes are both there just when the higher is. */
  lemma CountLaws(ps: seq<seq<byte>>, bc: nat, i: nat, j: nat)
    ensures CoPresent(ps, bc, i, j) == CoPresent(ps, bc, j, i) && CoChange(ps, bc, i, j) == CoChange(ps, bc, j, i)
    ensures CoChange(ps, bc, i, j) <= CoPresent(ps, bc, i, j)
    ensures CoChange(ps, bc, i, j) <= Changed(ps, bc, i) <= Present(ps, bc, i)
    ensures i != j ==> CoPresent(ps, bc, i, j) == Present(ps, bc, Max(i, j))
  {
    CountSame(ps, BothCarried(bc, i, j), BothCarried(bc, j, i));
    CountSame(ps, BothMoved(bc, i, j), BothMoved(bc, j, i));
    CountLe(ps, BothMoved(bc, i, j), BothCarried(bc, i, j));
    CountLe(ps, BothMoved(bc, i, j), MovedHit(bc, i));
    CountLe(ps, MovedHit(bc, i), CarriedHit(bc, i));
    if i != j {
      CountSame(ps, BothCarried(bc, i, j), CarriedHit(bc, Max(i, j)));
    }
  }

  /** The denominator of the Jaccard ratio is the number of pairs in which either byte changed. */
  lemma JaccardDenominator(ps: seq<seq<byte>>, bc: nat, i: nat, j: nat)
    requires i != j
    ensures Changed(ps, bc, i) + Changed(ps, bc, j) - CoChange(ps, bc, i, j) == CountPairs(ps, EitherMoved(bc, i, j))
  {
    CountUnion(ps, MovedHit(bc, i), MovedHit(bc, j), BothMoved(bc, i, j), EitherMoved(bc, i, j));
  }

  /* ---- ratios ------------------------------------------------------------------------------------------- */

  function Jaccard(ci: nat, cj: nat, both: nat): real {
    if ci + cj > both then both as real / (ci + cj - both) as real else 0.0
  }

  function Conditional(ci: nat, both: nat): real {
    if ci > 0 then both as real / ci as real else 0.0
  }

  /** Both ratios lie in [0, 1]; the coupling is 1 just when the bytes only ever changed together. */
  lemma RatiosInRange(ps: seq<seq<byte>>, bc: nat, i: nat, j: nat)
    requires i != j
    ensures var ci, cj, both := Changed(ps, bc, i), Changed(ps, bc, j), CoChange(ps, bc, i, j);
      && 0.0 <= Jaccard(ci, cj, both) <= 1.0 && 0.0 <= Conditional(ci, both) <= 1.0
      && (Jaccard(ci, cj, both) == 1.0 <==> ci == cj == both && both > 0)
  {
    var ci, cj, both := Changed(ps, bc, i), Changed(ps, bc, j), CoChange(ps, bc, i, j);
    CountLaws(ps, bc, i, j);
    CountLaws(ps, bc, j, i);
    JaccardDenominator(ps, bc, i, j);
    RatioAtMostOne(both, ci + cj - both);
    RatioAtMostOne(both, ci);
  }

  lemma RatioAtMostOne(a: nat, b: int)
    requires a <= b
    ensures b > 0 ==> 0.0 <= a as real / b as real <= 1.0
    ensures b > 0 ==> (a as real / b as real == 1.0 <==> a == b)
  {
    if b > 0 {
      var q := a as real / b as real;
      assert q * b as real == a as real;
    }
  }

  /* ---- profiles -------------------------------------------------------------------------------------------- */

  type Matrix<T> = seq<seq<T>>

  function Table<T>(n: nat, f: (nat, nat) -> T): (m: Matrix<T>)
    ensures |m| == n && forall i :: 0 <= i < n ==> |m[i]| == n
    ensures forall i, j :: 0 <= i < n && 0 <= j < n ==> m[i][j] == f(i, j)
  {
    seq(n, i requires 0 <= i < n => seq(n, j requires 0 <= j < n => f(i, j)))
  }

  function Row(n: nat, f: nat -> nat): (r: seq<nat>)
    ensures |r| == n && forall i :: 0 <= i < n ==> r[i] == f(i)
  {
    seq(n, i requires 0 <= i < n => f(i))
  }

  datatype Counts = Counts(changed: seq<nat>, present: seq<nat>, coChange: Matrix<nat>, coPresent: Matrix<nat>)

  function CountsOf(ps: seq<seq<byte>>, bc: nat): Counts {
    Counts(Row(bc, i => Changed(ps, bc, i)), Row(bc, i => Present(ps, bc, i)),
           Table(bc, (i, j) => CoChange(ps, bc, i, j)), Table(bc, (i, j) => CoPresent(ps, bc, i, j)))
  }

  function MaxLength(ps: seq<seq<byte>>): nat {
    if ps == [] then 0 else Max(MaxLength(ps[..|ps| - 1]), |ps[|ps| - 1]|)
  }

  /* ---- the tally over payload arrays ---------------------------------------------------------------------- */

  /** One more pair counts where it hits. */
  lemma CountNext(ps: seq<seq<byte>>, n: nat, hit: Hit)
    requires 1 <= n < |ps|
    ensures CountPairs(ps[..n + 1], hit) == CountPairs(ps[..n], hit) + (if hit(ps[n - 1], ps[n]) then 1 else 0)
  {
    assert ps[..n + 1][..n] == ps[..n];
  }

  /** The unordered pair {a, b} comes before (i, j) in the walk over the upper triangle. */
  predicate Before(a: nat, b: nat, i: nat, j: nat) {
    Min(a, b) < i || (Min(a, b) == i && Max(a, b) < j)
  }

  /** {k, l} is the unordered pair {i, j}. */
  predicate Mirrors(k: nat, l: nat, i: nat, j: nat) {
    (k == i && l == j) || (k == j && l == i)
  }

  class Tallies {
    const n: nat
    const changed: array<nat>
    const present: array<nat>
    const coChange: array2<nat>
    const coPresent: array2<nat>
    ghost const repr: set<object>

    ghost predicate Valid()
    {
      && changed.Length == present.Length == n && changed != present
      && coChange.Length0 == coChange.Length1 == coPresent.Length0 == coPresent.Length1 == n && coChange != coPresent
      && repr == {changed, present, coChange, coPresent}
    }

    /** The counts over `ps`. */
    ghost predicate Hold(ps: seq<seq<byte>>)
      requires Valid()
      reads repr
    {
      && (forall i :: 0 <= i < n ==> changed[i] == Changed(ps, n, i) && present[i] == Present(ps, n, i))
      && (forall i, j :: 0 <= i < n && 0 <= j < n ==>
            coChange[i, j] == CoChange(ps, n, i, j) && coPresent[i, j] == CoPresent(ps, n, i, j))
    }

    constructor (n: nat)
      ensures Valid() && this.n == n && fresh(repr) && Hold([])
    {
      this.n := n;
      var c, p := new nat[n](_ => 0), new nat[n](_ => 0);
      var cc, cp := new nat[n, n]((_, _) => 0), new nat[n, n]((_, _) => 0);
      changed, present, coChange, coPresent := c, p, cc, cp;
      repr := {c, p, cc, cp};
    }

    /** Per-byte marginals of one pair. */
    method Marginals(a: seq<byte>, b: seq<byte>, common: nat) returns (didChange: seq<bool>)
      requires Valid() && common == Comparable(a, b, n)
      modifies changed, present
      ensures |didChange| == common && forall i :: 0 <= i < common ==> didChange[i] == Moved(a, b, n, i)
      ensures forall i :: 0 <= i < n ==>
        changed[i] == old(changed[i]) + (if Moved(a, b, n, i) then 1 else 0)
        && present[i] == old(present[i]) + (if Carried(a, b, n, i) then 1 else 0)
    {
      didChange := [];
      for i := 0 to common
        invariant |didChange| == i && forall k :: 0 <= k < i ==> didChange[k] == Moved(a, b, n, k)
        invariant forall k :: 0 <= k < n ==>
          changed[k] == old(changed[k]) + (if k < i && Moved(a, b, n, k) then 1 else 0)
          && present[k] == old(present[k]) + (if k < i then 1 else 0)
      {
        present[i] := present[i] + 1;
        var c := a[i] != b[i];
        didChange := didChange + [c];
        if c {
          changed[i] := changed[i] + 1;
        }
      }
    }

    /** Pairwise counts of one pair, upper triangle mirrored. */
    method Couples(a: seq<byte>, b: seq<byte>, common: nat, didChange: seq<bool>)
      requires Valid() && common == Comparable(a, b, n)
      requires |didChange| == common && forall i :: 0 <= i < common ==> didChange[i] == Moved(a, b, n, i)
      modifies coChange, coPresent
      ensures forall i, j :: 0 <= i < n && 0 <= j < n ==>
        coPresent[i, j] == old(coPresent[i, j]) + (if BothCarried(n, i, j)(a, b) then 1 else 0)
        && coChange[i, j] == old(coChange[i, j]) + (if BothMoved(n, i, j)(a, b) then 1 else 0)
    {
      for i := 0 to common
        invariant forall k, l :: 0 <= k < n && 0 <= l < n ==>
          coPresent[k, l] == old(coPresent[k, l]) + (if Before(k, l, i, 0) && BothCarried(n, k, l)(a, b) then 1 else 0)
          && coChange[k, l] == old(coChange[k, l]) + (if Before(k, l, i, 0) && BothMoved(n, k, l)(a, b) then 1 else 0)
      {
        for j := i + 1 to common
          invariant forall k, l :: 0 <= k < n && 0 <= l < n ==>
            coPresent[k, l] == old(coPresent[k, l])
              + (if Before(k, l, i, j) && BothCarried(n, k, l)(a, b) then 1 else 0)
            && coChange[k, l] == old(coChange[k, l]) + (if Before(k, l, i, j) && BothMoved(n, k, l)(a, b) then 1 else 0)
        {
          Couple(i, j, didChange[i] && didChange[j]);
        }
      }
    }

    /** One pair of bytes, mirrored. */
    method Couple(i: nat, j: nat, moved: bool)
      requires Valid() && i < j < n
      modifies coChange, coPresent
      ensures forall k, l :: 0 <= k < n && 0 <= l < n ==>
        coPresent[k, l] == old(coPresent[k, l]) + (if Mirrors(k, l, i, j) then 1 else 0)
        && coChange[k, l] == old(coChange[k, l]) + (if moved && Mirrors(k, l, i, j) then 1 else 0)
    {
      coPresent[i, j] := coPresent[i, j] + 1;
      coPresent[j, i] := coPresent[j, i] + 1;
      if moved {
        coChange[i, j] := coChange[i, j] + 1;
        coChange[j, i] := coChange[j, i] + 1;
      }
    }

    /** Walk the consecutive pairs. */
    method Walk(ps: seq<seq<byte>>)
      requires Valid() && Hold([])
      modifies repr
      ensures Hold(ps)
    {
      var k := 1;
      while k < |ps|
        invariant 1 <= k <= Max(|ps|, 1)
        invariant Hold(ps[..Min(k, |ps|)])
      {
        AddPair(ps, k);
        k := k + 1;
      }
      assert ps[..Min(k, |ps|)] == ps;
    }

    method AddPair(ps: seq<seq<byte>>, k: nat)
      requires Valid() && 1 <= k < |ps| && Hold(ps[..k])
      modifies repr
      ensures Hold(ps[..k + 1])
    {
      var a, b := ps[k - 1], ps[k];
      var common := Comparable(a, b, n);
      var didChange := Marginals(a, b, common);
      Couples(a, b, common, didChange);
      forall i | 0 <= i < n
        ensures changed[i] == Changed(ps[..k + 1], n, i) && present[i] == Present(ps[..k + 1], n, i)
      {
        CountNext(ps, k, MovedHit(n, i));
        CountNext(ps, k, CarriedHit(n, i));
      }
      forall i, j | 0 <= i < n && 0 <= j < n
        ensures coChange[i, j] == CoChange(ps[..k + 1], n, i, j) && coPresent[i, j] == CoPresent(ps[..k + 1], n, i, j)
      {
        CountNext(ps, k, BothMoved(n, i, j));
        CountNext(ps, k, BothCarried(n, i, j));
      }
    }

    method Result(ghost ps: seq<seq<byte>>) returns (c: Counts)
      requires Valid() && Hold(ps)
      ensures c == CountsOf(ps, n)
    {
      var cc := Rows(coChange);
      var cp := Rows(coPresent);
      c := Counts(changed[..], present[..], cc, cp);
      ghost var s := CountsOf(ps, n);
      assert c.changed == s.changed && c.present == s.present;
      SameMatrix(cc, s.coChange);
      SameMatrix(cp, s.coPresent);
    }
  }

  lemma SameMatrix<T>(a: Matrix<T>, b: Matrix<T>)
    requires |a| == |b| && forall i :: 0 <= i < |a| ==> |a[i]| == |b[i]|
    requires forall i, j :: 0 <= i < |a| && 0 <= j < |a[i]| ==> a[i][j] == b[i][j]
    ensures a == b
  {
    forall i | 0 <= i < |a| ensures a[i] == b[i] {
    }
  }

  /** The rows of a square array. */
  method Rows(m: array2<nat>) returns (rows: Matrix<nat>)
    requires m.Length0 == m.Length1
    ensures |rows| == m.Length0 && forall i :: 0 <= i < |rows| ==> |rows[i]| == m.Length1
    ensures forall i, j :: 0 <= i < m.Length0 && 0 <= j < m.Length1 ==> rows[i][j] == m[i, j]
  {
    rows := [];
    for i := 0 to m.Length0
      invariant |rows| == i && forall k :: 0 <= k < i ==> |rows[k]| == m.Length1
      invariant forall k, j :: 0 <= k < i && 0 <= j < m.Length1 ==> rows[k][j] == m[k, j]
    {
      var row: seq<nat> := [];
      for j := 0 to m.Length1
        invariant |row| == j && forall l :: 0 <= l < j ==> row[l] == m[i, l]
      {
        row := row + [m[i, j]];
      }
      rows := rows + [row];
    }
  }

  /** The counts of one identifier from its payloads. */
  method ProfileCounts(payloads: seq<seq<byte>>, maxBytes: nat) returns (maxByte: nat, byteCount: nat, counts: Counts)
    ensures maxByte == MaxLength(payloads) && byteCount == Min(maxByte, maxBytes)
    ensures counts == CountsOf(payloads, byteCount)
  {
    maxByte := 0;
    for k := 0 to |payloads|
      invariant maxByte == MaxLength(payloads[..k])
    {
      TakeNext(payloads, k);
      if |payloads[k]| > maxByte {
        maxByte := |payloads[k]|;
      }
    }
    assert payloads[..|payloads|] == payloads;
    byteCount := Min(maxByte, maxBytes);
    var t := new Tallies(byteCount);
    t.Walk(payloads);
    counts := t.Result(payloads);
  }

  /* ---- the packed twin: flat row-major counts and a change bitmask ----------------------------------------- */

  function Flat(i: nat, j: nat, n: nat): (k: nat)
    requires i < n && j < n
    ensures k < n * n
  {
    FlatBound(i, n);
    i * n + j
  }

  lemma FlatBound(i: nat, n: nat)
    requires i < n
    ensures i * n + n <= n * n
  {
    RowsApart(i, n, n);
  }

  lemma RowsApart(i: nat, k: nat, n: nat)
    requires i < k
    ensures i * n + n <= k * n
    decreases k
  {
    if i + 1 < k {
      RowsApart(i, k - 1, n);
    }
    assert k * n == (k - 1) * n + n;
  }

  lemma FlatInjective(i: nat, j: nat, k: nat, l: nat, n: nat)
    requires i < n && j < n && k < n && l < n
    ensures Flat(i, j, n) == Flat(k, l, n) <==> i == k && j == l
  {
    if i < k {
      RowsApart(i, k, n);
    } else if k < i {
      RowsApart(k, i, n);
    }
  }

  /** Entry (i, j) of a flat matrix. */
  function At(m: array<nat>, i: nat, j: nat, n: nat): nat
    requires i < n && j < n && m.Length == n * n
    reads m
  {
    m[Flat(i, j, n)]
  }

  method Bump(m: array<nat>, i: nat, j: nat, n: nat)
    requires i < n && j < n && m.Length == n * n
    modifies m
    ensures forall k, l :: 0 <= k < n && 0 <= l < n ==>
      At(m, k, l, n) == old(At(m, k, l, n)) + (if k == i && l == j then 1 else 0)
  {
    forall k, l | 0 <= k < n && 0 <= l < n ensures Flat(k, l, n) == Flat(i, j, n) <==> k == i && l == j {
      FlatInjective(k, l, i, j, n);
    }
    m[Flat(i, j, n)] := m[Flat(i, j, n)] + 1;
  }

  /** The marginals of one pair, and its changed bytes as a mask. */
  method ChangeMask(data: seq<byte>, dlc: seq<nat>, prev: nat, cur: nat, n: nat, changed: array<nat>,
                    present: array<nat>)
    returns (mask: nat)
    requires Columns(data, dlc) && prev < |dlc| && cur < |dlc|
    requires changed.Length == present.Length == n && changed != present
    modifies changed, present
    ensures var a, b := PayloadAt(data, dlc, prev), PayloadAt(data, dlc, cur);
      && (forall i :: 0 <= i < Comparable(a, b, n) ==> (Bit(mask, i) == 1 <==> Moved(a, b, n, i)))
      && forall i :: 0 <= i < n ==>
           changed[i] == old(changed[i]) + (if Moved(a, b, n, i) then 1 else 0)
           && present[i] == old(present[i]) + (if Carried(a, b, n, i) then 1 else 0)
  {
    var common := Min(Min(dlc[prev], dlc[cur]), n);
    ghost var a, b := PayloadAt(data, dlc, prev), PayloadAt(data, dlc, cur);
    mask := 0;
    forall k ensures Bit(0, k) == 0 {
      ShrZero(k);
    }
    for i := 0 to common
      invariant forall k :: 0 <= k < common ==> (Bit(mask, k) == 1 <==> k < i && Moved(a, b, n, k))
      invariant forall k :: 0 <= k < n ==>
        changed[k] == old(changed[k]) + (if k < i && Moved(a, b, n, k) then 1 else 0)
        && present[k] == old(present[k]) + (if k < i then 1 else 0)
    {
      present[i] := present[i] + 1;
      if data[prev * STRIDE + i] != data[cur * STRIDE + i] {
        forall k | 0 <= k < common ensures Bit(SetAt(mask, i), k) == if k == i then 1 else Bit(mask, k) {
          BitOfSetAt(mask, i, k);
        }
        mask := SetAt(mask, i);
        changed[i] := changed[i] + 1;
      }
    }
  }

  /** The upper triangle of one pair, from the mask, mirrored. */
  method MaskCouples(ghost a: seq<byte>, ghost b: seq<byte>, common: nat, mask: nat, n: nat, coChange: array<nat>,
                     coPresent: array<nat>)
    requires coChange.Length == coPresent.Length == n * n && coChange != coPresent && common == Comparable(a, b, n)
    requires forall i :: 0 <= i < common ==> (Bit(mask, i) == 1 <==> Moved(a, b, n, i))
    modifies coChange, coPresent
    ensures forall i, j :: 0 <= i < n && 0 <= j < n ==>
      At(coPresent, i, j, n) == old(At(coPresent, i, j, n)) + (if BothCarried(n, i, j)(a, b) then 1 else 0)
      && At(coChange, i, j, n) == old(At(coChange, i, j, n)) + (if BothMoved(n, i, j)(a, b) then 1 else 0)
  {
    for i := 0 to common
      invariant forall k, l :: 0 <= k < n && 0 <= l < n ==>
        At(coPresent, k, l, n)
          == old(At(coPresent, k, l, n)) + (if Before(k, l, i, 0) && BothCarried(n, k, l)(a, b) then 1 else 0)
        && At(coChange, k, l, n)
           == old(At(coChange, k, l, n)) + (if Before(k, l, i, 0) && BothMoved(n, k, l)(a, b) then 1 else 0)
    {
      for j := i + 1 to common
        invariant forall k, l :: 0 <= k < n && 0 <= l < n ==>
          At(coPresent, k, l, n)
            == old(At(coPresent, k, l, n)) + (if Before(k, l, i, j) && BothCarried(n, k, l)(a, b) then 1 else 0)
          && At(coChange, k, l, n)
             == old(At(coChange, k, l, n)) + (if Before(k, l, i, j) && BothMoved(n, k, l)(a, b) then 1 else 0)
      {
        Bump(coPresent, i, j, n);
        Bump(coPresent, j, i, n);
        if Bit(mask, i) == 1 && Bit(mask, j) == 1 {
          Bump(coChange, i, j, n);
          Bump(coChange, j, i, n);
        }
      }
    }
  }

  /** The flat arrays hold the counts over `ps`. */
  ghost predicate FlatHold(ps: seq<seq<byte>>, n: nat, changed: array<nat>, present: array<nat>, coChange: array<nat>,
                           coPresent: array<nat>)
    requires changed.Length == present.Length == n && coChange.Length == coPresent.Length == n * n
    reads changed, present, coChange, coPresent
  {
    && (forall i :: 0 <= i < n ==> changed[i] == Changed(ps, n, i) && present[i] == Present(ps, n, i))
    && (forall i, j :: 0 <= i < n && 0 <= j < n ==>
          At(coChange, i, j, n) == CoChange(ps, n, i, j) && At(coPresent, i, j, n) == CoPresent(ps, n, i, j))
  }

  method TallyPair(data: seq<byte>, dlc: seq<nat>, indices: seq<nat>, k: nat, n: nat,
                   changed: array<nat>, present: array<nat>, coChange: array<nat>, coPresent: array<nat>)
    requires Columns(data, dlc) && Within(indices, |dlc|) && 1 <= k < |indices|
    requires changed.Length == present.Length == n && coChange.Length == coPresent.Length == n * n
    requires changed != present && coChange != coPresent && {changed, present} !! {coChange, coPresent}
    requires FlatHold(PayloadsAt(data, dlc, indices)[..k], n, changed, present, coChange, coPresent)
    modifies changed, present, coChange, coPresent
    ensures FlatHold(PayloadsAt(data, dlc, indices)[..k + 1], n, changed, present, coChange, coPresent)
  {
    var prev, cur := indices[k - 1], indices[k];
    ghost var ps := PayloadsAt(data, dlc, indices);
    ghost var a, b := ps[k - 1], ps[k];
    var mask := ChangeMask(data, dlc, prev, cur, n, changed, present);
    MaskCouples(a, b, Min(Min(dlc[prev], dlc[cur]), n), mask, n, coChange, coPresent);
    forall i | 0 <= i < n
      ensures changed[i] == Changed(ps[..k + 1], n, i) && present[i] == Present(ps[..k + 1], n, i)
    {
      CountNext(ps, k, MovedHit(n, i));
      CountNext(ps, k, CarriedHit(n, i));
    }
    forall i, j | 0 <= i < n && 0 <= j < n
      ensures At(coChange, i, j, n) == CoChange(ps[..k + 1], n, i, j)
              && At(coPresent, i, j, n) == CoPresent(ps[..k + 1], n, i, j)
    {
      CountNext(ps, k, BothMoved(n, i, j));
      CountNext(ps, k, BothCarried(n, i, j));
    }
  }

  /** The tally in flat form. */
  method JsCoocTally(data: seq<byte>, dlc: seq<nat>, indices: seq<nat>, n: nat)
    returns (changed: array<nat>, present: array<nat>, coChange: array<nat>, coPresent: array<nat>)
    requires Columns(data, dlc) && Within(indices, |dlc|)
    ensures changed.Length == present.Length == n && coChange.Length == coPresent.Length == n * n
    ensures FlatHold(PayloadsAt(data, dlc, indices), n, changed, present, coChange, coPresent)
  {
    changed, present := new nat[n](_ => 0), new nat[n](_ => 0);
    coChange, coPresent := new nat[n * n](_ => 0), new nat[n * n](_ => 0);
    ghost var ps := PayloadsAt(data, dlc, indices);
    var k := 1;
    while k < |indices|
      invariant 1 <= k <= Max(|indices|, 1)
      invariant FlatHold(ps[..Min(k, |ps|)], n, changed, present, coChange, coPresent)
    {
      TallyPair(data, dlc, indices, k, n, changed, present, coChange, coPresent);
      k := k + 1;
    }
    assert ps[..Min(k, |ps|)] == ps;
  }

  /** Expand a flat matrix. */
  method Expand(m: array<nat>, n: nat) returns (rows: Matrix<nat>)
    requires m.Length == n * n
    ensures |rows| == n && forall i :: 0 <= i < n ==> |rows[i]| == n
    ensures forall i, j :: 0 <= i < n && 0 <= j < n ==> rows[i][j] == At(m, i, j, n)
  {
    rows := [];
    for i := 0 to n
      invariant |rows| == i && forall k :: 0 <= k < i ==> |rows[k]| == n
      invariant forall k, j :: 0 <= k < i && 0 <= j < n ==> rows[k][j] == At(m, k, j, n)
    {
      var row: seq<nat> := [];
      for j := 0 to n
        invariant |row| == j && forall l :: 0 <= l < j ==> row[l] == At(m, i, l, n)
      {
        row := row + [At(m, i, j, n)];
      }
      rows := rows + [row];
    }
  }

  /** The counts of one identifier from a packed window. */
  method ProfileCountsPacked(p: Packed, indices: seq<nat>, maxBytes: nat)
    returns (maxByte: nat, byteCount: nat, counts: Counts)
    requires Columns(p.data, p.dlc) && Within(indices, |p.dlc|)
    ensures maxByte == MaxLength(PayloadsAt(p.data, p.dlc, indices)) && byteCount == Min(maxByte, maxBytes)
    ensures counts == CountsOf(PayloadsAt(p.data, p.dlc, indices), byteCount)
  {
    ghost var ps := PayloadsAt(p.data, p.dlc, indices);
    maxByte := 0;
    for k := 0 to |indices|
      invariant maxByte == MaxLength(ps[..k])
    {
      TakeNext(ps, k);
      if p.dlc[indices[k]] > maxByte {
        maxByte := p.dlc[indices[k]];
      }
    }
    assert ps[..|indices|] == ps;
    byteCount := Min(maxByte, maxBytes);
    var changed, present, coChange, coPresent := JsCoocTally(p.data, p.dlc, indices, byteCount);
    var cc := Expand(coChange, byteCount);
    var cp := Expand(coPresent, byteCount);
    counts := Counts(changed[..], present[..], cc, cp);
    ghost var s := CountsOf(ps, byteCount);
    assert counts.changed == s.changed && counts.present == s.present;
    SameMatrix(cc, s.coChange);
    SameMatrix(cp, s.coPresent);
  }

  /* ---- read-outs -------------------------------------------------------------------------------------------- */

  ghost predicate Shaped(c: Counts, n: nat) {
    |c.changed| == n && |c.coChange| == n && forall i :: 0 <= i < n ==> |c.coChange[i]| == n
  }

  /** The coupling of each pair of different bytes; the diagonal stays 0. */
  ghost function Couplings(c: Counts, n: nat): Matrix<real>
    requires Shaped(c, n)
  {
    Table(n, (i: nat, j: nat) =>
      if i < n && j < n && i != j then Jaccard(c.changed[i], c.changed[j], c.coChange[i][j]) else 0.0)
  }

  /** The share of the changes of byte `i` in which byte `j` changed too. */
  ghost function Conditionals(c: Counts, n: nat): Matrix<real>
    requires Shaped(c, n)
  {
    Table(n, (i: nat, j: nat) => if i < n && j < n && i != j then Conditional(c.changed[i], c.coChange[i][j]) else 0.0)
  }

  method DeriveRatios(c: Counts, n: nat) returns (jaccard: Matrix<real>, conditional: Matrix<real>)
    requires Shaped(c, n)
    ensures jaccard == Couplings(c, n) && conditional == Conditionals(c, n)
  {
    ghost var js, cs := Couplings(c, n), Conditionals(c, n);
    jaccard, conditional := [], [];
    for i := 0 to n
      invariant jaccard == js[..i] && conditional == cs[..i]
    {
      var jr, cr := RatioRow(c, n, i);
      TakeNext(js, i);
      TakeNext(cs, i);
      jaccard, conditional := jaccard + [jr], conditional + [cr];
    }
  }

  method RatioRow(c: Counts, n: nat, i: nat) returns (jr: seq<real>, cr: seq<real>)
    requires Shaped(c, n) && i < n
    ensures jr == Couplings(c, n)[i] && cr == Conditionals(c, n)[i]
  {
    ghost var js, cs := Couplings(c, n)[i], Conditionals(c, n)[i];
    jr, cr := [], [];
    for j := 0 to n
      invariant jr == js[..j] && cr == cs[..j]
    {
      TakeNext(js, j);
      TakeNext(cs, j);
      var both: int := c.coChange[i][j];
      var union := c.changed[i] + c.changed[j] - both;
      jr := jr + [if i == j then 0.0 else if union > 0 then both as real / union as real else 0.0];
      cr := cr + [if i == j then 0.0 else if c.changed[i] > 0 then both as real / c.changed[i] as real else 0.0];
    }
  }

  datatype CoChangeGroup = CoChangeGroup(startByte: nat, endByte: nat, minJaccard: real, excluded: bool)

  ghost predicate Square(m: Matrix<real>, n: nat) {
    |m| == n && forall i :: 0 <= i < n ==> |m[i]| == n
  }

  /** The coupling of byte `b` with the next. */
  function Link(m: Matrix<real>, n: nat, b: nat): real
    requires Square(m, n) && b + 1 < n
  {
    m[b][b + 1]
  }

  predicate Tight(m: Matrix<real>, n: nat, t: real, b: nat)
    requires Square(m, n)
  {
    b + 1 < n && Link(m, n, b) >= t
  }

  /** A maximal run of tightly linked neighbours, its weakest link, and whether a tagged byte is in it. */
  ghost predicate IsGroup(m: Matrix<real>, n: nat, t: real, excluded: set<nat>, g: CoChangeGroup)
    requires Square(m, n)
  {
    && g.startByte < g.endByte < n
    && (forall b :: g.startByte <= b < g.endByte ==> Tight(m, n, t, b) && g.minJaccard <= Link(m, n, b))
    && (exists b :: g.startByte <= b < g.endByte && g.minJaccard == Link(m, n, b))
    && !Tight(m, n, t, g.endByte) && (g.startByte > 0 ==> !Tight(m, n, t, g.startByte - 1))
    && (g.excluded <==> exists b :: g.startByte <= b <= g.endByte && b in excluded)
  }

  /** All such runs below byte `upto`, left to right. */
  ghost predicate AreGroups(m: Matrix<real>, n: nat, t: real, excluded: set<nat>, groups: seq<CoChangeGroup>, upto: nat)
    requires Square(m, n)
  {
    AllGroups(m, n, t, excluded, groups, upto) && LeftToRight(groups) && CoverLinks(m, n, t, groups, upto)
  }

  ghost predicate AllGroups(m: Matrix<real>, n: nat, t: real, excluded: set<nat>, groups: seq<CoChangeGroup>, upto: nat)
    requires Square(m, n)
  {
    forall k :: 0 <= k < |groups| ==> IsGroup(m, n, t, excluded, groups[k]) && groups[k].endByte < upto
  }

  ghost predicate CoverLinks(m: Matrix<real>, n: nat, t: real, groups: seq<CoChangeGroup>, upto: nat)
    requires Square(m, n)
  {
    forall b :: 0 <= b < upto && Tight(m, n, t, b) ==> InSome(groups, b)
  }

  ghost predicate LeftToRight(groups: seq<CoChangeGroup>) {
    forall k, l :: 0 <= k < l < |groups| ==> groups[k].endByte < groups[l].startByte
  }

  ghost predicate InSome(groups: seq<CoChangeGroup>, b: nat) {
    exists k :: 0 <= k < |groups| && groups[k].startByte <= b < groups[k].endByte
  }

  method FindGroups(m: Matrix<real>, n: nat, t: real, excluded: set<nat>) returns (groups: seq<CoChangeGroup>)
    requires Square(m, n)
    ensures AreGroups(m, n, t, excluded, groups, n)
  {
    groups := [];
    var start := 0;
    while start + 1 < n
      invariant start <= n
      invariant AreGroups(m, n, t, excluded, groups, start)
      invariant 0 < start < n ==> !Tight(m, n, t, start - 1)
    {
      var end, minLink := Extend(m, n, t, start);
      if end > start {
        var ex := AnyExcluded(start, end, excluded);
        var g := CoChangeGroup(start, end, minLink, ex);
        OneMoreGroup(m, n, t, excluded, groups, g);
        groups := groups + [g];
        start := end + 1;
      } else {
        start := start + 1;
      }
    }
  }

  method AnyExcluded(start: nat, end: nat, excluded: set<nat>) returns (ex: bool)
    requires start <= end
    ensures ex <==> exists b :: start <= b <= end && b in excluded
  {
    ex := false;
    for b := start to end + 1
      invariant ex <==> exists k :: start <= k < b && k in excluded
    {
      if b in excluded {
        ex := true;
      }
    }
  }

  lemma OneMoreGroup(m: Matrix<real>, n: nat, t: real, excluded: set<nat>, groups: seq<CoChangeGroup>, g: CoChangeGroup)
    requires Square(m, n) && IsGroup(m, n, t, excluded, g) && AreGroups(m, n, t, excluded, groups, g.startByte)
    ensures AreGroups(m, n, t, excluded, groups + [g], g.endByte + 1)
  {
    var now := groups + [g];
    forall b | 0 <= b < g.endByte + 1 && Tight(m, n, t, b) ensures InSome(now, b) {
      if b < g.startByte {
        assert InSome(groups, b);
        var k :| 0 <= k < |groups| && groups[k].startByte <= b < groups[k].endByte;
        assert now[k] == groups[k];
      } else {
        assert now[|groups|].startByte <= b < now[|groups|].endByte;
      }
    }
  }

  /** Extend a run while the neighbours are tightly coupled. */
  method Extend(m: Matrix<real>, n: nat, t: real, start: nat) returns (end: nat, minLink: real)
    requires Square(m, n) && start + 1 < n
    ensures start <= end < n && !Tight(m, n, t, end)
    ensures forall b :: start <= b < end ==> Tight(m, n, t, b) && minLink <= Link(m, n, b)
    ensures end > start ==> exists b :: start <= b < end && minLink == Link(m, n, b)
  {
    end, minLink := start, 0.0;
    while end + 1 < n && m[end][end + 1] >= t
      invariant start <= end < n
      invariant forall b :: start <= b < end ==> Tight(m, n, t, b) && minLink <= Link(m, n, b)
      invariant end > start ==> exists b :: start <= b < end && minLink == Link(m, n, b)
      decreases n - end
    {
      if end == start || m[end][end + 1] < minLink {
        minLink := Link(m, n, end);
      }
      end := end + 1;
    }
  }

  /** Two maximal runs that share a link are the same. */
  lemma SameGroup(m: Matrix<real>, n: nat, t: real, excluded: set<nat>, g: CoChangeGroup, h: CoChangeGroup)
    requires Square(m, n) && IsGroup(m, n, t, excluded, g) && IsGroup(m, n, t, excluded, h)
    requires h.startByte <= g.startByte < h.endByte
    ensures g == h
  {
    var before: nat := if g.startByte > 0 then g.startByte - 1 else 0;
    Inside(m, n, t, excluded, h, before);
    Inside(m, n, t, excluded, h, g.endByte);
    Inside(m, n, t, excluded, g, h.endByte);
  }

  lemma Inside(m: Matrix<real>, n: nat, t: real, excluded: set<nat>, g: CoChangeGroup, b: nat)
    requires Square(m, n) && IsGroup(m, n, t, excluded, g)
    ensures g.startByte <= b < g.endByte ==> Tight(m, n, t, b)
  {
  }

  /** A group of one list is found in the other. */
  lemma FindGroup(m: Matrix<real>, n: nat, t: real, excluded: set<nat>, a: seq<CoChangeGroup>, g: CoChangeGroup,
                  upto: nat)
    returns (k: nat)
    requires Square(m, n) && AreGroups(m, n, t, excluded, a, upto) && IsGroup(m, n, t, excluded, g) && g.endByte < upto
    ensures k < |a| && a[k] == g
  {
    Inside(m, n, t, excluded, g, g.startByte);
    assert InSome(a, g.startByte);
    k :| 0 <= k < |a| && a[k].startByte <= g.startByte < a[k].endByte;
    SameGroup(m, n, t, excluded, g, a[k]);
  }

  lemma GroupsBefore(m: Matrix<real>, n: nat, t: real, excluded: set<nat>, a: seq<CoChangeGroup>, upto: nat)
    requires Square(m, n) && a != [] && AreGroups(m, n, t, excluded, a, upto)
    ensures AreGroups(m, n, t, excluded, a[..|a| - 1], a[|a| - 1].startByte)
  {
    InitGroups(m, n, t, excluded, a, upto);
    InitCovers(m, n, t, a, upto);
  }

  lemma InitGroups(m: Matrix<real>, n: nat, t: real, excluded: set<nat>, a: seq<CoChangeGroup>, upto: nat)
    requires Square(m, n) && a != [] && AllGroups(m, n, t, excluded, a, upto) && LeftToRight(a)
    ensures AllGroups(m, n, t, excluded, a[..|a| - 1], a[|a| - 1].startByte) && LeftToRight(a[..|a| - 1])
    ensures a[|a| - 1].startByte <= upto
  {
    var init := a[..|a| - 1];
    assert forall k :: 0 <= k < |init| ==> init[k] == a[k];
    assert IsGroup(m, n, t, excluded, a[|a| - 1]);
  }

  lemma InitCovers(m: Matrix<real>, n: nat, t: real, a: seq<CoChangeGroup>, upto: nat)
    requires Square(m, n) && a != [] && CoverLinks(m, n, t, a, upto) && a[|a| - 1].startByte <= upto
    ensures CoverLinks(m, n, t, a[..|a| - 1], a[|a| - 1].startByte)
  {
    var init := a[..|a| - 1];
    forall b | 0 <= b < a[|a| - 1].startByte && Tight(m, n, t, b) ensures InSome(init, b) {
      assert InSome(a, b);
      var k :| 0 <= k < |a| && a[k].startByte <= b < a[k].endByte;
      assert k < |init| && init[k] == a[k];
    }
  }

  lemma LastGroup(m: Matrix<real>, n: nat, t: real, excluded: set<nat>, a: seq<CoChangeGroup>, b: seq<CoChangeGroup>,
                  upto: nat)
    requires Square(m, n) && AreGroups(m, n, t, excluded, a, upto) && AreGroups(m, n, t, excluded, b, upto) && a != []
    ensures b != [] && b[|b| - 1] == a[|a| - 1]
  {
    var k := FindGroup(m, n, t, excluded, b, a[|a| - 1], upto);
    var l := FindGroup(m, n, t, excluded, a, b[|b| - 1], upto);
    Proper(m, n, t, excluded, a, upto, |a| - 1);
    Proper(m, n, t, excluded, b, upto, |b| - 1);
    BothLast(a, b, k, l);
  }

  lemma Proper(m: Matrix<real>, n: nat, t: real, excluded: set<nat>, a: seq<CoChangeGroup>, upto: nat, k: nat)
    requires Square(m, n) && AreGroups(m, n, t, excluded, a, upto) && k < |a|
    ensures a[k].startByte < a[k].endByte && LeftToRight(a)
  {
  }

  lemma BothLast(a: seq<CoChangeGroup>, b: seq<CoChangeGroup>, k: nat, l: nat)
    requires k < |b| && l < |a| && LeftToRight(a) && LeftToRight(b)
    requires b[k] == a[|a| - 1] && a[l] == b[|b| - 1]
    requires a[|a| - 1].startByte < a[|a| - 1].endByte && b[|b| - 1].startByte < b[|b| - 1].endByte
    ensures b[|b| - 1] == a[|a| - 1]
  {
  }

  /** The groups are determined: equal couplings give equal groups. */
  lemma {:induction false} GroupsUnique(m: Matrix<real>, n: nat, t: real, excluded: set<nat>,
                                        a: seq<CoChangeGroup>, b: seq<CoChangeGroup>, upto: nat)
    requires Square(m, n) && AreGroups(m, n, t, excluded, a, upto) && AreGroups(m, n, t, excluded, b, upto)
    ensures a == b
    decreases |a|
  {
    if a == [] {
      if b != [] {
        var k := FindGroup(m, n, t, excluded, a, b[0], upto);
      }
    } else {
      LastGroup(m, n, t, excluded, a, b, upto);
      var g := a[|a| - 1];
      GroupsBefore(m, n, t, excluded, a, upto);
      GroupsBefore(m, n, t, excluded, b, upto);
      GroupsUnique(m, n, t, excluded, a[..|a| - 1], b[..|b| - 1], g.startByte);
      assert a == a[..|a| - 1] + [g] && b == b[..|b| - 1] + [g];
    }
  }

  /** The profile of one identifier: counts, ratios and groups. */
  datatype CoChangeProfile = CoChangeProfile(maxByte: nat, byteCount: nat, counts: Counts, jaccard: Matrix<real>,
                                             conditional: Matrix<real>, groups: seq<CoChangeGroup>)

  ghost predicate IsProfile(p: CoChangeProfile, payloads: seq<seq<byte>>, maxBytes: nat, t: real, excluded: set<nat>) {
    && p.maxByte == MaxLength(payloads) && p.byteCount == Min(p.maxByte, maxBytes)
    && p.counts == CountsOf(payloads, p.byteCount)
    && p.jaccard == Couplings(p.counts, p.byteCount) && p.conditional == Conditionals(p.counts, p.byteCount)
    && AreGroups(p.jaccard, p.byteCount, t, excluded, p.groups, p.byteCount)
  }

  method ProfileOneId(payloads: seq<seq<byte>>, maxBytes: nat, t: real, excluded: set<nat>) returns (p: CoChangeProfile)
    ensures IsProfile(p, payloads, maxBytes, t, excluded)
  {
    var maxByte, byteCount, counts := ProfileCounts(payloads, maxBytes);
    var jaccard, conditional := DeriveRatios(counts, byteCount);
    var groups := FindGroups(jaccard, byteCount, t, excluded);
    p := CoChangeProfile(maxByte, byteCount, counts, jaccard, conditional, groups);
  }

  method ProfileOneIdPacked(w: Packed, indices: seq<nat>, maxBytes: nat, t: real, excluded: set<nat>)
    returns (p: CoChangeProfile)
    requires Columns(w.data, w.dlc) && Within(indices, |w.dlc|)
    ensures IsProfile(p, PayloadsAt(w.data, w.dlc, indices), maxBytes, t, excluded)
  {
    var maxByte, byteCount, counts := ProfileCountsPacked(w, indices, maxBytes);
    var jaccard, conditional := DeriveRatios(counts, byteCount);
    var groups := FindGroups(jaccard, byteCount, t, excluded);
    p := CoChangeProfile(maxByte, byteCount, counts, jaccard, conditional, groups);
  }

  /** There is only one profile: the packed window and the frames it holds cannot give different ones. */
  lemma PackedProfileAgrees(w: Packed, fs: seq<Frame>, id: nat, maxBytes: nat, t: real, excluded: set<nat>,
                            a: CoChangeProfile, b: CoChangeProfile)
    requires Packs(w, fs)
    requires Columns(w.data, w.dlc) && Within(IndicesOf(w, id), |w.dlc|)
    requires IsProfile(a, PayloadsAt(w.data, w.dlc, IndicesOf(w, id)), maxBytes, t, excluded)
    requires IsProfile(b, PayloadsOf(fs, id), maxBytes, t, excluded)
    ensures a == b
  {
    SamePayloads(w, fs, id);
    GroupsUnique(a.jaccard, a.byteCount, t, excluded, a.groups, b.groups, a.byteCount);
  }
}
