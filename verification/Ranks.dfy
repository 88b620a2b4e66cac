/**
 * Rank correlation: tie-averaged ranks, exact moments over the reals, and the zero-order hold that
 * pairs two series.
 */
module Ranks {
  import opened Common
  import opened Seqs

  /* ---- ranks ------------------------------------------------------------------------------------------ */

  /** How many elements are below `v`, and how many equal it. */
  function Below(xs: seq<real>, v: real): nat {
    if xs == [] then 0 else Below(xs[..|xs| - 1], v) + (if xs[|xs| - 1] < v then 1 else 0)
  }

  function Same(xs: seq<real>, v: real): nat {
    if xs == [] then 0 else Same(xs[..|xs| - 1], v) + (if xs[|xs| - 1] == v then 1 else 0)
  }

  function Above(xs: seq<real>, v: real): nat {
    if xs == [] then 0 else Above(xs[..|xs| - 1], v) + (if xs[|xs| - 1] > v then 1 else 0)
  }

  /** The average rank: one more than half-way through the run of equals. */
  function RankOf(xs: seq<real>, v: real): real {
    Below(xs, v) as real + (Same(xs, v) + 1) as real / 2.0
  }

  function RanksOf(xs: seq<real>): (r: seq<real>)
    ensures |r| == |xs| && forall k :: 0 <= k < |xs| ==> r[k] == RankOf(xs, xs[k])
  {
    seq(|xs|, k requires 0 <= k < |xs| => RankOf(xs, xs[k]))
  }

  /** The result of sorting the indices by value: some order of them, ties in any order. */
  ghost predicate Sorts(order: seq<nat>, xs: seq<real>) {
    && |order| == |xs|
    && (forall p :: 0 <= p < |order| ==> order[p] < |xs|)
    && (forall p, q :: 0 <= p < q < |order| ==> order[p] != order[q] && xs[order[p]] <= xs[order[q]])
    && (forall k: nat :: k < |xs| ==> k in order)
  }

  ghost function Where(xs: seq<real>, p: real -> bool): set<nat> {
    set k: nat | k < |xs| && p(xs[k])
  }

  function LessThan(v: real): real -> bool {
    (x: real) => x < v
  }

  function EqualTo(v: real): real -> bool {
    (x: real) => x == v
  }

  lemma {:induction false} CountsAreSizes(xs: seq<real>, v: real)
    ensures |Where(xs, LessThan(v))| == Below(xs, v) && |Where(xs, EqualTo(v))| == Same(xs, v)
  {
    if xs == [] {
      assert Where(xs, LessThan(v)) == {} && Where(xs, EqualTo(v)) == {};
    } else {
      CountsAreSizes(xs[..|xs| - 1], v);
      WhereNext(xs, LessThan(v));
      WhereNext(xs, EqualTo(v));
    }
  }

  lemma WhereNext(xs: seq<real>, p: real -> bool)
    requires xs != []
    ensures |Where(xs, p)| == |Where(xs[..|xs| - 1], p)| + (if p(xs[|xs| - 1]) then 1 else 0)
  {
    var n := |xs| - 1;
    var init := Where(xs[..n], p);
    assert forall k :: 0 <= k < n ==> xs[..n][k] == xs[k];
    if p(xs[n]) {
      assert Where(xs, p) == init + {n};
    } else {
      assert Where(xs, p) == init;
    }
  }

  ghost function Taken(order: seq<nat>, i: nat, j: nat): set<nat>
    requires i <= j <= |order|
  {
    set p | i <= p < j :: order[p]
  }

  lemma {:induction false} TakenSize(order: seq<nat>, i: nat, j: nat)
    requires i <= j <= |order| && forall p, q :: 0 <= p < q < |order| ==> order[p] != order[q]
    ensures |Taken(order, i, j)| == j - i
    decreases j
  {
    if i == j {
      assert Taken(order, i, j) == {};
    } else {
      TakenSize(order, i, j - 1);
      assert Taken(order, i, j) == Taken(order, i, j - 1) + {order[j - 1]};
    }
  }

  /** The run of equals at [i, j) of any sorted order gets the average of the ranks it spans. */
  lemma RunRank(xs: seq<real>, order: seq<nat>, i: nat, j: nat)
    requires Sorts(order, xs) && i < j <= |xs|
    requires forall p :: i <= p < j ==> xs[order[p]] == xs[order[i]]
    requires forall p :: 0 <= p < i ==> xs[order[p]] < xs[order[i]]
    requires j < |xs| ==> xs[order[j]] != xs[order[i]]
    ensures RankOf(xs, xs[order[i]]) == (i + 1 + j) as real / 2.0
  {
    var v := xs[order[i]];
    CountsAreSizes(xs, v);
    TakenSize(order, 0, i);
    TakenSize(order, i, j);
    assert forall p :: j <= p < |order| ==> xs[order[p]] > v;
    forall k: nat | k < |xs|
      ensures k in Where(xs, LessThan(v)) <==> k in Taken(order, 0, i)
      ensures k in Where(xs, EqualTo(v)) <==> k in Taken(order, i, j)
    {
      var p := Position(order, xs, k);
    }
    assert Where(xs, LessThan(v)) == Taken(order, 0, i);
    assert Where(xs, EqualTo(v)) == Taken(order, i, j);
  }

  /** Ranks by sorted runs, whatever order the sort left ties in. */
  method TrendRanks(xs: seq<real>, order: seq<nat>) returns (r: array<real>)
    requires Sorts(order, xs)
    ensures r[..] == RanksOf(xs)
  {
    var n := |xs|;
    r := new real[n](_ => 0.0);
    var i := 0;
    while i < n
      invariant 0 <= i <= n
      invariant RunStart(xs, order, i)
      invariant forall p :: 0 <= p < i ==> r[order[p]] == RankOf(xs, xs[order[p]])
    {
      var j := i + 1;
      while j < n && xs[order[j]] == xs[order[i]]
        invariant i < j <= n
        invariant forall p :: i <= p < j ==> xs[order[p]] == xs[order[i]]
      {
        j := j + 1;
      }
      RunRank(xs, order, i, j);
      Assign(r, order, i, j, (i + 1 + j) as real / 2.0, xs);
      i := j;
    }
    AllRanked(xs, order, r);
  }

  /** The same loop as the other analyzer writes it, with `j` on the last element of the run. */
  method AverageRanks(xs: seq<real>, idx: seq<nat>) returns (ranks: array<real>)
    requires Sorts(idx, xs)
    ensures ranks[..] == RanksOf(xs)
  {
    var n := |xs|;
    ranks := new real[n](_ => 0.0);
    var i := 0;
    while i < n
      invariant 0 <= i <= n
      invariant RunStart(xs, idx, i)
      invariant forall p :: 0 <= p < i ==> ranks[idx[p]] == RankOf(xs, xs[idx[p]])
    {
      var j := i;
      while j + 1 < n && xs[idx[j + 1]] == xs[idx[i]]
        invariant i <= j < n
        invariant forall p :: i <= p < j + 1 ==> xs[idx[p]] == xs[idx[i]]
      {
        j := j + 1;
      }
      RunRank(xs, idx, i, j + 1);
      Assign(ranks, idx, i, j + 1, (i + 1 + (j + 1)) as real / 2.0, xs);
      i := j + 1;
    }
    AllRanked(xs, idx, ranks);
  }

  /** A new run starts at position `i`. */
  ghost predicate RunStart(xs: seq<real>, order: seq<nat>, i: nat)
    requires Sorts(order, xs) && i <= |xs|
  {
    i < |xs| ==> forall p :: 0 <= p < i ==> xs[order[p]] < xs[order[i]]
  }

  method Assign(r: array<real>, order: seq<nat>, i: nat, j: nat, avg: real, ghost xs: seq<real>)
    requires r.Length == |xs| && Sorts(order, xs) && i < j <= |xs|
    requires forall p :: 0 <= p < i ==> r[order[p]] == RankOf(xs, xs[order[p]])
    requires forall p :: i <= p < j ==> RankOf(xs, xs[order[p]]) == avg
    modifies r
    ensures forall p :: 0 <= p < j ==> r[order[p]] == RankOf(xs, xs[order[p]])
  {
    for k := i to j
      invariant forall p :: 0 <= p < k ==> r[order[p]] == RankOf(xs, xs[order[p]])
    {
      r[order[k]] := avg;
    }
  }

  lemma AllRanked(xs: seq<real>, order: seq<nat>, r: array<real>)
    requires Sorts(order, xs) && r.Length == |xs|
    requires forall p :: 0 <= p < |xs| ==> r[order[p]] == RankOf(xs, xs[order[p]])
    ensures r[..] == RanksOf(xs)
  {
    forall k | 0 <= k < |xs| ensures r[k] == RankOf(xs, xs[k]) {
      var p := Position(order, xs, k);
    }
  }

  lemma Position(order: seq<nat>, xs: seq<real>, k: nat) returns (p: nat)
    requires Sorts(order, xs) && k < |xs|
    ensures p < |order| && order[p] == k
  {
    assert k in order;
    p :| 0 <= p < |order| && order[p] == k;
  }

  /* ---- laws of ranks ------------------------------------------------------------------------------------- */

  function Sum(xs: seq<real>): real {
    if xs == [] then 0.0 else Sum(xs[..|xs| - 1]) + xs[|xs| - 1]
  }

  lemma {:induction false} Partition(xs: seq<real>, v: real)
    ensures Below(xs, v) + Same(xs, v) + Above(xs, v) == |xs|
  {
    if xs != [] {
      Partition(xs[..|xs| - 1], v);
    }
  }

  /** The sum of the ranks that `ys` has among `xs`. */
  function SumRanks(xs: seq<real>, ys: seq<real>): real {
    if ys == [] then 0.0 else SumRanks(xs, ys[..|ys| - 1]) + RankOf(xs, ys[|ys| - 1])
  }

  /** One more element moves the ranks of those above it by one, of its equals by a half. */
  lemma {:induction false} SumRanksGrows(xs: seq<real>, x: real, ys: seq<real>)
    ensures SumRanks(xs + [x], ys) == SumRanks(xs, ys) + Above(ys, x) as real + Same(ys, x) as real / 2.0
  {
    if ys != [] {
      SumRanksGrows(xs, x, ys[..|ys| - 1]);
      assert (xs + [x])[..|xs|] == xs;
    }
  }

  /** Ranks add up to n (n + 1) / 2. */
  lemma {:induction false} RankSum(xs: seq<real>)
    ensures SumRanks(xs, xs) == (|xs| * (|xs| + 1)) as real / 2.0
  {
    if xs != [] {
      var init, x := xs[..|xs| - 1], xs[|xs| - 1];
      RankSum(init);
      SumRanksGrows(init, x, init);
      Partition(init, x);
      assert xs == init + [x];
      assert SumRanks(xs, xs) == SumRanks(xs, init) + RankOf(xs, x);
      assert (init + [x])[..|init|] == init;
      assert Below(xs, x) == Below(init, x) && Same(xs, x) == Same(init, x) + 1;
      Triangle(|init|);
    }
  }

  lemma Triangle(n: nat)
    ensures ((n + 1) * (n + 2)) as real / 2.0 == (n * (n + 1)) as real / 2.0 + (n + 1) as real
  {
    assert (n + 1) * (n + 2) == n * (n + 1) + 2 * (n + 1);
  }

  lemma {:induction false} SumOfRanks(xs: seq<real>, ys: seq<real>)
    requires ys <= xs
    ensures Sum(RanksOf(xs)[..|ys|]) == SumRanks(xs, ys)
  {
    if ys != [] {
      var n := |ys| - 1;
      SumOfRanks(xs, ys[..n]);
      assert RanksOf(xs)[..|ys|][..n] == RanksOf(xs)[..n];
    }
  }

  lemma RanksSum(xs: seq<real>)
    ensures Sum(RanksOf(xs)) == (|xs| * (|xs| + 1)) as real / 2.0
  {
    SumOfRanks(xs, xs);
    assert RanksOf(xs)[..|xs|] == RanksOf(xs);
    RankSum(xs);
  }

  /** Two series that compare alike. */
  ghost predicate SameOrder(xs: seq<real>, ys: seq<real>) {
    |xs| == |ys| && forall i, j :: 0 <= i < |xs| && 0 <= j < |xs| ==> (xs[i] < xs[j] <==> ys[i] < ys[j])
  }

  ghost predicate ReverseOrder(xs: seq<real>, ys: seq<real>) {
    |xs| == |ys| && forall i, j :: 0 <= i < |xs| && 0 <= j < |xs| ==> (xs[i] < xs[j] <==> ys[i] > ys[j])
  }

  lemma {:induction false} SameCounts(xs: seq<real>, ys: seq<real>, n: nat, k: nat)
    requires SameOrder(xs, ys) && n <= |xs| && k < |xs|
    ensures Below(xs[..n], xs[k]) == Below(ys[..n], ys[k]) && Same(xs[..n], xs[k]) == Same(ys[..n], ys[k])
  {
    if n > 0 {
      SameCounts(xs, ys, n - 1, k);
      assert xs[..n][..n - 1] == xs[..n - 1] && ys[..n][..n - 1] == ys[..n - 1];
    }
  }

  /** Ranks do not change under any rescaling that keeps the order. */
  lemma RanksInvariant(xs: seq<real>, ys: seq<real>)
    requires SameOrder(xs, ys)
    ensures RanksOf(xs) == RanksOf(ys)
  {
    assert xs[..|xs|] == xs && ys[..|ys|] == ys;
    forall k | 0 <= k < |xs| ensures RankOf(xs, xs[k]) == RankOf(ys, ys[k]) {
      SameCounts(xs, ys, |xs|, k);
    }
  }

  lemma {:induction false} ReverseCounts(xs: seq<real>, ys: seq<real>, n: nat, k: nat)
    requires ReverseOrder(xs, ys) && n <= |xs| && k < |xs|
    ensures Above(xs[..n], xs[k]) == Below(ys[..n], ys[k]) && Same(xs[..n], xs[k]) == Same(ys[..n], ys[k])
  {
    if n > 0 {
      ReverseCounts(xs, ys, n - 1, k);
      assert xs[..n][..n - 1] == xs[..n - 1] && ys[..n][..n - 1] == ys[..n - 1];
    }
  }

  /** Turning the order round turns the ranks round. */
  lemma RanksReversed(xs: seq<real>, ys: seq<real>, k: nat)
    requires ReverseOrder(xs, ys) && k < |xs|
    ensures RanksOf(ys)[k] == (|xs| + 1) as real - RanksOf(xs)[k]
  {
    assert xs[..|xs|] == xs && ys[..|ys|] == ys;
    ReverseCounts(xs, ys, |xs|, k);
    Partition(xs, xs[k]);
  }

  /* ---- moments -------------------------------------------------------------------------------------------- */

  /** A product under a name, so that equal factors give equal products at once. */
  function Product(a: real, b: real): real {
    a * b
  }

  /** The sum of products. */
  function Dot(us: seq<real>, vs: seq<real>): real
    requires |us| == |vs|
  {
    if us == [] then 0.0 else Dot(us[..|us| - 1], vs[..|us| - 1]) + Product(us[|us| - 1], vs[|us| - 1])
  }

  function Deviations(xs: seq<real>, m: real): (d: seq<real>)
    ensures |d| == |xs| && forall k :: 0 <= k < |xs| ==> d[k] == xs[k] - m
  {
    seq(|xs|, k requires 0 <= k < |xs| => xs[k] - m)
  }

  function Mean(xs: seq<real>): real
    requires xs != []
  {
    Sum(xs) / |xs| as real
  }

  /** The sum of products of the deviations from the means. */
  function Comoment(xs: seq<real>, ys: seq<real>): real
    requires |xs| == |ys| > 0
  {
    Dot(Deviations(xs, Mean(xs)), Deviations(ys, Mean(ys)))
  }

  datatype Moments = Moments(sxy: real, sxx: real, syy: real)

  function MomentsOf(xs: seq<real>, ys: seq<real>): Moments
    requires |xs| == |ys| > 0
  {
    Moments(Comoment(xs, ys), Comoment(xs, xs), Comoment(ys, ys))
  }

  lemma DotNext(us: seq<real>, vs: seq<real>, i: nat)
    requires |us| == |vs| && i < |us|
    ensures Dot(us[..i + 1], vs[..i + 1]) == Dot(us[..i], vs[..i]) + Product(us[i], vs[i])
  {
    assert us[..i + 1][..i] == us[..i] && vs[..i + 1][..i] == vs[..i];
  }

  method Average(x: seq<real>) returns (m: real)
    requires |x| > 0
    ensures m == Mean(x)
  {
    var s := 0.0;
    for i := 0 to |x|
      invariant s == Sum(x[..i])
    {
      assert x[..i + 1][..i] == x[..i];
      s := s + x[i];
    }
    assert x[..|x|] == x;
    m := s / |x| as real;
  }

  /** The two passes of a correlation; dividing by the root of `sxx * syy` is left to the caller. */
  method PearsonMoments(x: seq<real>, y: seq<real>) returns (m: Moments)
    requires |x| == |y| > 0
    ensures m == MomentsOf(x, y)
  {
    var n := |x|;
    var mx := Average(x);
    var my := Average(y);
    ghost var us, vs := Deviations(x, mx), Deviations(y, my);
    var sxy, sxx, syy := 0.0, 0.0, 0.0;
    for i := 0 to n
      invariant sxy == Dot(us[..i], vs[..i]) && sxx == Dot(us[..i], us[..i]) && syy == Dot(vs[..i], vs[..i])
    {
      DotNext(us, vs, i);
      DotNext(us, us, i);
      DotNext(vs, vs, i);
      var dx, dy := x[i] - mx, y[i] - my;
      assert dx == us[i] && dy == vs[i];
      sxy, sxx, syy := sxy + Product(dx, dy), sxx + Product(dx, dx), syy + Product(dy, dy);
    }
    assert us[..n] == us && vs[..n] == vs;
    m := Moments(sxy, sxx, syy);
  }

  lemma MulPositive(a: real, b: real)
    requires a > 0.0 && b > 0.0
    ensures Product(a, b) > 0.0
  {
  }

  lemma Square(d: real)
    ensures Product(d, d) >= 0.0 && (Product(d, d) == 0.0 <==> d == 0.0)
  {
    if d > 0.0 {
      MulPositive(d, d);
    } else if d < 0.0 {
      MulPositive(-d, -d);
      assert Product(-d, -d) == Product(d, d);
    }
  }

  function Quadratic(t: real, a: real, b: real, c: real): real {
    t * t * a - 2.0 * t * b + c
  }

  /** `sum (t u - v)^2` as the quadratic in `t` that it is. */
  lemma {:induction false} SpreadNonnegative(us: seq<real>, vs: seq<real>, t: real)
    requires |us| == |vs|
    ensures Quadratic(t, Dot(us, us), Dot(us, vs), Dot(vs, vs)) >= 0.0
  {
    if us != [] {
      var n := |us| - 1;
      SpreadNonnegative(us[..n], vs[..n], t);
      OneSpread(us[n], vs[n], t, Dot(us[..n], us[..n]), Dot(us[..n], vs[..n]), Dot(vs[..n], vs[..n]));
    }
  }

  lemma OneSpread(u: real, v: real, t: real, a: real, b: real, c: real)
    requires Quadratic(t, a, b, c) >= 0.0
    ensures Quadratic(t, a + Product(u, u), b + Product(u, v), c + Product(v, v)) >= 0.0
  {
    var d := t * u - v;
    Square(d);
    assert d * d == t * t * (u * u) - 2.0 * t * (u * v) + v * v;
    assert t * t * (a + u * u) == t * t * a + t * t * (u * u);
    assert 2.0 * t * (b + u * v) == 2.0 * t * b + 2.0 * t * (u * v);
  }

  /** The sum of squares is nonnegative, and 0 just when every element is. */
  lemma {:induction false} SquaresNonnegative(us: seq<real>)
    ensures Dot(us, us) >= 0.0
    ensures Dot(us, us) == 0.0 <==> forall k :: 0 <= k < |us| ==> us[k] == 0.0
  {
    if us != [] {
      var n := |us| - 1;
      SquaresNonnegative(us[..n]);
      Square(us[n]);
      assert Dot(us, us) == Dot(us[..n], us[..n]) + Product(us[n], us[n]);
      assert forall k :: 0 <= k < |us| ==> us[k] == if k < n then us[..n][k] else us[n];
      assert forall k :: 0 <= k < n ==> us[..n][k] == us[k];
    }
  }

  lemma {:induction false} ZeroDot(us: seq<real>, vs: seq<real>)
    requires |us| == |vs| && forall k :: 0 <= k < |us| ==> us[k] == 0.0
    ensures Dot(us, vs) == 0.0
  {
    if us != [] {
      ZeroDot(us[..|us| - 1], vs[..|us| - 1]);
    }
  }

  /** The inequality of Cauchy and Schwarz. */
  lemma CauchySchwarz(us: seq<real>, vs: seq<real>)
    requires |us| == |vs|
    ensures Dot(us, vs) * Dot(us, vs) <= Dot(us, us) * Dot(vs, vs)
  {
    var uv, uu, vv := Dot(us, vs), Dot(us, us), Dot(vs, vs);
    SquaresNonnegative(us);
    if uu == 0.0 {
      ZeroDot(us, vs);
      assert uv * uv == 0.0 && uu * vv == 0.0;
    } else {
      var t := uv / uu;
      SpreadNonnegative(us, vs, t);
      Discriminant(uv, uu, vv, t);
    }
  }

  lemma Discriminant(uv: real, uu: real, vv: real, t: real)
    requires uu > 0.0 && t * uu == uv && Quadratic(t, uu, uv, vv) >= 0.0
    ensures uv * uv <= uu * vv
  {
    assert t * t * uu == t * (t * uu);
    var gap := vv - t * uv;
    assert gap >= 0.0;
    assert uu * gap >= 0.0;
    assert uu * gap == uu * vv - uu * t * uv;
  }

  /** Whatever root the division uses, the correlation lies between -1 and 1. */
  lemma CorrelationBounded(xs: seq<real>, ys: seq<real>, root: real)
    requires |xs| == |ys| > 0 && root > 0.0
    requires root * root == MomentsOf(xs, ys).sxx * MomentsOf(xs, ys).syy
    ensures -1.0 <= MomentsOf(xs, ys).sxy / root <= 1.0
  {
    CauchySchwarz(Deviations(xs, Mean(xs)), Deviations(ys, Mean(ys)));
    AtMostRoot(MomentsOf(xs, ys).sxy, root);
  }

  lemma AtMostRoot(s: real, root: real)
    requires root > 0.0 && s * s <= root * root
    ensures -1.0 <= s / root <= 1.0
  {
    var q := s / root;
    assert q * root == s;
    if q > 1.0 {
      Larger(q, root, s);
    } else if q < -1.0 {
      assert -q * root == -s && -s * -s == s * s;
      Larger(-q, root, -s);
    }
  }

  lemma Larger(q: real, root: real, s: real)
    requires root > 0.0 && q * root == s && q > 1.0
    ensures s * s > root * root
  {
    MulPositive(q - 1.0, root);
    assert Product(q - 1.0, root) == s - root;
    MulPositive(s - root, s + root);
    assert Product(s - root, s + root) == s * s - root * root;
  }

  lemma {:induction false} SumOfConstant(xs: seq<real>, c: real)
    requires forall k :: 0 <= k < |xs| ==> xs[k] == c
    ensures Sum(xs) == |xs| as real * c
  {
    if xs != [] {
      SumOfConstant(xs[..|xs| - 1], c);
    }
  }

  lemma ConstantMean(xs: seq<real>)
    requires xs != [] && forall k :: 0 <= k < |xs| ==> xs[k] == xs[0]
    ensures Mean(xs) == xs[0]
  {
    SumOfConstant(xs, xs[0]);
    var n := |xs| as real;
    assert n * xs[0] / n == xs[0];
  }

  /** The correlation is undefined, 0 in one analyzer and rejected in the other, just when a series is constant. */
  lemma UndefinedIffConstant(xs: seq<real>, ys: seq<real>)
    requires |xs| == |ys| > 0
    ensures MomentsOf(xs, ys).sxx == 0.0 <==> forall k :: 0 <= k < |xs| ==> xs[k] == xs[0]
  {
    var d := Deviations(xs, Mean(xs));
    SquaresNonnegative(d);
    if forall k :: 0 <= k < |xs| ==> xs[k] == xs[0] {
      ConstantMean(xs);
    }
    assert forall k :: 0 <= k < |xs| ==> (d[k] == 0.0 <==> xs[k] == Mean(xs));
  }

  /** Series in the same order correlate perfectly in rank: all moments are equal. */
  lemma SameOrderPerfect(xs: seq<real>, ys: seq<real>)
    requires SameOrder(xs, ys) && |xs| > 0
    ensures var m := MomentsOf(RanksOf(xs), RanksOf(ys)); m.sxy == m.sxx == m.syy
  {
    RanksInvariant(xs, ys);
  }

  lemma {:induction false} ReflectedDot(us: seq<real>, vs: seq<real>)
    requires |us| == |vs| && forall k :: 0 <= k < |us| ==> vs[k] == -us[k]
    ensures Dot(us, vs) == -Dot(us, us) && Dot(vs, vs) == Dot(us, us)
  {
    if us != [] {
      var n := |us| - 1;
      ReflectedDot(us[..n], vs[..n]);
      var d := us[n];
      ProductNegated(d);
    }
  }

  lemma ProductNegated(d: real)
    ensures Product(d, -d) == -Product(d, d) && Product(-d, -d) == Product(d, d)
  {
    assert d * (-d) == -(d * d);
    assert (-d) * (-d) == d * d;
  }

  lemma {:induction false} ReflectedSum(xs: seq<real>, ys: seq<real>, c: real)
    requires |xs| == |ys| && forall k :: 0 <= k < |xs| ==> ys[k] == c - xs[k]
    ensures Sum(ys) == |xs| as real * c - Sum(xs)
  {
    if xs != [] {
      ReflectedSum(xs[..|xs| - 1], ys[..|xs| - 1], c);
    }
  }

  /** Series in opposite order anti-correlate perfectly. */
  lemma ReverseOrderPerfect(xs: seq<real>, ys: seq<real>)
    requires ReverseOrder(xs, ys) && |xs| > 0
    ensures var m := MomentsOf(RanksOf(xs), RanksOf(ys)); m.sxy == -m.sxx && m.syy == m.sxx
  {
    var rx, ry, c := RanksOf(xs), RanksOf(ys), (|xs| + 1) as real;
    forall k | 0 <= k < |xs| ensures ry[k] == c - rx[k] {
      RanksReversed(xs, ys, k);
    }
    ReflectedSum(rx, ry, c);
    MeanReflected(Sum(rx), Sum(ry), |xs|, c);
    ReflectedDot(Deviations(rx, Mean(rx)), Deviations(ry, Mean(ry)));
  }

  lemma MeanReflected(sx: real, sy: real, n: nat, c: real)
    requires n > 0 && sy == n as real * c - sx
    ensures sy / n as real == c - sx / n as real
  {
    var q := sx / n as real;
    assert q * n as real == sx;
    assert sy == (c - q) * n as real;
  }

  /* ---- the zero-order hold ------------------------------------------------------------------------------------- */

  datatype Sample = Sample(tUs: int, value: real)

  /** How many candidate samples lie at or before `t`. */
  function Passed(times: seq<int>, t: int): (n: nat)
    ensures n <= |times|
  {
    if times == [] then 0 else Passed(times[..|times| - 1], t) + (if times[|times| - 1] <= t then 1 else 0)
  }

  /** Each reference sample with the candidate value held at its time; none before the first. */
  function Held(refs: seq<Sample>, times: seq<int>, values: seq<real>): seq<(real, real)>
    requires |times| == |values|
  {
    if refs == [] then []
    else
      var s := refs[|refs| - 1];
      var n := Passed(times, s.tUs);
      Held(refs[..|refs| - 1], times, values) + (if n == 0 then [] else [(s.value, values[n - 1])])
  }

  ghost predicate Ascending(times: seq<int>) {
    forall i, j :: 0 <= i <= j < |times| ==> times[i] <= times[j]
  }

  /** In an ascending series the passed samples are a prefix, so the one held is the most recent. */
  lemma {:induction false} PassedIsPrefix(times: seq<int>, t: int)
    requires Ascending(times)
    ensures forall k :: 0 <= k < |times| ==> (times[k] <= t <==> k < Passed(times, t))
  {
    if times != [] {
      PassedIsPrefix(times[..|times| - 1], t);
      assert forall k :: 0 <= k < |times| - 1 ==> times[..|times| - 1][k] == times[k];
    }
  }

  /** Sample `j` is the latest one at or before `t`. */
  predicate IsLatest(times: seq<int>, t: int, j: nat) {
    j < |times| && times[j] <= t && (j + 1 < |times| ==> t < times[j + 1])
  }

  /** The pair of a reference sample: its value, and the latest candidate value at or before it. */
  predicate IsHeld(pair: (real, real), s: Sample, times: seq<int>, values: seq<real>, j: nat)
    requires |times| == |values|
  {
    IsLatest(times, s.tUs, j) && pair == (s.value, values[j])
  }

  lemma HoldsLatest(s: Sample, times: seq<int>, values: seq<real>)
    requires |times| == |values| && Ascending(times)
    ensures var n := Passed(times, s.tUs);
      (n > 0 <==> Begun(times, s.tUs)) && (n > 0 ==> IsHeld((s.value, values[n - 1]), s, times, values, n - 1))
  {
    PassedIsPrefix(times, s.tUs);
  }

  /** The pairs are those of the reference samples at the ascending places `at`, with the candidates at `js`. */
  ghost predicate HeldAt(pairs: seq<(real, real)>, refs: seq<Sample>, times: seq<int>, values: seq<real>,
                         at: seq<nat>, js: seq<nat>)
    requires |times| == |values|
  {
    && |at| == |js| == |pairs|
    && (forall i :: 0 <= i < |at| ==> at[i] < |refs| && IsHeld(pairs[i], refs[at[i]], times, values, js[i]))
    && (forall i, k :: 0 <= i < k < |at| ==> at[i] < at[k])
  }

  lemma HeldStays(pairs: seq<(real, real)>, refs: seq<Sample>, times: seq<int>, values: seq<real>,
                  at: seq<nat>, js: seq<nat>)
    requires |times| == |values| && refs != [] && HeldAt(pairs, refs[..|refs| - 1], times, values, at, js)
    ensures HeldAt(pairs, refs, times, values, at, js) && |refs| - 1 !in at
  {
  }

  lemma HeldGrows(pairs: seq<(real, real)>, refs: seq<Sample>, times: seq<int>, values: seq<real>,
                  at: seq<nat>, js: seq<nat>, pair: (real, real), j: nat)
    requires |times| == |values| && refs != [] && HeldAt(pairs, refs, times, values, at, js)
    requires forall i :: 0 <= i < |at| ==> at[i] < |refs| - 1
    requires IsHeld(pair, refs[|refs| - 1], times, values, j)
    ensures HeldAt(pairs + [pair], refs, times, values, at + [|refs| - 1], js + [j])
  {
  }

  /** The first candidate is no later than `t`. */
  predicate Begun(times: seq<int>, t: int) {
    times != [] && times[0] <= t
  }

  /** `at` are the places of the reference samples that do not come before the first candidate. */
  ghost predicate Places(refs: seq<Sample>, times: seq<int>, at: seq<nat>) {
    forall k: nat :: k < |refs| ==> (k in at <==> Begun(times, refs[k].tUs))
  }

  lemma PlacesSnoc(refs: seq<Sample>, times: seq<int>, at: seq<nat>)
    requires refs != [] && Places(refs[..|refs| - 1], times, at) && |refs| - 1 !in at
    ensures Places(refs, times, if Begun(times, refs[|refs| - 1].tUs) then at + [|refs| - 1] else at)
  {
    var n := |refs| - 1;
    forall k: nat | k < n ensures k in at + [n] <==> k in at {
      assert (at + [n])[|at|] == n;
    }
    assert forall k: nat :: k < n ==> refs[..n][k] == refs[k];
    assert (at + [n])[|at|] == n;
  }

  /** One more reference sample. */
  lemma HeldIs(refs: seq<Sample>, times: seq<int>, values: seq<real>, m: nat)
    requires |times| == |values| && refs != [] && m == Passed(times, refs[|refs| - 1].tUs)
    ensures m == 0 ==> Held(refs, times, values) == Held(refs[..|refs| - 1], times, values)
    ensures m > 0 ==> Held(refs, times, values)
                      == Held(refs[..|refs| - 1], times, values) + [(refs[|refs| - 1].value, values[m - 1])]
  {
  }

  /** The pairs are those of exactly the reference samples that do not come before the first candidate, in order. */
  lemma {:induction false} HeldTells(refs: seq<Sample>, times: seq<int>, values: seq<real>)
    returns (at: seq<nat>, js: seq<nat>)
    requires |times| == |values| && Ascending(times)
    ensures HeldAt(Held(refs, times, values), refs, times, values, at, js) && Places(refs, times, at)
  {
    at, js := [], [];
    if refs != [] {
      var n, s := |refs| - 1, refs[|refs| - 1];
      var m, was := Passed(times, s.tUs), Held(refs[..n], times, values);
      at, js := HeldTells(refs[..n], times, values);
      HeldIs(refs, times, values, m);
      HoldsLatest(s, times, values);
      HeldStays(was, refs, times, values, at, js);
      PlacesSnoc(refs, times, at);
      if m > 0 {
        HeldGrows(was, refs, times, values, at, js, (s.value, values[m - 1]), m - 1);
        at, js := at + [n], js + [m - 1];
      }
    }
  }

  lemma {:induction false} PassedGrows(times: seq<int>, s: int, t: int)
    requires s <= t
    ensures Passed(times, s) <= Passed(times, t)
  {
    if times != [] {
      PassedGrows(times[..|times| - 1], s, t);
    }
  }

  /** Sweep both ascending series with one moving cursor. */
  method ZeroOrderHold(refs: seq<Sample>, times: seq<int>, values: seq<real>) returns (pairs: seq<(real, real)>)
    requires |times| == |values| && Ascending(times)
    requires forall i, j :: 0 <= i <= j < |refs| ==> refs[i].tUs <= refs[j].tUs
    ensures pairs == Held(refs, times, values)
  {
    pairs := [];
    var cursor, have := 0, false;
    for k := 0 to |refs|
      invariant pairs == Held(refs[..k], times, values)
      invariant 0 <= cursor <= |times| && (have <==> cursor > 0)
      invariant cursor > 0 ==> k > 0 && cursor == Passed(times, refs[k - 1].tUs)
      invariant cursor == 0 && k > 0 ==> Passed(times, refs[k - 1].tUs) == 0
    {
      var s := refs[k];
      PassedIsPrefix(times, s.tUs);
      if k > 0 {
        PassedGrows(times, refs[k - 1].tUs, s.tUs);
      }
      while cursor < |times| && times[cursor] <= s.tUs
        invariant 0 <= cursor <= |times| && (have <==> cursor > 0)
        invariant cursor <= Passed(times, s.tUs)
      {
        cursor := cursor + 1;
        have := true;
      }
      assert refs[..k + 1][..k] == refs[..k];
      assert cursor == Passed(times, s.tUs);
      if !have {
        continue;
      }
      pairs := pairs + [(s.value, values[cursor - 1])];
    }
    assert refs[..|refs|] == refs;
  }
}
