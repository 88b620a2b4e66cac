/** Fields inferred from how often each byte changes: greedy runs of adjacent bytes with a steady gradient. */
module AutoSegmentation {
  import opened Common
  import opened Seqs
  import opened CoOccurrence

  datatype Direction = Little | Big

  datatype Segment = Segment(startByte: nat, length: nat, order: Option<Direction>, activities: seq<real>,
                             confidence: real)

  /** Change frequency of a byte over the consecutive pairs that carry it. */
  function Activity(ps: seq<seq<byte>>, n: nat, j: nat): (a: real)
  {
    var pairs := Present(ps, n, j);
    if pairs > 0 then Changed(ps, n, j) as real / pairs as real else 0.0
  }

  function Activities(ps: seq<seq<byte>>, n: nat): (a: seq<real>)
    ensures |a| == n && forall j :: 0 <= j < n ==> a[j] == Activity(ps, n, j)
  {
    seq(n, j requires 0 <= j < n => Activity(ps, n, j))
  }

  lemma ActivityInRange(ps: seq<seq<byte>>, n: nat, j: nat)
    ensures 0.0 <= Activity(ps, n, j) <= 1.0
  {
    CountLaws(ps, n, j, j);
    RatioAtMostOne(Changed(ps, n, j), Present(ps, n, j));
  }

  method MeasureActivity(ps: seq<seq<byte>>, byteCount: nat) returns (activity: array<real>)
    ensures activity[..] == Activities(ps, byteCount)
  {
    activity := new real[byteCount](_ => 0.0);
    for j := 0 to byteCount
      invariant forall k :: 0 <= k < j ==> activity[k] == Activity(ps, byteCount, k)
    {
      var a := MeasureByte(ps, byteCount, j);
      activity[j] := a;
    }
  }

  method MeasureByte(ps: seq<seq<byte>>, byteCount: nat, j: nat) returns (a: real)
    requires j < byteCount
    ensures a == Activity(ps, byteCount, j)
  {
    var pairs, changes := 0, 0;
    var i := 1;
    while i < |ps|
      invariant 1 <= i <= Max(|ps|, 1)
      invariant pairs == Present(ps[..Min(i, |ps|)], byteCount, j)
      invariant changes == Changed(ps[..Min(i, |ps|)], byteCount, j)
    {
      CountNext(ps, i, CarriedHit(byteCount, j));
      CountNext(ps, i, MovedHit(byteCount, j));
      if j < |ps[i - 1]| && j < |ps[i]| {
        pairs := pairs + 1;
        if ps[i - 1][j] != ps[i][j] {
          changes := changes + 1;
        }
      }
      i := i + 1;
    }
    assert ps[..Min(i, |ps|)] == ps;
    a := if pairs > 0 then changes as real / pairs as real else 0.0;
  }

  /* ---- segments ------------------------------------------------------------------------------------------ */

  /** What segmenting one identifier goes by. */
  datatype Profile = Profile(activity: seq<real>, excluded: set<nat>, minActivity: real, mergeRatio: real)

  predicate Active(p: Profile, j: nat)
    requires j < |p.activity|
  {
    p.activity[j] >= p.minActivity && j !in p.excluded
  }

  /** Which way a step goes, when it goes by the margin: down towards the higher byte is little-endian. */
  function StepDir(p: Profile, k: nat): Option<Direction>
    requires k + 1 < |p.activity|
  {
    var a, b := p.activity[k], p.activity[k + 1];
    if b <= a * p.mergeRatio then Some(Little) else if a <= b * p.mergeRatio then Some(Big) else None
  }

  /** The bytes [start, end) are active and every step between them goes the same way by the margin. */
  ghost predicate Run(p: Profile, start: nat, end: nat, dir: Option<Direction>) {
    && start < end <= |p.activity|
    && (forall j :: start <= j < end ==> Active(p, j))
    && (dir.None? <==> end == start + 1)
    && (forall k :: start <= k && k + 1 < end ==> StepDir(p, k) == dir)
  }

  /** The run stops for a reason: no active neighbour, no margin, or a turn. */
  ghost predicate Stuck(p: Profile, end: nat, dir: Option<Direction>)
    requires 0 < end <= |p.activity|
  {
    || end == |p.activity|
    || !Active(p, end)
    || StepDir(p, end - 1).None?
    || (dir.Some? && StepDir(p, end - 1) != dir)
  }

  ghost predicate IsSegment(p: Profile, s: Segment) {
    && s.length > 0 && Run(p, s.startByte, s.startByte + s.length, s.order) && Stuck(p, s.startByte + s.length, s.order)
    && s.activities == p.activity[s.startByte..s.startByte + s.length]
    && s.confidence == Confidence(s.activities, s.order)
  }

  ghost predicate Covers(s: Segment, j: nat) {
    s.startByte <= j < s.startByte + s.length
  }

  ghost predicate Covered(segs: seq<Segment>, j: nat) {
    exists k :: 0 <= k < |segs| && Covers(segs[k], j)
  }

  /** The segments below byte `upto`: ordered, disjoint, and covering exactly the active bytes. */
  ghost predicate Segmentation(p: Profile, segs: seq<Segment>, upto: nat)
    requires upto <= |p.activity|
  {
    && (forall k :: 0 <= k < |segs| ==> IsSegment(p, segs[k]) && segs[k].startByte + segs[k].length <= upto)
    && (forall k, l :: 0 <= k < l < |segs| ==> segs[k].startByte + segs[k].length <= segs[l].startByte)
    && (forall j :: 0 <= j < upto ==> (Active(p, j) <==> Covered(segs, j)))
  }

  method SegmentBytes(p: Profile) returns (segs: seq<Segment>)
    ensures Segmentation(p, segs, |p.activity|)
  {
    segs := [];
    var j := 0;
    while j < |p.activity|
      invariant 0 <= j <= |p.activity|
      invariant Segmentation(p, segs, j)
    {
      if !Active(p, j) {
        SkipInactive(p, segs, j);
        j := j + 1;
        continue;
      }
      var k, dir := ExtendField(p, j);
      var activities := p.activity[j..k + 1];
      var confidence := SegmentConfidence(activities, dir);
      var s := Segment(j, k + 1 - j, dir, activities, confidence);
      TakeSegment(p, segs, s);
      segs := segs + [s];
      j := k + 1;
    }
  }

  /** The fields of one identifier, from its payloads. */
  method SegmentOneId(payloads: seq<seq<byte>>, maxBytes: nat, excluded: set<nat>, minActivity: real, mergeRatio: real)
    returns (maxByte: nat, segs: seq<Segment>)
    ensures maxByte == MaxLength(payloads)
    ensures var n := Min(maxByte, maxBytes);
            Segmentation(Profile(Activities(payloads, n), excluded, minActivity, mergeRatio), segs, n)
  {
    maxByte := 0;
    for k := 0 to |payloads|
      invariant maxByte == MaxLength(payloads[..k])
    {
      TakeNext(payloads, k);
      if |payloads[k]| > maxByte {
        maxByte := |payloads[k]|;
      }
    }
    assert payloads[..|payloads|] == payloads;
    var activity := MeasureActivity(payloads, Min(maxByte, maxBytes));
    segs := SegmentBytes(Profile(activity[..], excluded, minActivity, mergeRatio));
  }

  /** Extend a field across adjacent active bytes that keep one direction with the margin. */
  method ExtendField(p: Profile, start: nat) returns (k: nat, dir: Option<Direction>)
    requires start < |p.activity| && Active(p, start)
    ensures start <= k < |p.activity| && Run(p, start, k + 1, dir) && Stuck(p, k + 1, dir)
  {
    k, dir := start, None;
    while k + 1 < |p.activity| && Active(p, k + 1)
      invariant start <= k < |p.activity| && Run(p, start, k + 1, dir)
      decreases |p.activity| - k
    {
      var stepDir := StepDir(p, k);
      if stepDir.None? {
        break;
      }
      if dir.None? {
        dir := stepDir;
      } else if dir != stepDir {
        break;
      }
      k := k + 1;
    }
  }

  lemma SkipInactive(p: Profile, segs: seq<Segment>, j: nat)
    requires j < |p.activity| && !Active(p, j) && Segmentation(p, segs, j)
    ensures Segmentation(p, segs, j + 1)
  {
  }

  lemma TakeSegment(p: Profile, segs: seq<Segment>, s: Segment)
    requires s.startByte < |p.activity| && Segmentation(p, segs, s.startByte) && IsSegment(p, s)
    ensures Segmentation(p, segs + [s], s.startByte + s.length)
  {
    var now := segs + [s];
    forall j | 0 <= j < s.startByte + s.length ensures Active(p, j) <==> Covered(now, j) {
      if j < s.startByte {
        if Covered(segs, j) {
          var k :| 0 <= k < |segs| && Covers(segs[k], j);
          assert Covers(now[k], j);
        }
        if Covered(now, j) {
          var k :| 0 <= k < |now| && Covers(now[k], j);
          assert k < |segs| && Covers(segs[k], j);
        }
      } else {
        assert Covers(now[|segs|], j);
      }
    }
  }

  /* ---- confidence -------------------------------------------------------------------------------------------- */

  /** The less and the more significant activity of step `i`. */
  function Lower(acts: seq<real>, dir: Direction, i: nat): real
    requires 0 < i < |acts|
  {
    if dir == Little then acts[i - 1] else acts[i]
  }

  function Higher(acts: seq<real>, dir: Direction, i: nat): real
    requires 0 < i < |acts|
  {
    if dir == Little then acts[i] else acts[i - 1]
  }

  /** The relative drop of a step. */
  function Drop(lo: real, hi: real): real
    requires lo != 0.0
  {
    1.0 - hi / lo
  }

  /** Sum and number of the drops of the first `n` bytes, over steps from a positive activity. */
  function Drops(acts: seq<real>, dir: Direction, n: nat): (real, nat)
    requires n <= |acts|
  {
    if n < 2 then (0.0, 0)
    else
      var (acc, steps) := Drops(acts, dir, n - 1);
      var lo, hi := Lower(acts, dir, n - 1), Higher(acts, dir, n - 1);
      if lo <= 0.0 then (acc, steps) else (acc + Drop(lo, hi), steps + 1)
  }

  function Clamp01(x: real): real {
    var capped := if x < 1.0 then x else 1.0;
    if capped > 0.0 then capped else 0.0
  }

  function Confidence(acts: seq<real>, dir: Option<Direction>): real {
    if |acts| < 2 || dir.None? then 0.5
    else
      var (acc, steps) := Drops(acts, dir.value, |acts|);
      if steps > 0 then Clamp01(acc / steps as real) else 0.5
  }

  method SegmentConfidence(activities: seq<real>, dir: Option<Direction>) returns (c: real)
    ensures c == Confidence(activities, dir)
  {
    if |activities| < 2 || dir.None? {
      return 0.5;
    }
    var acc, steps := 0.0, 0;
    for i := 1 to |activities|
      invariant (acc, steps) == Drops(activities, dir.value, i)
    {
      var lo, hi := Lower(activities, dir.value, i), Higher(activities, dir.value, i);
      if lo <= 0.0 {
        continue;
      }
      acc := acc + Drop(lo, hi);
      steps := steps + 1;
    }
    c := if steps > 0 then Clamp01(acc / steps as real) else 0.5;
  }

  /** With a positive activity floor and a ratio below 1, every step of a field is strict, by the margin. */
  lemma StrictByMargin(p: Profile, s: Segment, k: nat)
    requires IsSegment(p, s) && p.minActivity > 0.0 && p.mergeRatio < 1.0
    requires k + 1 < s.length
    ensures var a, b := s.activities[k], s.activities[k + 1];
      if s.order == Some(Little) then 0.0 < b <= a * p.mergeRatio < a else 0.0 < a <= b * p.mergeRatio < b
  {
    var a, b := s.activities[k], s.activities[k + 1];
    assert Active(p, s.startByte + k) && Active(p, s.startByte + k + 1);
    assert StepDir(p, s.startByte + k) == s.order;
    Smaller(a, p.mergeRatio);
    Smaller(b, p.mergeRatio);
  }

  lemma Smaller(a: real, r: real)
    requires r < 1.0
    ensures a > 0.0 ==> a * r < a
  {
    if a > 0.0 {
      assert a * (1.0 - r) > 0.0;
      assert a * (1.0 - r) == a - a * r;
    }
  }

  lemma DropByMargin(lo: real, hi: real, r: real)
    requires 0.0 < hi <= lo * r && lo > 0.0
    ensures 1.0 - r <= Drop(lo, hi) <= 1.0
  {
    var q := hi / lo;
    assert q * lo == hi;
    Ordered(q, r, lo);
    Ordered(0.0, q, lo);
  }

  /** Every step of a field drops by the margin at least. */
  lemma StepByMargin(p: Profile, s: Segment, k: nat)
    requires IsSegment(p, s) && p.minActivity > 0.0 && p.mergeRatio < 1.0 && s.order.Some? && 1 <= k < s.length
    ensures var lo, hi := Lower(s.activities, s.order.value, k), Higher(s.activities, s.order.value, k);
      lo > 0.0 && 1.0 - p.mergeRatio <= Drop(lo, hi) <= 1.0
  {
    StrictByMargin(p, s, k - 1);
    DropByMargin(Lower(s.activities, s.order.value, k), Higher(s.activities, s.order.value, k), p.mergeRatio);
  }

  lemma {:induction false} DropsByMargin(p: Profile, s: Segment, n: nat)
    requires IsSegment(p, s) && p.minActivity > 0.0 && p.mergeRatio < 1.0 && s.order.Some? && 1 <= n <= s.length
    ensures var (acc, steps) := Drops(s.activities, s.order.value, n);
      steps == n - 1 && (1.0 - p.mergeRatio) * steps as real <= acc <= steps as real
  {
    if n >= 2 {
      DropsByMargin(p, s, n - 1);
      StepByMargin(p, s, n - 1);
      Distribute(1.0 - p.mergeRatio, n - 2);
    }
  }

  lemma Distribute(c: real, n: nat)
    ensures c * (n + 1) as real == c * n as real + c
  {
  }

  /** Every multi-byte confidence is at least 1 - mergeRatio and at most 1; a lone byte gets a half. */
  lemma ConfidenceByMargin(p: Profile, s: Segment)
    requires IsSegment(p, s) && p.minActivity > 0.0 && p.mergeRatio < 1.0
    ensures s.length >= 2 ==> 1.0 - p.mergeRatio <= s.confidence <= 1.0
    ensures s.length == 1 ==> s.confidence == 0.5 && s.order.None?
  {
    if s.length >= 2 {
      DropsByMargin(p, s, s.length);
      var (acc, steps) := Drops(s.activities, s.order.value, s.length);
      MeanBetween(acc, steps, 1.0 - p.mergeRatio);
    }
  }

  lemma MeanBetween(acc: real, steps: nat, low: real)
    requires steps > 0 && low * steps as real <= acc <= steps as real
    ensures low <= acc / steps as real <= 1.0
  {
    QuotientBetween(acc, steps as real, low);
  }

  lemma QuotientBetween(x: real, n: real, low: real)
    requires n > 0.0 && low * n <= x <= n
    ensures low <= x / n <= 1.0
  {
    var m := x / n;
    assert m * n == x;
    Ordered(low, m, n);
    Ordered(m, 1.0, n);
  }

  lemma Ordered(a: real, b: real, n: real)
    requires n > 0.0 && a * n <= b * n
    ensures a <= b
  {
    assert (b - a) * n >= 0.0;
  }

  /** The segmentation is determined: two of the same profile are equal. */
  lemma {:induction false} SegmentationUnique(p: Profile, a: seq<Segment>, b: seq<Segment>, k: nat)
    requires Segmentation(p, a, |p.activity|) && Segmentation(p, b, |p.activity|) && k <= |a|
    ensures k <= |b| && a[..k] == b[..k]
  {
    if k > 0 {
      SegmentationUnique(p, a, b, k - 1);
      var n := k - 1;
      NextStart(p, a, b, n);
      NextStart(p, b, a, n);
      SameExtent(p, a[n], b[n]);
      TakeNext(a, n);
      TakeNext(b, n);
    }
  }

  /** After `n` common segments, the next one of a list starts within a later one of the other. */
  lemma CoveredLater(p: Profile, a: seq<Segment>, b: seq<Segment>, n: nat) returns (l: nat)
    requires Segmentation(p, a, |p.activity|) && Segmentation(p, b, |p.activity|)
    requires n < |a| && n <= |b| && a[..n] == b[..n]
    ensures n <= l < |b| && Covers(b[l], a[n].startByte)
  {
    var at := a[n].startByte;
    assert Covers(a[n], at) && Covered(a, at);
    assert Active(p, at) && Covered(b, at);
    l :| 0 <= l < |b| && Covers(b[l], at);
    NotBefore(p, a, b, n, l);
  }

  /** A segment after the first `n` common ones is not among them. */
  lemma NotBefore(p: Profile, a: seq<Segment>, b: seq<Segment>, n: nat, l: nat)
    requires Segmentation(p, a, |p.activity|) && n < |a| && n <= |b| && a[..n] == b[..n] && l < |b|
    requires Covers(b[l], a[n].startByte)
    ensures n <= l < |b|
  {
    if l < n {
      CommonPrefix(a, b, n, l);
    }
  }

  lemma CommonPrefix(a: seq<Segment>, b: seq<Segment>, n: nat, l: nat)
    requires n <= |a| && n <= |b| && a[..n] == b[..n] && l < n
    ensures a[l] == b[l]
  {
    assert a[..n][l] == a[l] && b[..n][l] == b[l];
  }

  /** The next segment of one list starts no earlier than that of the other. */
  lemma NextStart(p: Profile, a: seq<Segment>, b: seq<Segment>, n: nat)
    requires Segmentation(p, a, |p.activity|) && Segmentation(p, b, |p.activity|)
    requires n < |a| && n <= |b| && a[..n] == b[..n]
    ensures n < |b| && b[n].startByte <= a[n].startByte
  {
    var l := CoveredLater(p, a, b, n);
    assert n < l ==> b[n].startByte + b[n].length <= b[l].startByte;
  }

  /** From the same start, greedy extension ends in the same place. */
  lemma SameExtent(p: Profile, s: Segment, t: Segment)
    requires IsSegment(p, s) && IsSegment(p, t) && s.startByte == t.startByte
    ensures s == t
  {
    NotLonger(p, s, t);
    NotLonger(p, t, s);
    Steps(p, s, s.startByte);
    Steps(p, t, s.startByte);
  }

  lemma Steps(p: Profile, s: Segment, k: nat)
    requires IsSegment(p, s)
    ensures s.startByte <= k && k + 1 < s.startByte + s.length ==> Active(p, k + 1) && StepDir(p, k) == s.order
  {
  }

  /** A segment that cannot be extended is not the beginning of a longer one. */
  lemma NotLonger(p: Profile, s: Segment, t: Segment)
    requires IsSegment(p, s) && IsSegment(p, t) && s.startByte == t.startByte
    ensures t.length <= s.length
  {
    Steps(p, s, s.startByte);
    Steps(p, t, s.startByte);
    Steps(p, t, s.startByte + s.length - 1);
  }
}
