/** What the byte and bit profiles of a message say, as plain counts over its consecutive payloads. */
module ProfileLaws {
  import opened Common
  import opened Bits
  import opened Counting
  import opened CoOccurrence
  import BitActivity
  import AutoSegmentation

  type Payload = seq<byte>

  /* ---- pairs of payloads --------------------------------------------------------------------- */

  lemma {:induction false} CountIsPairs(ps: seq<Payload>, hit: Hit)
    ensures CountPairs(ps, hit) == PairsWhere(ps, hit)
  {
    if |ps| < 2 {
      PairsNone(ps, hit);
    } else {
      var n := |ps| - 1;
      CountIsPairs(ps[..n], hit);
      PairsSnoc(ps[..n], ps[n], hit);
      assert ps == ps[..n] + [ps[n]];
    }
  }

  /** Both payloads carry byte `i`. */
  predicate Carry(a: Payload, b: Payload, i: nat) {
    i < |a| && i < |b|
  }

  /** Byte `i` is carried by both and differs. */
  predicate Change(a: Payload, b: Payload, i: nat) {
    i < |a| && i < |b| && a[i] != b[i]
  }

  /** How often byte `i` could be compared, and how often it changed. */
  ghost function Carried2(ps: seq<Payload>, i: nat): nat {
    PairsWhere(ps, (a: Payload, b: Payload) => Carry(a, b, i))
  }

  ghost function Changes(ps: seq<Payload>, i: nat): nat {
    PairsWhere(ps, (a: Payload, b: Payload) => Change(a, b, i))
  }

  /** How often both bytes changed, and how often at least one of them. */
  ghost function BothChange(ps: seq<Payload>, i: nat, j: nat): nat {
    PairsWhere(ps, (a: Payload, b: Payload) => Change(a, b, i) && Change(a, b, j))
  }

  ghost function EitherChanges(ps: seq<Payload>, i: nat, j: nat): nat {
    PairsWhere(ps, (a: Payload, b: Payload) => Change(a, b, i) || Change(a, b, j))
  }

  ghost function BothCarry(ps: seq<Payload>, i: nat, j: nat): nat {
    PairsWhere(ps, (a: Payload, b: Payload) => Carry(a, b, i) && Carry(a, b, j))
  }

  lemma ByteCounts(ps: seq<Payload>, n: nat, i: nat)
    requires i < n
    ensures Present(ps, n, i) == Carried2(ps, i) && Changed(ps, n, i) == Changes(ps, i)
  {
    CountIsPairs(ps, CarriedHit(n, i));
    CountIsPairs(ps, MovedHit(n, i));
    PairsSame(ps, CarriedHit(n, i), (a: Payload, b: Payload) => Carry(a, b, i));
    PairsSame(ps, MovedHit(n, i), (a: Payload, b: Payload) => Change(a, b, i));
  }

  lemma PairCounts(ps: seq<Payload>, n: nat, i: nat, j: nat)
    requires i < n && j < n && i != j
    ensures CoPresent(ps, n, i, j) == BothCarry(ps, i, j) && CoChange(ps, n, i, j) == BothChange(ps, i, j)
    ensures Changed(ps, n, i) + Changed(ps, n, j) - CoChange(ps, n, i, j) == EitherChanges(ps, i, j)
  {
    CountIsPairs(ps, BothCarried(n, i, j));
    CountIsPairs(ps, BothMoved(n, i, j));
    CountIsPairs(ps, EitherMoved(n, i, j));
    JaccardDenominator(ps, n, i, j);
    PairsSame(ps, BothCarried(n, i, j), (a: Payload, b: Payload) => Carry(a, b, i) && Carry(a, b, j));
    PairsSame(ps, BothMoved(n, i, j), (a: Payload, b: Payload) => Change(a, b, i) && Change(a, b, j));
    PairsSame(ps, EitherMoved(n, i, j), (a: Payload, b: Payload) => Change(a, b, i) || Change(a, b, j));
  }

  /** The longest payload; 0 when there is none. */
  lemma {:induction false} MaxLengthIs(ps: seq<Payload>)
    ensures forall k :: 0 <= k < |ps| ==> |ps[k]| <= MaxLength(ps)
    ensures MaxLength(ps) > 0 ==> exists k :: 0 <= k < |ps| && |ps[k]| == MaxLength(ps)
  {
    if ps != [] {
      var n := |ps| - 1;
      MaxLengthIs(ps[..n]);
      assert forall k :: 0 <= k < n ==> ps[..n][k] == ps[k];
      assert MaxLength(ps) == |ps[n]| || MaxLength(ps) == MaxLength(ps[..n]);
    }
  }

  /* ---- the co-change profile ---------------------------------------------------------------------- */

  /** What a profile says of byte `i`. */
  lemma ProfileTellsByte(p: CoChangeProfile, ps: seq<Payload>, maxBytes: nat, t: real, excluded: set<nat>, i: nat)
    requires IsProfile(p, ps, maxBytes, t, excluded) && i < p.byteCount
    ensures p.byteCount == Min(maxBytes, p.maxByte)
    ensures p.counts.present[i] == Carried2(ps, i) && p.counts.changed[i] == Changes(ps, i)
    ensures p.counts.coPresent[i][i] == 0 && p.counts.coChange[i][i] == 0
    ensures p.jaccard[i][i] == 0.0 && p.conditional[i][i] == 0.0
  {
    ByteCounts(ps, p.byteCount, i);
    CountIsPairs(ps, BothCarried(p.byteCount, i, i));
    CountIsPairs(ps, BothMoved(p.byteCount, i, i));
    PairsNone(ps, BothCarried(p.byteCount, i, i));
    PairsNone(ps, BothMoved(p.byteCount, i, i));
  }

  /** What it says of two different bytes: the counts, the share of the changes of either that were
      changes of both, and the share of the changes of the first. */
  lemma ProfileTellsPair(p: CoChangeProfile, ps: seq<Payload>, maxBytes: nat, t: real, excluded: set<nat>, i: nat,
                         j: nat)
    requires IsProfile(p, ps, maxBytes, t, excluded) && i < p.byteCount && j < p.byteCount && i != j
    ensures p.counts.coPresent[i][j] == BothCarry(ps, i, j) && p.counts.coChange[i][j] == BothChange(ps, i, j)
    ensures p.jaccard[i][j] == Share(BothChange(ps, i, j), EitherChanges(ps, i, j))
    ensures p.conditional[i][j] == Share(BothChange(ps, i, j), Changes(ps, i))
  {
    ByteCounts(ps, p.byteCount, i);
    ByteCounts(ps, p.byteCount, j);
    PairCounts(ps, p.byteCount, i, j);
  }

  /** `part` of `whole`, and 0 of nothing. */
  function Share(part: nat, whole: nat): real {
    if whole == 0 then 0.0 else part as real / whole as real
  }

  /** Two neighbours are in one group exactly when their coupling reaches the threshold. */
  lemma GroupsTellNeighbours(m: Matrix<real>, n: nat, t: real, excluded: set<nat>, groups: seq<CoChangeGroup>, b: nat)
    requires Square(m, n) && AreGroups(m, n, t, excluded, groups, n) && b + 1 < n
    ensures (exists k :: 0 <= k < |groups| && groups[k].startByte <= b && b + 1 <= groups[k].endByte) <==>
            m[b][b + 1] >= t
  {
    if m[b][b + 1] >= t {
      assert Tight(m, n, t, b);
      assert InSome(groups, b);
    }
    forall k | 0 <= k < |groups| && groups[k].startByte <= b && b + 1 <= groups[k].endByte ensures m[b][b + 1] >= t {
      assert IsGroup(m, n, t, excluded, groups[k]);
      assert Tight(m, n, t, b);
    }
  }

  /** A group names its weakest coupling, and whether an excluded byte is in it. */
  lemma GroupTells(m: Matrix<real>, n: nat, t: real, excluded: set<nat>, groups: seq<CoChangeGroup>, k: nat)
    requires Square(m, n) && AreGroups(m, n, t, excluded, groups, n) && k < |groups|
    ensures var g := groups[k];
      && g.startByte < g.endByte < n
      && (forall b :: g.startByte <= b < g.endByte ==> g.minJaccard <= m[b][b + 1])
      && (exists b :: g.startByte <= b < g.endByte && g.minJaccard == m[b][b + 1])
      && (g.excluded <==> exists b :: g.startByte <= b <= g.endByte && b in excluded)
  {
    var g := groups[k];
    assert IsGroup(m, n, t, excluded, g);
    var b :| g.startByte <= b < g.endByte && g.minJaccard == Link(m, n, b);
    assert g.minJaccard == m[b][b + 1];
    forall b | g.startByte <= b < g.endByte ensures g.minJaccard <= m[b][b + 1] {
      assert g.minJaccard <= Link(m, n, b);
    }
  }

  /* ---- the bit profile -------------------------------------------------------------------------------- */

  /** A bit is compared where both payloads carry its byte, in the whole bytes below the cap. */
  predicate BitCarried(a: Payload, b: Payload, maxBits: nat, bit: nat) {
    bit / 8 < |a| && bit / 8 < |b| && bit / 8 < maxBits / 8
  }

  predicate BitDiffers(a: Payload, b: Payload, maxBits: nat, bit: nat) {
    BitCarried(a, b, maxBits, bit) && Bit(a[bit / 8], bit % 8) != Bit(b[bit / 8], bit % 8)
  }

  lemma BitCeilIs(a: Payload, b: Payload, maxBits: nat, bit: nat)
    requires bit < maxBits
    ensures bit < BitActivity.BitCeil(a, b, maxBits) <==> BitCarried(a, b, maxBits, bit)
  {
  }

  /** What the bit profile says of bit `bit`: how often it was compared, how often it differed, the share
      of that, and whether it was compared and never differed. */
  lemma BitProfileTells(ps: seq<Payload>, maxBits: nat, bit: nat)
    requires bit < maxBits
    ensures var p := BitActivity.ProfileOf(ps, maxBits);
      var compared := PairsWhere(ps, (a: Payload, b: Payload) => BitCarried(a, b, maxBits, bit));
      var differed := PairsWhere(ps, (a: Payload, b: Payload) => BitDiffers(a, b, maxBits, bit));
      && p.pairs[bit] == compared && p.transitions[bit] == differed
      && p.activity[bit] == Share(differed, compared)
      && (p.constant[bit] <==> compared > 0 && differed == 0)
  {
    var compared, differed := BitActivity.ComparedHit(maxBits, bit), BitActivity.FlipHit(maxBits, bit);
    CountIsPairs(ps, compared);
    CountIsPairs(ps, differed);
    forall a: Payload, b: Payload
      ensures compared(a, b) == BitCarried(a, b, maxBits, bit) && differed(a, b) == BitDiffers(a, b, maxBits, bit)
    {
      BitCeilIs(a, b, maxBits, bit);
    }
    PairsSame(ps, compared, (a: Payload, b: Payload) => BitCarried(a, b, maxBits, bit));
    PairsSame(ps, differed, (a: Payload, b: Payload) => BitDiffers(a, b, maxBits, bit));
  }

  /* ---- segments of active bytes ---------------------------------------------------------------------------- */

  /** The measured activity of a byte is the share of the pairs carrying it in which it changed. */
  lemma ActivityTells(ps: seq<Payload>, n: nat, j: nat)
    requires j < n
    ensures AutoSegmentation.Activities(ps, n)[j] == Share(Changes(ps, j), Carried2(ps, j))
  {
    ByteCounts(ps, n, j);
  }

  /** A byte is in a segment exactly when its activity reaches the floor and it is not excluded. */
  lemma SegmentsCoverActive(p: AutoSegmentation.Profile, segs: seq<AutoSegmentation.Segment>, j: nat)
    requires AutoSegmentation.Segmentation(p, segs, |p.activity|) && j < |p.activity|
    ensures (exists k :: 0 <= k < |segs| && segs[k].startByte <= j < segs[k].startByte + segs[k].length)
            <==> p.activity[j] >= p.minActivity && j !in p.excluded
  {
    assert AutoSegmentation.Active(p, j) <==> AutoSegmentation.Covered(segs, j);
    if AutoSegmentation.Covered(segs, j) {
      var k :| 0 <= k < |segs| && AutoSegmentation.Covers(segs[k], j);
      assert segs[k].startByte <= j < segs[k].startByte + segs[k].length;
    }
    forall k | 0 <= k < |segs| && segs[k].startByte <= j < segs[k].startByte + segs[k].length
      ensures AutoSegmentation.Covered(segs, j)
    {
      assert AutoSegmentation.Covers(segs[k], j);
    }
  }

  /** The step from byte `k` falls, or rises, to at most the ratio of the larger of the two. */
  predicate Falls(p: AutoSegmentation.Profile, k: nat)
    requires k + 1 < |p.activity|
  {
    p.activity[k + 1] <= p.activity[k] * p.mergeRatio
  }

  predicate Rises(p: AutoSegmentation.Profile, k: nat)
    requires k + 1 < |p.activity|
  {
    p.activity[k] <= p.activity[k + 1] * p.mergeRatio && !Falls(p, k)
  }

  /** Within a segment every step falls in a little-endian one and rises in a big-endian one; a segment of
      one byte has no order.  It ends before a byte that is not active or to which the step does not go on. */
  lemma SegmentSteps(p: AutoSegmentation.Profile, segs: seq<AutoSegmentation.Segment>, k: nat, j: nat)
    requires AutoSegmentation.Segmentation(p, segs, |p.activity|) && k < |segs|
    requires segs[k].startByte <= j
    ensures var s := segs[k]; var end := s.startByte + s.length;
      && end <= |p.activity| && (s.length == 1 <==> s.order.None?)
      && s.activities == p.activity[s.startByte..end]
      && (j + 1 < end ==> if s.order == Some(AutoSegmentation.Direction.Little) then Falls(p, j) else Rises(p, j))
      && (j + 1 == end < |p.activity| && p.activity[end] >= p.minActivity && end !in p.excluded ==>
            && (Falls(p, j) ==> s.order == Some(AutoSegmentation.Direction.Big))
            && (Rises(p, j) ==> s.order == Some(AutoSegmentation.Direction.Little)))
  {
    var s := segs[k];
    assert AutoSegmentation.IsSegment(p, s);
    if j + 1 < s.startByte + s.length {
      assert AutoSegmentation.StepDir(p, j) == s.order;
    }
    if j + 1 == s.startByte + s.length < |p.activity| {
      assert AutoSegmentation.Active(p, j + 1) <==> p.activity[j + 1] >= p.minActivity && j + 1 !in p.excluded;
    }
  }

  /** The confidence of a longer run is the mean of its drops, here step by step: one more step that starts
      from a positive activity adds its drop to the sum. */
  lemma DropsAdd(acts: seq<real>, dir: AutoSegmentation.Direction, n: nat)
    requires 1 <= n < |acts|
    ensures var (was, count) := AutoSegmentation.Drops(acts, dir, n);
      var (now, count') := AutoSegmentation.Drops(acts, dir, n + 1);
      var less, more := if dir.Little? then acts[n] else acts[n - 1], if dir.Little? then acts[n - 1] else acts[n];
      if more > 0.0 then now == was + (1.0 - less / more) && count' == count + 1 else now == was && count' == count
  {
  }

  /** And the confidence is that mean, cut to the range from 0 to 1, or a half when nothing was added up. */
  lemma ConfidenceIsMean(acts: seq<real>, dir: AutoSegmentation.Direction)
    ensures var (sum, count) := AutoSegmentation.Drops(acts, dir, |acts|);
      var c := AutoSegmentation.Confidence(acts, Some(dir));
      && (count == 0 ==> c == 0.5)
      && (count > 0 ==>
            var mean := sum / count as real;
            (0.0 <= mean <= 1.0 ==> c == mean) && (mean < 0.0 ==> c == 0.0) && (mean > 1.0 ==> c == 1.0))
    ensures |acts| < 2 ==> AutoSegmentation.Drops(acts, dir, |acts|) == (0.0, 0)
  {
  }
}
