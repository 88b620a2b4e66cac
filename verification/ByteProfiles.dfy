/** How often each bit flips between consecutive frames of a message. */
module BitActivity {
  import opened Common
  import opened Seqs
  import opened Bits
  import opened Frames
  import opened Windows
  import opened CoOccurrence

  /** The bits of a pair that can be compared: whole bytes carried by both, below the cap. */
  function BitCeil(a: seq<byte>, b: seq<byte>, maxBits: nat): (n: nat)
    ensures n <= 8 * |a| && n <= 8 * |b| && n <= maxBits
  {
    Min(maxBits, 8 * Min(Min(|a|, |b|), maxBits / 8))
  }

  function BitOf(p: seq<byte>, bit: nat): nat
    requires bit < 8 * |p|
  {
    Bit(p[bit / 8], bit % 8)
  }

  predicate Flips(a: seq<byte>, b: seq<byte>, maxBits: nat, bit: nat) {
    bit < BitCeil(a, b, maxBits) && BitOf(a, bit) != BitOf(b, bit)
  }

  function ComparedHit(maxBits: nat, bit: nat): Hit {
    (a: seq<byte>, b: seq<byte>) => bit < BitCeil(a, b, maxBits)
  }

  function FlipHit(maxBits: nat, bit: nat): Hit {
    (a: seq<byte>, b: seq<byte>) => Flips(a, b, maxBits, bit)
  }

  datatype BitProfile = BitProfile(maxByte: nat, transitions: seq<nat>, pairs: seq<nat>, activity: seq<real>,
                                   constant: seq<bool>)

  function Transitions(ps: seq<seq<byte>>, maxBits: nat, bit: nat): nat {
    CountPairs(ps, FlipHit(maxBits, bit))
  }

  function Pairs(ps: seq<seq<byte>>, maxBits: nat, bit: nat): nat {
    CountPairs(ps, ComparedHit(maxBits, bit))
  }

  function Rate(transitions: nat, pairs: nat): real {
    if pairs > 0 then transitions as real / pairs as real else 0.0
  }

  function ProfileOf(ps: seq<seq<byte>>, maxBits: nat): BitProfile {
    BitProfile(MaxLength(ps), Row(maxBits, bit => Transitions(ps, maxBits, bit)),
               Row(maxBits, bit => Pairs(ps, maxBits, bit)),
               seq(maxBits, bit requires 0 <= bit < maxBits =>
                 Rate(Transitions(ps, maxBits, bit), Pairs(ps, maxBits, bit))),
               seq(maxBits, bit requires 0 <= bit < maxBits =>
                 Pairs(ps, maxBits, bit) > 0 && Transitions(ps, maxBits, bit) == 0))
  }

  /** Both arrays hold the counts over `ps`. */
  ghost predicate Hold(ps: seq<seq<byte>>, maxBits: nat, transitions: array<nat>, pairs: array<nat>)
    requires transitions.Length == pairs.Length == maxBits
    reads transitions, pairs
  {
    forall bit :: 0 <= bit < maxBits ==>
      transitions[bit] == Transitions(ps, maxBits, bit) && pairs[bit] == Pairs(ps, maxBits, bit)
  }

  method AddPair(prev: seq<byte>, cur: seq<byte>, maxBits: nat, transitions: array<nat>, pairs: array<nat>)
    requires transitions.Length == pairs.Length == maxBits && transitions != pairs
    modifies transitions, pairs
    ensures forall bit :: 0 <= bit < maxBits ==>
      transitions[bit] == old(transitions[bit]) + (if Flips(prev, cur, maxBits, bit) then 1 else 0)
      && pairs[bit] == old(pairs[bit]) + (if bit < BitCeil(prev, cur, maxBits) then 1 else 0)
  {
    var commonBytes := Min(Min(|prev|, |cur|), maxBits / 8);
    var bitCeil := Min(maxBits, commonBytes * 8);
    for bit := 0 to bitCeil
      invariant forall k :: 0 <= k < maxBits ==>
        transitions[k] == old(transitions[k]) + (if k < bit && Flips(prev, cur, maxBits, k) then 1 else 0)
        && pairs[k] == old(pairs[k]) + (if k < bit then 1 else 0)
    {
      pairs[bit] := pairs[bit] + 1;
      var a, b := Bit(prev[bit / 8], bit % 8), Bit(cur[bit / 8], bit % 8);
      if a != b {
        transitions[bit] := transitions[bit] + 1;
      }
    }
  }

  method AddPairPacked(data: seq<byte>, dlc: seq<nat>, prev: nat, cur: nat, maxBits: nat, transitions: array<nat>,
                       pairs: array<nat>)
    requires Columns(data, dlc) && prev < |dlc| && cur < |dlc|
    requires transitions.Length == pairs.Length == maxBits && transitions != pairs
    modifies transitions, pairs
    ensures var a, b := PayloadAt(data, dlc, prev), PayloadAt(data, dlc, cur);
      forall bit :: 0 <= bit < maxBits ==>
        transitions[bit] == old(transitions[bit]) + (if Flips(a, b, maxBits, bit) then 1 else 0)
        && pairs[bit] == old(pairs[bit]) + (if bit < BitCeil(a, b, maxBits) then 1 else 0)
  {
    ghost var pa, pb := PayloadAt(data, dlc, prev), PayloadAt(data, dlc, cur);
    var commonBytes := Min(Min(dlc[prev], dlc[cur]), maxBits / 8);
    var bitCeil := Min(maxBits, commonBytes * 8);
    for bit := 0 to bitCeil
      invariant forall k :: 0 <= k < maxBits ==>
        transitions[k] == old(transitions[k]) + (if k < bit && Flips(pa, pb, maxBits, k) then 1 else 0)
        && pairs[k] == old(pairs[k]) + (if k < bit then 1 else 0)
    {
      pairs[bit] := pairs[bit] + 1;
      var a, b := Bit(ByteAt(data, prev, bit / 8), bit % 8), Bit(ByteAt(data, cur, bit / 8), bit % 8);
      assert a == BitOf(pa, bit) && b == BitOf(pb, bit);
      if a != b {
        transitions[bit] := transitions[bit] + 1;
      }
    }
  }

  lemma NothingCounted(ps: seq<seq<byte>>, maxBits: nat)
    requires |ps| < 2
    ensures forall bit :: 0 <= bit < maxBits ==> Transitions(ps, maxBits, bit) == 0 && Pairs(ps, maxBits, bit) == 0
  {
  }

  lemma HoldNext(ps: seq<seq<byte>>, k: nat, maxBits: nat, t0: seq<nat>, p0: seq<nat>, t1: seq<nat>, p1: seq<nat>)
    requires 1 <= k < |ps| && |t0| == |p0| == |t1| == |p1| == maxBits
    requires forall bit :: 0 <= bit < maxBits ==>
      t0[bit] == Transitions(ps[..k], maxBits, bit) && p0[bit] == Pairs(ps[..k], maxBits, bit)
    requires forall bit :: 0 <= bit < maxBits ==>
      t1[bit] == t0[bit] + (if Flips(ps[k - 1], ps[k], maxBits, bit) then 1 else 0)
      && p1[bit] == p0[bit] + (if bit < BitCeil(ps[k - 1], ps[k], maxBits) then 1 else 0)
    ensures forall bit :: 0 <= bit < maxBits ==>
      t1[bit] == Transitions(ps[..k + 1], maxBits, bit) && p1[bit] == Pairs(ps[..k + 1], maxBits, bit)
  {
    forall bit | 0 <= bit < maxBits
      ensures t1[bit] == Transitions(ps[..k + 1], maxBits, bit) && p1[bit] == Pairs(ps[..k + 1], maxBits, bit)
    {
      CountNext(ps, k, FlipHit(maxBits, bit));
      CountNext(ps, k, ComparedHit(maxBits, bit));
    }
  }

  method LongestPayload(payloads: seq<seq<byte>>) returns (maxByte: nat)
    ensures maxByte == MaxLength(payloads)
  {
    maxByte := 0;
    for k := 0 to |payloads|
      invariant maxByte == MaxLength(payloads[..k])
    {
      TakeNext(payloads, k);
      maxByte := Max(maxByte, |payloads[k]|);
    }
    assert payloads[..|payloads|] == payloads;
  }

  method ProfileBits(payloads: seq<seq<byte>>, maxBits: nat) returns (profile: BitProfile)
    ensures profile == ProfileOf(payloads, maxBits)
  {
    var maxByte := LongestPayload(payloads);
    var transitions, pairs := new nat[maxBits](_ => 0), new nat[maxBits](_ => 0);
    var n := 1;
    NothingCounted(payloads[..Min(n, |payloads|)], maxBits);
    while n < |payloads|
      invariant 1 <= n <= Max(|payloads|, 1)
      invariant Hold(payloads[..Min(n, |payloads|)], maxBits, transitions, pairs)
    {
      ghost var t0, p0 := transitions[..], pairs[..];
      AddPair(payloads[n - 1], payloads[n], maxBits, transitions, pairs);
      HoldNext(payloads, n, maxBits, t0, p0, transitions[..], pairs[..]);
      n := n + 1;
    }
    assert payloads[..Min(n, |payloads|)] == payloads;
    profile := Derive(maxByte, maxBits, transitions, pairs, payloads);
  }

  method ProfileBitsPacked(p: Packed, indices: seq<nat>, maxBits: nat) returns (profile: BitProfile)
    requires Columns(p.data, p.dlc) && Within(indices, |p.dlc|)
    ensures profile == ProfileOf(PayloadsAt(p.data, p.dlc, indices), maxBits)
  {
    ghost var ps := PayloadsAt(p.data, p.dlc, indices);
    var maxByte := 0;
    for k := 0 to |indices|
      invariant maxByte == MaxLength(ps[..k])
    {
      TakeNext(ps, k);
      maxByte := Max(maxByte, p.dlc[indices[k]]);
    }
    assert ps[..|indices|] == ps;
    var transitions, pairs := new nat[maxBits](_ => 0), new nat[maxBits](_ => 0);
    var n := 1;
    NothingCounted(ps[..Min(n, |ps|)], maxBits);
    while n < |indices|
      invariant 1 <= n <= Max(|indices|, 1)
      invariant Hold(ps[..Min(n, |ps|)], maxBits, transitions, pairs)
    {
      ghost var t0, p0 := transitions[..], pairs[..];
      AddPairPacked(p.data, p.dlc, indices[n - 1], indices[n], maxBits, transitions, pairs);
      HoldNext(ps, n, maxBits, t0, p0, transitions[..], pairs[..]);
      n := n + 1;
    }
    assert ps[..Min(n, |ps|)] == ps;
    profile := Derive(maxByte, maxBits, transitions, pairs, ps);
  }

  /** Rates and constancy; a bit never compared is not called constant. */
  method Derive(maxByte: nat, maxBits: nat, transitions: array<nat>, pairs: array<nat>, ghost ps: seq<seq<byte>>)
    returns (profile: BitProfile)
    requires transitions.Length == pairs.Length == maxBits && Hold(ps, maxBits, transitions, pairs)
             && maxByte == MaxLength(ps)
    ensures profile == ProfileOf(ps, maxBits)
  {
    var activity, constant := new real[maxBits](_ => 0.0), new bool[maxBits](_ => false);
    for bit := 0 to maxBits
      invariant forall k :: 0 <= k < bit ==> activity[k] == Rate(transitions[k], pairs[k])
      invariant forall k :: 0 <= k < bit ==> (constant[k] <==> pairs[k] > 0 && transitions[k] == 0)
    {
      activity[bit] := if pairs[bit] > 0 then transitions[bit] as real / pairs[bit] as real else 0.0;
      constant[bit] := pairs[bit] > 0 && transitions[bit] == 0;
    }
    profile := BitProfile(maxByte, transitions[..], pairs[..], activity[..], constant[..]);
    ghost var s := ProfileOf(ps, maxBits);
    assert profile.transitions == s.transitions && profile.pairs == s.pairs;
    assert profile.activity == s.activity && profile.constant == s.constant;
  }

  lemma PackedBitsAgree(p: Packed, fs: seq<Frame>, id: nat, maxBits: nat)
    requires Packs(p, fs)
    ensures Columns(p.data, p.dlc) && Within(IndicesOf(p, id), |p.dlc|)
    ensures ProfileOf(PayloadsAt(p.data, p.dlc, IndicesOf(p, id)), maxBits) == ProfileOf(PayloadsOf(fs, id), maxBits)
  {
    SamePayloads(p, fs, id);
  }

  /** A byte changes between two frames just when one of its bits flips. */
  lemma ByteMovesIffBitFlips(a: seq<byte>, b: seq<byte>, maxBits: nat, i: nat)
    requires 8 * (i + 1) <= BitCeil(a, b, maxBits)
    ensures a[i] != b[i] <==> exists k :: FlipsIn(a, b, maxBits, i, k)
  {
    if a[i] != b[i] {
      var k := EightBitsDiffer(a[i], b[i]);
      InByte(i, k);
      assert FlipsIn(a, b, maxBits, i, k);
    } else {
      forall k | 0 <= k < 8 ensures !FlipsIn(a, b, maxBits, i, k) {
        InByte(i, k);
      }
    }
  }

  /** Bit `k` of byte `i` flips. */
  ghost predicate FlipsIn(a: seq<byte>, b: seq<byte>, maxBits: nat, i: nat, k: int) {
    0 <= k < 8 && Flips(a, b, maxBits, 8 * i + k)
  }

  lemma InByte(i: nat, k: nat)
    requires k < 8
    ensures (8 * i + k) / 8 == i && (8 * i + k) % 8 == k
  {
  }

  lemma EightBitsDiffer(x: nat, y: nat) returns (k: nat)
    requires x < 256 && y < 256 && x != y
    ensures k < 8 && Bit(x, k) != Bit(y, k)
  {
    assert Pow2(1) == 2 && Pow2(2) == 4 && Pow2(3) == 8 && Pow2(4) == 16 && Pow2(8) == 256;
    k := DifferingBit(x, y, 8);
  }

  lemma {:induction false} DifferingBit(x: nat, y: nat, w: nat) returns (k: nat)
    requires x < Pow2(w) && y < Pow2(w) && x != y
    ensures k < w && Bit(x, k) != Bit(y, k)
    decreases w
  {
    if x % 2 != y % 2 {
      k := 0;
    } else {
      k := DifferingBit(x / 2, y / 2, w - 1);
      k := k + 1;
    }
  }
}

/** The values each byte of a message takes. */
module ByteHistogram {
  import opened Common
  import opened Seqs
  import opened Frames
  import opened Windows
  import opened Tagger

  const BYTE_VALUE_BINS: nat := 256

  datatype Histogram = Histogram(counts: seq<nat>, samples: nat, distinct: nat, min: int, max: int)

  /** How many of the first `n` values occur. */
  function DistinctUpto(col: seq<nat>, n: nat): nat {
    if n == 0 then 0 else DistinctUpto(col, n - 1) + (if Tally(col, n - 1) > 0 then 1 else 0)
  }

  function MinOf(col: seq<nat>): int {
    if col == [] then -1
    else
      var m, v := MinOf(col[..|col| - 1]), col[|col| - 1];
      if m < 0 || v < m then v else m
  }

  function MaxOf(col: seq<nat>): int {
    if col == [] then -1
    else
      var m, v := MaxOf(col[..|col| - 1]), col[|col| - 1];
      if v > m then v else m
  }

  /** The histogram of a column over `bins` values. */
  function HistogramOf(col: seq<nat>, bins: nat): Histogram {
    Histogram(seq(bins, v requires 0 <= v => Tally(col, v)), |col|, DistinctUpto(col, bins), MinOf(col), MaxOf(col))
  }

  /** One more sample. */
  lemma {:induction false} DistinctNext(col: seq<nat>, v: nat, n: nat)
    ensures DistinctUpto(col + [v], n) == DistinctUpto(col, n) + (if v < n && Tally(col, v) == 0 then 1 else 0)
  {
    assert (col + [v])[..|col|] == col;
    if n > 0 {
      DistinctNext(col, v, n - 1);
    }
  }

  /** The running state after the samples `col`. */
  ghost predicate Sampled(col: seq<nat>, bins: nat, counts: array<nat>, samples: nat, distinct: nat, min: int, max: int)
    reads counts
  {
    && counts.Length == bins && (forall v :: 0 <= v < bins ==> counts[v] == Tally(col, v))
    && samples == |col| && distinct == DistinctUpto(col, bins) && min == MinOf(col) && max == MaxOf(col)
  }

  method Sample(counts: array<nat>, bins: nat, v: byte, samples0: nat, distinct0: nat, min0: int, max0: int,
                ghost col: seq<nat>)
    returns (samples: nat, distinct: nat, min: int, max: int)
    requires v < bins && Sampled(col, bins, counts, samples0, distinct0, min0, max0)
    modifies counts
    ensures Sampled(col + [v as nat], bins, counts, samples, distinct, min, max)
  {
    samples, distinct, min, max := samples0 + 1, distinct0, min0, max0;
    DistinctNext(col, v, bins);
    assert (col + [v as nat])[..|col|] == col;
    if counts[v] == 0 {
      distinct := distinct + 1;
    }
    counts[v] := counts[v] + 1;
    if min < 0 || v < min {
      min := v;
    }
    if v > max {
      max := v;
    }
  }

  lemma {:induction false} NoneDistinct(n: nat)
    ensures DistinctUpto([], n) == 0
  {
    if n > 0 {
      NoneDistinct(n - 1);
    }
  }

  method HistogramByte(payloads: seq<seq<byte>>, i: nat, bins: nat) returns (h: Histogram)
    requires bins >= BYTE_VALUE_BINS
    ensures h == HistogramOf(Column(payloads, i, Whole), bins)
  {
    var counts := new nat[bins](_ => 0);
    var samples, distinct, min, max := 0, 0, -1, -1;
    NoneDistinct(bins);
    ghost var col: seq<nat> := [];
    for k := 0 to |payloads|
      invariant col == Column(payloads[..k], i, Whole) && Sampled(col, bins, counts, samples, distinct, min, max)
    {
      ColumnNext(payloads, i, Whole, k);
      if i >= |payloads[k]| {
        continue;
      }
      var v := payloads[k][i];
      samples, distinct, min, max := Sample(counts, bins, v, samples, distinct, min, max, col);
      col := col + [v as nat];
    }
    assert payloads[..|payloads|] == payloads;
    h := Histogram(counts[..], samples, distinct, min, max);
    assert h.counts == HistogramOf(Column(payloads, i, Whole), bins).counts;
  }

  method HistogramBytePacked(p: Packed, indices: seq<nat>, i: nat, bins: nat) returns (h: Histogram)
    requires bins >= BYTE_VALUE_BINS && Columns(p.data, p.dlc) && Within(indices, |p.dlc|)
    ensures h == HistogramOf(Column(PayloadsAt(p.data, p.dlc, indices), i, Whole), bins)
  {
    ghost var ps := PayloadsAt(p.data, p.dlc, indices);
    var counts := new nat[bins](_ => 0);
    var samples, distinct, min, max := 0, 0, -1, -1;
    NoneDistinct(bins);
    ghost var col: seq<nat> := [];
    for k := 0 to |indices|
      invariant col == Column(ps[..k], i, Whole) && Sampled(col, bins, counts, samples, distinct, min, max)
    {
      ColumnNext(ps, i, Whole, k);
      if i >= p.dlc[indices[k]] {
        continue;
      }
      var v := ByteAt(p.data, indices[k], i);
      assert ps[k][i] == v;
      samples, distinct, min, max := Sample(counts, bins, v, samples, distinct, min, max, col);
      col := col + [v as nat];
    }
    assert ps[..|indices|] == ps;
    h := Histogram(counts[..], samples, distinct, min, max);
    assert h.counts == HistogramOf(Column(ps, i, Whole), bins).counts;
  }

  lemma PackedHistogramAgrees(p: Packed, fs: seq<Frame>, id: nat, i: nat, bins: nat)
    requires Packs(p, fs)
    ensures Columns(p.data, p.dlc) && Within(IndicesOf(p, id), |p.dlc|)
    ensures HistogramOf(Column(PayloadsAt(p.data, p.dlc, IndicesOf(p, id)), i, Whole), bins)
            == HistogramOf(Column(PayloadsOf(fs, id), i, Whole), bins)
  {
    SamePayloads(p, fs, id);
  }

  /* ---- what a histogram says --------------------------------------------------------------------------- */

  function SumUpto(col: seq<nat>, n: nat): nat {
    if n == 0 then 0 else SumUpto(col, n - 1) + Tally(col, n - 1)
  }

  lemma {:induction false} SumNext(col: seq<nat>, v: nat, n: nat)
    ensures SumUpto(col + [v], n) == SumUpto(col, n) + (if v < n then 1 else 0)
  {
    assert (col + [v])[..|col|] == col;
    if n > 0 {
      SumNext(col, v, n - 1);
    }
  }

  lemma {:induction false} SumNone(n: nat)
    ensures SumUpto([], n) == 0
  {
    if n > 0 {
      SumNone(n - 1);
    }
  }

  /** The counts add up to the samples. */
  lemma {:induction false} CountsSum(col: seq<nat>, bins: nat)
    requires InRange(col, bins)
    ensures SumUpto(col, bins) == |col|
    decreases |col|
  {
    if col == [] {
      SumNone(bins);
    } else {
      var init := col[..|col| - 1];
      CountsSum(init, bins);
      SumNext(init, col[|col| - 1], bins);
      assert init + [col[|col| - 1]] == col;
    }
  }

  /** The least value is sampled and none is smaller; -1 without samples. */
  lemma {:induction false} Least(col: seq<nat>) returns (at: nat)
    ensures col == [] <==> MinOf(col) == -1
    ensures col != [] ==> at < |col| && col[at] == MinOf(col)
    ensures forall k :: 0 <= k < |col| ==> MinOf(col) <= col[k]
  {
    at := 0;
    if col != [] {
      var init := col[..|col| - 1];
      at := Least(init);
      if MinOf(init) < 0 || col[|col| - 1] < MinOf(init) {
        at := |col| - 1;
      }
      assert forall k :: 0 <= k < |col| ==> col[k] == if k < |init| then init[k] else col[|col| - 1];
    }
  }

  lemma {:induction false} Greatest(col: seq<nat>) returns (at: nat)
    ensures col == [] <==> MaxOf(col) == -1
    ensures col != [] ==> at < |col| && col[at] == MaxOf(col)
    ensures forall k :: 0 <= k < |col| ==> col[k] <= MaxOf(col)
  {
    at := 0;
    if col != [] {
      var init := col[..|col| - 1];
      at := Greatest(init);
      if col[|col| - 1] > MaxOf(init) {
        at := |col| - 1;
      }
      assert forall k :: 0 <= k < |col| ==> col[k] == if k < |init| then init[k] else col[|col| - 1];
    }
  }

  lemma {:induction false} DistinctIsSetSize(col: seq<nat>, n: nat)
    ensures DistinctUpto(col, n) == |set v: nat | v < n && v in col|
  {
    if n == 0 {
      assert (set v: nat | v < 0 && v in col) == {};
    } else {
      DistinctIsSetSize(col, n - 1);
      TallyMember(col, n - 1);
      var before, now := set v: nat | v < n - 1 && v in col, set v: nat | v < n && v in col;
      assert now == before + (if n - 1 in col then {n - 1} else {});
    }
  }
}
