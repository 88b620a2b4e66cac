/** Counters and checksums among the bytes of a message, from payload arrays and from packed columns. */
module Tagger {
  import opened Common
  import opened Seqs
  import opened Frames
  import opened Windows

  datatype Config = Config(minTransitions: int, minFrames: int, counterThreshold: real, checksumThreshold: real)

  datatype Nibble = Low | High

  datatype Scheme = XorPrefix | Crc8 | XorAll | SumAll

  datatype Tag =
    | Counter(byteIndex: nat, nibble: Option<Nibble>, step: nat, confidence: real)
    | Checksum(byteIndex: nat, scheme: Scheme, confidence: real)

  /* ---- columns --------------------------------------------------------------------------------------- */

  /** The payloads long enough to carry byte `i`. */
  function Carriers(ps: seq<seq<byte>>, i: nat): (r: seq<seq<byte>>)
    ensures |r| <= |ps| && forall k :: 0 <= k < |r| ==> i < |r[k]|
  {
    if ps == [] then []
    else
      var n := |ps| - 1;
      Carriers(ps[..n], i) + (if i < |ps[n]| then [ps[n]] else [])
  }

  /** Byte `i` of the payloads that carry it, through `pick`. */
  function Column(ps: seq<seq<byte>>, i: nat, pick: byte -> nat): seq<nat> {
    if ps == [] then []
    else
      var n := |ps| - 1;
      Column(ps[..n], i, pick) + (if i < |ps[n]| then [pick(ps[n][i])] else [])
  }

  lemma CarriersNext(ps: seq<seq<byte>>, i: nat, k: nat)
    requires k < |ps|
    ensures Carriers(ps[..k + 1], i) == Carriers(ps[..k], i) + (if i < |ps[k]| then [ps[k]] else [])
  {
    assert ps[..k + 1][..k] == ps[..k];
  }

  lemma ColumnNext(ps: seq<seq<byte>>, i: nat, pick: byte -> nat, k: nat)
    requires k < |ps|
    ensures Column(ps[..k + 1], i, pick) == Column(ps[..k], i, pick) + (if i < |ps[k]| then [pick(ps[k][i])] else [])
  {
    assert ps[..k + 1][..k] == ps[..k];
  }

  method ColumnAt(payloads: seq<seq<byte>>, i: nat, pick: byte -> nat) returns (col: seq<nat>)
    ensures col == Column(payloads, i, pick)
  {
    col := [];
    for k := 0 to |payloads|
      invariant col == Column(payloads[..k], i, pick)
    {
      ColumnNext(payloads, i, pick, k);
      if i < |payloads[k]| {
        col := col + [pick(payloads[k][i])];
      }
    }
    assert payloads[..|payloads|] == payloads;
  }

  method ColumnAtPacked(p: Packed, indices: seq<nat>, i: nat, pick: byte -> nat) returns (col: seq<nat>)
    requires Columns(p.data, p.dlc) && Within(indices, |p.dlc|)
    ensures col == Column(PayloadsAt(p.data, p.dlc, indices), i, pick)
  {
    ghost var ps := PayloadsAt(p.data, p.dlc, indices);
    col := [];
    for k := 0 to |indices|
      invariant col == Column(ps[..k], i, pick)
    {
      ColumnNext(ps, i, pick, k);
      if i < p.dlc[indices[k]] {
        col := col + [pick(ByteAt(p.data, indices[k], i))];
      }
    }
    assert ps[..|indices|] == ps;
  }

  /* ---- counters ---------------------------------------------------------------------------------------- */

  /** The step from `a` to `b` modulo `m`; both lie below `m`. */
  function Wrapped(a: nat, b: nat, m: nat): nat
    requires m > 0
  {
    (b - a + m) % m
  }

  function Advanced(a: nat, step: nat, m: nat): nat
    requires m > 0
  {
    (a + step) % m
  }

  ghost predicate InRange(col: seq<nat>, m: nat) {
    forall k :: 0 <= k < |col| ==> col[k] < m
  }

  /** The wrapped differences of consecutive values. */
  function Deltas(col: seq<nat>, m: nat): (ds: seq<nat>)
    requires m > 0
    ensures |ds| == if col == [] then 0 else |col| - 1
    ensures forall k :: 0 <= k < |ds| ==> ds[k] == Wrapped(col[k], col[k + 1], m)
  {
    if |col| < 2 then []
    else
      var n := |col| - 1;
      var init := Deltas(col[..n], m);
      init + [Wrapped(col[n - 1], col[n], m)]
  }

  function Tally(ds: seq<nat>, d: nat): nat {
    if ds == [] then 0 else Tally(ds[..|ds| - 1], d) + (if ds[|ds| - 1] == d then 1 else 0)
  }

  /** The most frequent difference other than 0, the earliest seen among equals. */
  function Modal(order: seq<nat>, ds: seq<nat>): Option<nat> {
    if order == [] then None
    else
      var best, d := Modal(order[..|order| - 1], ds), order[|order| - 1];
      if d != 0 && Tally(ds, d) > (if best.Some? then Tally(ds, best.value) else 0) then Some(d) else best
  }

  datatype CounterHit = CounterHit(step: nat, confidence: real)

  function Detected(col: seq<nat>, m: nat, cfg: Config): Option<CounterHit>
    requires m > 0
  {
    if |col| - 1 < cfg.minTransitions then None
    else
      var ds := Deltas(col, m);
      var step := Modal(Order(ds, None), ds);
      if step.None? || |ds| == 0 then None
      else
        var confidence := Tally(ds, step.value) as real / |ds| as real;
        if confidence < cfg.counterThreshold then None else Some(CounterHit(step.value, confidence))
  }

  /** The tally map and its keys in insertion order. */
  ghost predicate Tallied(ds: seq<nat>, order: seq<nat>, counts: map<nat, nat>) {
    && order == Order(ds, None)
    && (forall d :: d in counts <==> d in ds)
    && (forall d :: d in counts ==> counts[d] == Tally(ds, d))
  }

  lemma {:induction false} TallyMember(ds: seq<nat>, d: nat)
    ensures d in ds <==> Tally(ds, d) > 0
    ensures Tally(ds, d) <= |ds|
  {
    if ds != [] {
      TallyMember(ds[..|ds| - 1], d);
      assert ds == ds[..|ds| - 1] + [ds[|ds| - 1]];
    }
  }

  lemma TallyNext(ds: seq<nat>, i: nat, order: seq<nat>, counts: map<nat, nat>)
    requires i < |ds| && Tallied(ds[..i], order, counts)
    ensures var d := ds[i];
      Tallied(ds[..i + 1], if d in counts then order else order + [d],
              counts[d := (if d in counts then counts[d] else 0) + 1])
  {
    assert ds[..i + 1][..i] == ds[..i];
    TallyMember(ds[..i], ds[i]);
  }

  method DetectCounter(col: seq<nat>, m: nat, cfg: Config) returns (hit: Option<CounterHit>)
    requires m > 0
    ensures hit == Detected(col, m, cfg)
  {
    var transitions := |col| - 1;
    if transitions < cfg.minTransitions {
      return None;
    }
    ghost var ds := Deltas(col, m);
    var order, counts := TallyDeltas(col, m);
    var bestStep, bestCount := PickModal(order, counts, ds);
    if bestStep == 0 {
      return None;
    }
    TallyMember(ds, bestStep);
    ModalOccurs(order, ds);
    var confidence := bestCount as real / transitions as real;
    if confidence < cfg.counterThreshold {
      return None;
    }
    hit := Some(CounterHit(bestStep, confidence));
  }

  method TallyDeltas(col: seq<nat>, m: nat) returns (order: seq<nat>, counts: map<nat, nat>)
    requires m > 0
    ensures Tallied(Deltas(col, m), order, counts)
  {
    ghost var ds := Deltas(col, m);
    order, counts := [], map[];
    var i := 1;
    while i < |col|
      invariant 1 <= i <= Max(|col|, 1)
      invariant Tallied(ds[..i - 1], order, counts)
    {
      var delta := Wrapped(col[i - 1], col[i], m);
      TallyNext(ds, i - 1, order, counts);
      assert ds[i - 1] == delta;
      if delta !in counts {
        order := order + [delta];
      }
      counts := counts[delta := (if delta in counts then counts[delta] else 0) + 1];
      i := i + 1;
    }
    assert ds[..i - 1] == ds;
  }

  /** The most frequent step of the tally that is not 0; 0 when there is none. */
  method PickModal(order: seq<nat>, counts: map<nat, nat>, ghost ds: seq<nat>) returns (bestStep: nat, bestCount: nat)
    requires Tallied(ds, order, counts)
    ensures Modal(order, ds) == if bestStep == 0 then None else Some(bestStep)
    ensures bestStep != 0 ==> bestCount == Tally(ds, bestStep)
  {
    bestStep, bestCount := 0, 0;
    for k := 0 to |order|
      invariant Modal(order[..k], ds) == if bestStep == 0 then None else Some(bestStep)
      invariant bestCount == if bestStep == 0 then 0 else Tally(ds, bestStep)
    {
      TakeNext(order, k);
      var delta := order[k];
      assert delta in order && delta in counts;
      if delta == 0 {
        continue;
      }
      if counts[delta] > bestCount {
        bestCount := counts[delta];
        bestStep := delta;
      }
    }
    assert order[..|order|] == order;
  }

  /** The modal step occurs, is not 0, and no other step occurs more often. */
  lemma {:induction false} ModalOccurs(order: seq<nat>, ds: seq<nat>)
    ensures Modal(order, ds).Some? ==> Modal(order, ds).value != 0 && Tally(ds, Modal(order, ds).value) > 0
    ensures Modal(order, ds).Some? ==> Modal(order, ds).value in order
    ensures forall d :: d in order && d != 0 && d in ds ==>
              Modal(order, ds).Some? && Tally(ds, d) <= Tally(ds, Modal(order, ds).value)
  {
    if order != [] {
      var init := order[..|order| - 1];
      ModalOccurs(init, ds);
      assert order == init + [order[|order| - 1]];
      forall d | d in ds ensures Tally(ds, d) > 0 {
        TallyMember(ds, d);
      }
    }
  }

  /** What a hit means: the step is not 0, no other step but 0 is more frequent, and the confidence is
      its share of the transitions. */
  lemma HitMeaning(col: seq<nat>, m: nat, cfg: Config)
    requires m > 0 && Detected(col, m, cfg).Some?
    ensures var hit, ds := Detected(col, m, cfg).value, Deltas(col, m);
      && hit.step != 0 && 0 < |ds| == |col| - 1
      && hit.confidence == Tally(ds, hit.step) as real / |ds| as real
      && cfg.counterThreshold <= hit.confidence <= 1.0
      && forall d :: d in ds && d != 0 ==> Tally(ds, d) <= Tally(ds, hit.step)
  {
    var ds := Deltas(col, m);
    var step := Modal(Order(ds, None), ds).value;
    ModalOccurs(Order(ds, None), ds);
    TallyMember(ds, step);
    AtMostOne(Tally(ds, step), |ds|);
  }

  lemma AtMostOne(a: nat, b: nat)
    requires a <= b && b > 0
    ensures a as real / b as real <= 1.0
    ensures a as real / b as real == 1.0 <==> a == b
  {
    var q := a as real / b as real;
    assert q * b as real == a as real;
  }

  /** One reading of a byte: whole or a nibble. */
  datatype Reading = Reading(hit: CounterHit, nibble: Option<Nibble>)

  /** The reading with the highest confidence; ties keep the earlier. */
  function Best(cs: seq<Option<Reading>>): Option<Reading> {
    if cs == [] then None
    else
      var best, c := Best(cs[..|cs| - 1]), cs[|cs| - 1];
      if c.None? then best
      else if best.None? || c.value.hit.confidence > best.value.hit.confidence then c
      else best
  }

  /** Reading `k` is chosen among the readings: none is more confident, and those before it are less so. */
  ghost predicate FirstHighest(cs: seq<Option<Reading>>, k: nat)
    requires k < |cs|
  {
    cs[k].Some? && forall j :: 0 <= j < |cs| && cs[j].Some? ==>
      && cs[j].value.hit.confidence <= cs[k].value.hit.confidence
      && (j < k ==> cs[j].value.hit.confidence < cs[k].value.hit.confidence)
  }

  /** The best reading is the first of the most confident ones; there is none only when there is no reading. */
  lemma {:induction false} BestIsFirstHighest(cs: seq<Option<Reading>>) returns (k: nat)
    ensures Best(cs).None? <==> forall j :: 0 <= j < |cs| ==> cs[j].None?
    ensures Best(cs).Some? ==> k < |cs| && cs[k] == Best(cs) && FirstHighest(cs, k)
  {
    k := 0;
    if cs != [] {
      var n := |cs| - 1;
      var i := BestIsFirstHighest(cs[..n]);
      assert forall j :: 0 <= j < n ==> cs[j] == cs[..n][j];
      k := if Best(cs) == Best(cs[..n]) then i else n;
    }
  }

  method BestCounter(candidates: seq<Option<Reading>>) returns (best: Option<Reading>)
    ensures best == Best(candidates)
  {
    best := None;
    for k := 0 to |candidates|
      invariant best == Best(candidates[..k])
    {
      TakeNext(candidates, k);
      var c := candidates[k];
      if c.None? {
        continue;
      }
      if best.None? || c.value.hit.confidence > best.value.hit.confidence {
        best := c;
      }
    }
    assert candidates[..|candidates|] == candidates;
  }

  const Whole: byte -> nat := (b: byte) => b
  const LowNibble: byte -> nat := (b: byte) => b % 16
  const HighNibble: byte -> nat := (b: byte) => b / 16

  function ReadingOf(hit: Option<CounterHit>, nibble: Option<Nibble>): Option<Reading> {
    if hit.Some? then Some(Reading(hit.value, nibble)) else None
  }

  function Readings(ps: seq<seq<byte>>, i: nat, cfg: Config): seq<Option<Reading>> {
    [ReadingOf(Detected(Column(ps, i, Whole), 256, cfg), None),
     ReadingOf(Detected(Column(ps, i, LowNibble), 16, cfg), Some(Low)),
     ReadingOf(Detected(Column(ps, i, HighNibble), 16, cfg), Some(High))]
  }

  /** At most one counter tag for byte `i`. */
  function CounterTags(ps: seq<seq<byte>>, i: nat, cfg: Config): seq<Tag> {
    var best := Best(Readings(ps, i, cfg));
    if best.None? then []
    else [Counter(i, best.value.nibble, best.value.hit.step, best.value.hit.confidence)]
  }

  method TagCounter(byteCol: seq<nat>, lowCol: seq<nat>, highCol: seq<nat>, i: nat, cfg: Config,
                    ghost ps: seq<seq<byte>>)
    returns (tags: seq<Tag>)
    requires byteCol == Column(ps, i, Whole) && lowCol == Column(ps, i, LowNibble)
             && highCol == Column(ps, i, HighNibble)
    ensures tags == CounterTags(ps, i, cfg)
  {
    var byteCounter := DetectCounter(byteCol, 256, cfg);
    var lowCounter := DetectCounter(lowCol, 16, cfg);
    var highCounter := DetectCounter(highCol, 16, cfg);
    var best := BestCounter([ReadingOf(byteCounter, None), ReadingOf(lowCounter, Some(Low)),
                             ReadingOf(highCounter, Some(High))]);
    tags := [];
    if best.Some? {
      tags := [Counter(i, best.value.nibble, best.value.hit.step, best.value.hit.confidence)];
    }
  }

  /* ---- a constant step --------------------------------------------------------------------------------- */

  /** Each value is `step` after the one before it, modulo `m`. */
  ghost predicate Steps(col: seq<nat>, m: nat, step: nat)
    requires m > 0
  {
    forall k :: 0 <= k && k + 1 < |col| ==> col[k + 1] == Advanced(col[k], step, m)
  }

  lemma {:induction false} AllEqualTally(ds: seq<nat>, d: nat)
    requires forall k :: 0 <= k < |ds| ==> ds[k] == d
    ensures Tally(ds, d) == |ds|
    ensures ds != [] ==> Order(ds, None) == [d]
  {
    if ds != [] {
      var n := |ds| - 1;
      AllEqualTally(ds[..n], d);
      if n > 0 {
        assert ds[..n][0] == d;
      }
    }
  }

  /** A constant nonzero step of enough length is detected with confidence 1. */
  lemma SteadyCounter(col: seq<nat>, m: nat, step: nat, cfg: Config)
    requires 0 < step < m && Steps(col, m, step) && InRange(col, m)
    requires |col| >= 2 && |col| - 1 >= cfg.minTransitions && cfg.counterThreshold <= 1.0
    ensures Detected(col, m, cfg) == Some(CounterHit(step, 1.0))
  {
    var ds := Deltas(col, m);
    forall k | 0 <= k < |ds| ensures ds[k] == step {
      assert col[k + 1] == Advanced(col[k], step, m);
      WrappedStep(col[k], step, m);
    }
    AllEqualTally(ds, step);
    var order := Order(ds, None);
    assert order[..0] == [] && Modal([], ds) == None;
    assert Modal(order, ds) == Some(step);
    AtMostOne(Tally(ds, step), |ds|);
  }

  lemma WrappedStep(a: nat, step: nat, m: nat)
    requires a < m && 0 < step < m
    ensures Wrapped(a, Advanced(a, step, m), m) == step
  {
    if a + step < m {
      Remainder(a + step, m, 0, a + step);
      Remainder(step + m, m, 1, step);
    } else {
      Remainder(a + step, m, 1, a + step - m);
      Remainder(step, m, 0, step);
    }
  }

  lemma Remainder(x: nat, m: nat, q: nat, r: nat)
    requires m > 0 && x == q * m + r && r < m && q <= 1
    ensures x % m == r
  {
  }

  /** The byte is then tagged once, as a whole: no nibble reading beats confidence 1. */
  lemma SteadyByteIsTaggedWhole(ps: seq<seq<byte>>, i: nat, step: nat, cfg: Config)
    requires var col := Column(ps, i, Whole);
      0 < step < 256 && Steps(col, 256, step) && |col| >= 2 && |col| - 1 >= cfg.minTransitions
        && cfg.counterThreshold <= 1.0
    ensures CounterTags(ps, i, cfg) == [Counter(i, None, step, 1.0)]
  {
    var col := Column(ps, i, Whole);
    WholeInRange(ps, i);
    SteadyCounter(col, 256, step, cfg);
    var low, high := Detected(Column(ps, i, LowNibble), 16, cfg), Detected(Column(ps, i, HighNibble), 16, cfg);
    if low.Some? {
      HitMeaning(Column(ps, i, LowNibble), 16, cfg);
    }
    if high.Some? {
      HitMeaning(Column(ps, i, HighNibble), 16, cfg);
    }
    var whole := Some(Reading(CounterHit(step, 1.0), None));
    BestOfThree(whole, ReadingOf(low, Some(Low)), ReadingOf(high, Some(High)));
  }

  lemma {:induction false} WholeInRange(ps: seq<seq<byte>>, i: nat)
    ensures InRange(Column(ps, i, Whole), 256)
  {
    if ps != [] {
      WholeInRange(ps[..|ps| - 1], i);
    }
  }

  lemma BestOfThree(a: Option<Reading>, b: Option<Reading>, c: Option<Reading>)
    requires a.Some? && a.value.hit.confidence == 1.0
    requires b.Some? ==> b.value.hit.confidence <= 1.0
    requires c.Some? ==> c.value.hit.confidence <= 1.0
    ensures Best([a, b, c]) == a
  {
    var one, two, three := [a], [a, b], [a, b, c];
    assert one[..0] == [] && two[..1] == one && three[..2] == two;
    assert Best(one) == a && Best(two) == a;
  }
}
