/**
 * The incremental message model as a value: what one `sync` does to it, and what holds after any
 * interleaving of pushes, clears and syncs.
 */
module ModelStates {
  import opened Common
  import opened Frames
  import opened RingStates
  import opened Geometry
  import opened Grouping
  import opened RateBuckets
  import opened Messages

  const ALL_SECONDS: nat := 86400
  const DETECT_REFRESH_US: nat := 5000000

  /** The memoised result of a detection: the field the rows are split by, if any. */
  datatype Eff = Eff(field: Option<Signal>)
  datatype Sel = Sel(id: nat, isExtended: bool)
  datatype Key = Key(sel: Sel, field: Option<Signal>)
  datatype Mode = Incremental | Passthrough

  /** Detection over a full history, for a frame definition identified by a number. */
  type Detector = (seq<Frame>, Option<nat>) -> Option<Signal>

  datatype ModelState = ModelState(
    eff: Option<Eff>, lastDetect: Option<int>, curSel: Option<Sel>, curDef: Option<nat>, lastGen: int,
    idCount: nat, detectCount: nat, curKey: Option<Key>, mode: Mode, cursor: nat,
    folded: seq<Frame>,    // the frames folded into the groups, in order
    idFirst: int, idLast: int,
    rebuiltFrom: nat,      // oldest ring index at the last rebuild
    seeded: bool)          // the last rebuild saw at least one matching frame

  const INITIAL: ModelState :=
    ModelState(None, None, None, None, -1, 0, 0, None, Incremental, 0, [], 0, 0, 0, false)

  function Asked(sel: Sel): Query {
    Query(Some(sel.id), None, None, Some(sel.isExtended))
  }

  function ExtOnly(sel: Sel): Query {
    Query(None, None, None, Some(sel.isExtended))
  }

  /** The history a rebuild or a detection reads: by timestamp, then by the extended flag. */
  function HistOf(ring: RingState, sel: Sel): seq<Frame> {
    Select(LastSecondsSpec(ring, ALL_SECONDS, Some(sel.id)), ExtOnly(sel))
  }

  /** Too many distinct values for per-group state. */
  predicate TooWide(field: Option<Signal>, fs: seq<Frame>) {
    field.Some? && |Values(fs, FieldValueOf(field.value))| > MAX_MESSAGES
  }

  datatype Fold = Fold(folded: seq<Frame>, fed: nat, overflow: bool)

  /** Fold frames one by one; the one that makes the field too wide is the last. */
  function FoldAll(field: Option<Signal>, base: seq<Frame>, delta: seq<Frame>): (r: Fold)
    ensures r.fed <= |delta| && r.folded == base + delta[..r.fed]
    ensures r.overflow ==> r.fed > 0
    ensures !r.overflow ==> r.fed == |delta| && r.folded == base + delta
    decreases |delta|
  {
    if delta == [] then Fold(base, 0, false)
    else
      var n := |delta| - 1;
      var r := FoldAll(field, base, delta[..n]);
      if r.overflow then r
      else
        var b := r.folded + [delta[n]];
        assert delta[..n] + [delta[n]] == delta;
        assert b == base + delta;
        Fold(b, r.fed + 1, TooWide(field, b))
  }

  lemma {:induction false} ValuesGrow(a: seq<Frame>, b: seq<Frame>, valueOf: Frame -> int)
    requires a <= b
    ensures Values(a, valueOf) <= Values(b, valueOf) && |Values(a, valueOf)| <= |Values(b, valueOf)|
  {
    SubsetCardinality(Values(a, valueOf), Values(b, valueOf));
  }

  lemma {:induction false} SubsetCardinality(a: set<int>, b: set<int>)
    requires a <= b
    ensures |a| <= |b|
  {
    assert b == a + (b - a);
    assert |b| == |a| + |b - a|;
  }

  /** Folding overflows exactly when the whole is too wide. */
  lemma {:induction false} FoldOverflow(field: Option<Signal>, base: seq<Frame>, delta: seq<Frame>)
    requires !TooWide(field, base)
    ensures FoldAll(field, base, delta).overflow <==> TooWide(field, base + delta)
    decreases |delta|
  {
    if delta == [] {
      assert base + delta == base;
    } else {
      var n := |delta| - 1;
      var init := base + delta[..n];
      FoldOverflow(field, base, delta[..n]);
      assert base + delta == init + [delta[n]];
      if TooWide(field, init) {
        WideGrows(field, init, base + delta);
      }
    }
  }

  lemma WideGrows(field: Option<Signal>, a: seq<Frame>, b: seq<Frame>)
    requires a <= b && TooWide(field, a)
    ensures TooWide(field, b)
  {
    ValuesGrow(a, b, FieldValueOf(field.value));
  }

  function LastTime(fs: seq<Frame>, default: int): int {
    if fs == [] then default else fs[|fs| - 1].tUs
  }

  function Reset(m: ModelState): ModelState {
    ModelState(None, None, None, None, m.lastGen, 0, 0, None, Incremental, 0, [],
               m.idFirst, m.idLast, m.rebuiltFrom, m.seeded)
  }

  /** The state after a fold of freshly pushed frames; one that overflowed drops all group state. */
  function Appended(m: ModelState, delta: seq<Frame>, r: Fold, next: nat): ModelState
    requires r.fed <= |delta| && (r.overflow ==> r.fed > 0)
  {
    var kept := if r.overflow then delta[..r.fed - 1] else delta;
    m.(idCount := m.idCount + r.fed, idLast := LastTime(kept, m.idLast), cursor := next,
       folded := if r.overflow then [] else r.folded, mode := if r.overflow then Passthrough else m.mode)
  }

  /** Append freshly pushed frames. */
  function Append(m: ModelState, field: Option<Signal>, delta: seq<Frame>, next: nat): ModelState {
    Appended(m, delta, FoldAll(field, m.folded, delta), next)
  }

  /** The state after a fold of the whole history into fresh groups. */
  function Rebuilt(m: ModelState, key: Key, hist: seq<Frame>, r: Fold, ring: RingState): ModelState {
    m.(mode := if r.overflow then Passthrough else Incremental,
       folded := if r.overflow then [] else r.folded, idCount := r.fed,
       idFirst := if hist == [] then 0 else hist[0].tUs, idLast := LastTime(hist, 0),
       cursor := |ring.hist|, curKey := Some(key), rebuiltFrom := ring.Base(), seeded := hist != [])
  }

  function Rebuild(m: ModelState, key: Key, hist: seq<Frame>, ring: RingState): ModelState {
    Rebuilt(m, key, hist, FoldAll(key.field, [], hist), ring)
  }

  predicate SelChanged(m: ModelState, ring: RingState, sel: Sel, def: Option<nat>) {
    m.curSel != Some(sel) || def != m.curDef || ring.gen != m.lastGen
  }

  /** Re-detect on a change of selection, on 25% growth, or after five seconds. */
  predicate Redetect(m: ModelState, ring: RingState, sel: Sel, def: Option<nat>, nowTUs: int) {
    || m.eff.None? || SelChanged(m, ring, sel, def)
    || 4 * m.idCount >= 5 * m.detectCount + 4
    || m.lastDetect.None? || nowTUs - m.lastDetect.value >= DETECT_REFRESH_US
  }

  /** The field in force for one sync: detected afresh or remembered. */
  function FieldFor(detect: Detector, m: ModelState, ring: RingState, sel: Sel, def: Option<nat>,
                    nowTUs: int): Option<Signal>
  {
    if Redetect(m, ring, sel, def, nowTUs) then detect(HistOf(ring, sel), def)
    else if m.eff.Some? then m.eff.value.field else None
  }

  /** First half of a sync: note what is selected, and detect the field when due. */
  function DetectStep(detect: Detector, m: ModelState, ring: RingState, sel: Sel, def: Option<nat>,
                      nowTUs: int): ModelState
  {
    var field := FieldFor(detect, m, ring, sel, def, nowTUs);
    m.(lastGen := ring.gen, curSel := Some(sel), curDef := def, eff := Some(Eff(field)),
       lastDetect := if Redetect(m, ring, sel, def, nowTUs) then Some(nowTUs) else m.lastDetect)
  }

  predicate NeedsRebuild(m: ModelState, ring: RingState, key: Key, changed: bool) {
    changed || m.curKey != Some(key) || (m.mode == Incremental && !ring.Serves(m.cursor))
  }

  /** The frames a cursor read hands to the fold. */
  function Delta(r: RingState, cursor: nat, sel: Sel): seq<Frame>
    requires cursor <= |r.hist|
  {
    Select(Select(r.hist[cursor..], Query(Some(sel.id), None, None, None)), ExtOnly(sel))
  }

  /** Second half: rebuild the groups, or append to them, or leave them in passthrough. */
  function RegroupStep(m: ModelState, ring: RingState, key: Key, changed: bool): ModelState {
    if NeedsRebuild(m, ring, key, changed) then Rebuild(m, key, HistOf(ring, key.sel), ring)
    else if m.mode == Incremental then Append(m, key.field, Delta(ring, m.cursor, key.sel), |ring.hist|)
    else m
  }

  function SyncStep(detect: Detector, m: ModelState, ring: RingState, sel: Option<Sel>, def: Option<nat>,
                    nowTUs: int): ModelState
  {
    if sel.None? then Reset(m)
    else
      var s := sel.value;
      var m1 := DetectStep(detect, m, ring, s, def, nowTUs);
      var m2 := RegroupStep(m1, ring, Key(s, m1.eff.value.field), SelChanged(m, ring, s, def));
      if Redetect(m, ring, s, def, nowTUs) then m2.(detectCount := m2.idCount) else m2
  }

  /** The observed span of a history in seconds, as the passthrough path divides by it. */
  function SpanOf(fs: seq<Frame>): real {
    if |fs| < 2 then 1.0
    else
      var span := (fs[|fs| - 1].tUs - fs[0].tUs) as real / 1000000.0;
      if span < 0.000001 then 0.000001 else span
  }

  /** The frames the rows of a sync are about: the folded ones, or in passthrough the history. */
  function SourceOf(m: ModelState, ring: RingState, sel: Sel): seq<Frame> {
    if m.mode == Passthrough then HistOf(ring, sel) else m.folded
  }

  /** Passthrough rates are exact, over the window or over the whole span. */
  function ScratchRule(source: seq<Frame>, windowSeconds: int, nowTUs: int): RateRule {
    var denom := if windowSeconds == 0 then SpanOf(source) else windowSeconds as real;
    Exact(nowTUs as real - denom * 1000000.0, denom)
  }

  /** Group rates come from the buckets, or from the span the model has noted. */
  function GroupRule(idFirst: int, idLast: int, windowSeconds: int, nowTUs: int): RateRule {
    if windowSeconds == 0 then
      var span := (idLast - idFirst) as real / 1000000.0;
      Whole(if span < 0.000001 then 0.000001 else span)
    else Bucketed(nowTUs / 1000000, windowSeconds)
  }

  function RuleOf(m: ModelState, source: seq<Frame>, windowSeconds: int, nowTUs: int): RateRule {
    if m.mode == Passthrough then ScratchRule(source, windowSeconds, nowTUs)
    else GroupRule(m.idFirst, m.idLast, windowSeconds, nowTUs)
  }

  /** The rows a sync returns, from the state it leaves. */
  function SyncRows(m: ModelState, ring: RingState, sel: Option<Sel>, windowSeconds: int, nowTUs: int): seq<Row>
    requires sel.Some? ==> m.eff.Some?
  {
    if sel.None? then []
    else
      var source := SourceOf(m, ring, sel.value);
      RowsOf(source, m.eff.value.field, RuleOf(m, source, windowSeconds, nowTUs))
  }
}
