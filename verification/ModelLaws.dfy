/** What a sync of the message model promises, told in terms of the history of the ring and of the clock. */
module ModelLaws {
  import opened Common
  import opened Frames
  import opened RingStates
  import opened Geometry
  import opened Grouping
  import opened Messages
  import opened MessageLaws
  import opened ModelStates
  import opened ModelRuns

  /* ---- what is read ---------------------------------------------------------------------- */

  /** Place `k` of the history is still held, and is a frame of the selection. */
  ghost predicate Selected(r: RingState, k: nat, sel: Sel)
    requires k < |r.hist|
  {
    |r.hist| - r.cap <= k && r.hist[k].id == sel.id && r.hist[k].isExtended == sel.isExtended
  }

  /** A detection or a rebuild reads the selected frames of the day before the newest frame, each once
      and in the order of arrival. */
  lemma HistoryPlaces(r: RingState, sel: Sel) returns (ks: seq<nat>)
    requires r.Valid()
    ensures StandsAt(HistOf(r, sel), r.hist, ks)
    ensures forall k :: 0 <= k < |r.hist| ==>
      (k in ks <==>
        var newest := r.hist[|r.hist| - 1].tUs;
        Selected(r, k, sel) && newest - 86400 * 1000000 <= r.hist[k].tUs <= newest)
  {
    ks := [];
    if r.hist != [] {
      HistoryIsDay(r, sel);
      ks := TailSelection(r.hist, r.Base(), DayOf(sel, r.Newest()));
    }
  }

  /** The frames of a selection in the day before `newest`. */
  function DayOf(sel: Sel, newest: int): Query {
    Query(Some(sel.id), Some(newest - 86400 * 1000000), Some(newest), Some(sel.isExtended))
  }

  lemma HistoryIsDay(r: RingState, sel: Sel)
    requires r.Valid() && r.hist != []
    ensures HistOf(r, sel) == Select(r.hist[r.Base()..], DayOf(sel, r.Newest()))
  {
    var lo, hi := r.Newest() - ALL_SECONDS * 1000000, r.Newest();
    SelectTwice(r.Contents(), Query(Some(sel.id), Some(lo), Some(hi), None), ExtOnly(sel), DayOf(sel, hi));
  }

  /** All frames of the selection from place `n` on. */
  lemma AskedPlaces(hist: seq<Frame>, n: nat, sel: Sel) returns (ks: seq<nat>)
    requires n <= |hist|
    ensures StandsAt(Select(hist[n..], Asked(sel)), hist, ks)
    ensures forall k :: 0 <= k < |hist| ==>
              (k in ks <==> n <= k && hist[k].id == sel.id && hist[k].isExtended == sel.isExtended)
  {
    ks := TailSelection(hist, n, Asked(sel));
  }

  /* ---- the field in force ------------------------------------------------------------------- */

  /** The selection, the definition and the session are those of the last sync. */
  predicate Same(m: ModelState, r: RingState, sel: Sel, def: Option<nat>) {
    m.curSel == Some(sel) && m.curDef == def && m.lastGen == r.gen
  }

  /** Nothing calls for a new detection: the same is selected, fewer than a quarter and one more frames
      were counted since the last detection, and it is less than five seconds old. */
  predicate Settled(m: ModelState, r: RingState, sel: Sel, def: Option<nat>, now: int) {
    && m.eff.Some? && Same(m, r, sel, def)
    && m.idCount as real < 1.25 * m.detectCount as real + 1.0
    && m.lastDetect.Some? && now - m.lastDetect.value < 5000000
  }

  /** A settled sync keeps the field it has; any other takes what the detection finds in the history. */
  lemma DetectsWhenDue(detect: Detector, m: ModelState, r: RingState, sel: Sel, def: Option<nat>, now: int)
    ensures var m' := SyncStep(detect, m, r, Some(sel), def, now);
      && Same(m', r, sel, def)
      && (Settled(m, r, sel, def, now) ==>
            m'.eff == m.eff && m'.lastDetect == m.lastDetect && m'.detectCount == m.detectCount)
      && (!Settled(m, r, sel, def, now) ==>
            m'.eff == Some(Eff(detect(HistOf(r, sel), def))) && m'.lastDetect == Some(now)
            && m'.detectCount == m'.idCount)
  {
    GrowthIs(m.idCount, m.detectCount);
    assert Redetect(m, r, sel, def, now) <==> !Settled(m, r, sel, def, now);
    var m1 := DetectStep(detect, m, r, sel, def, now);
    RegroupLeaves(m1, r, Key(sel, m1.eff.value.field), SelChanged(m, r, sel, def));
  }

  lemma GrowthIs(count: nat, base: nat)
    ensures 4 * count >= 5 * base + 4 <==> count as real >= 1.25 * base as real + 1.0
  {
  }

  /** Regrouping touches the groups only. */
  lemma RegroupLeaves(m: ModelState, r: RingState, key: Key, changed: bool)
    ensures var m' := RegroupStep(m, r, key, changed);
      && m'.eff == m.eff && m'.lastDetect == m.lastDetect && m'.detectCount == m.detectCount
      && m'.curSel == m.curSel && m'.curDef == m.curDef && m'.lastGen == m.lastGen
  {
  }

  /** Without a selection the model keeps nothing that a later sync reads, and shows nothing. */
  lemma DeselectForgets(detect: Detector, m: ModelState, r: RingState, def: Option<nat>, win: int, now: int)
    ensures var m' := SyncStep(detect, m, r, None, def, now);
      && m'.eff.None? && m'.lastDetect.None? && m'.curSel.None? && m'.curDef.None? && m'.curKey.None?
      && m'.mode == Incremental && m'.cursor == 0 && m'.folded == [] && m'.idCount == 0 && m'.detectCount == 0
      && SyncRows(m', r, None, win, now) == []
  {
  }

  /** The states a run passes through. */
  ghost predicate IsRun(detect: Detector, cap: nat, ops: seq<Op>, ws: seq<World>) {
    |ws| == |ops| + 1 && ws[0] == Start(cap) && forall i :: 0 <= i < |ops| ==> Steps(detect, ops, ws, i)
  }

  ghost predicate Steps(detect: Detector, ops: seq<Op>, ws: seq<World>, i: nat)
    requires i < |ops| < |ws|
  {
    ws[i + 1] == Next(detect, ws[i], ops[i])
  }

  /** Sync `j` asked for the same as sync `k`, in the same session, less than five seconds after it and
      before the count had grown by a quarter. */
  ghost predicate Repeats(ops: seq<Op>, ws: seq<World>, k: nat, j: nat)
    requires k < j < |ops| < |ws| && ops[k].Sync? && ops[j].Sync?
  {
    && ops[j].sel == ops[k].sel && ops[j].def == ops[k].def && ws[j].ring.gen == ws[k].ring.gen
    && ops[j].nowTUs - ops[k].nowTUs < 5000000
    && ws[j].model.idCount as real < 1.25 * ws[k + 1].model.idCount as real + 1.0
  }

  /** Sync `k` made the detection that is in force in `m`. */
  ghost predicate Detected(detect: Detector, ops: seq<Op>, ws: seq<World>, k: nat, m: ModelState) {
    && k < |ops| < |ws| && ops[k].Sync? && ops[k].sel.Some?
    && Same(m, ws[k].ring, ops[k].sel.value, ops[k].def)
    && m.lastDetect == Some(ops[k].nowTUs) && m.detectCount == ws[k + 1].model.idCount
    && m.eff == Some(Eff(detect(HistOf(ws[k].ring, ops[k].sel.value), ops[k].def)))
  }

  /**
   * Over every run: while something is selected, the field in force is what the detection found in
   * the history at one earlier sync, and every sync since then was a repetition of that one.
   */
  lemma {:induction false} FieldInForce(detect: Detector, cap: nat, ops: seq<Op>, ws: seq<World>) returns (k: nat)
    requires IsRun(detect, cap, ops, ws)
    ensures ws[|ops|].model.curSel.Some? ==>
      && Detected(detect, ops, ws, k, ws[|ops|].model)
      && forall j :: k < j < |ops| && ops[j].Sync? ==> Repeats(ops, ws, k, j)
    decreases |ops|
  {
    k := 0;
    if ops != [] {
      var init := BeforeLast(detect, cap, ops, ws);
      var k' := FieldInForce(detect, cap, init, ws[..|ops|]);
      assert Steps(detect, ops, ws, |ops| - 1);
      k := SyncInForce(detect, ops, ws, k');
    }
  }

  lemma BeforeLast(detect: Detector, cap: nat, ops: seq<Op>, ws: seq<World>) returns (init: seq<Op>)
    requires IsRun(detect, cap, ops, ws) && ops != []
    ensures init == ops[..|ops| - 1] && IsRun(detect, cap, init, ws[..|ops|])
  {
    init := ops[..|ops| - 1];
    forall i | 0 <= i < |init| ensures Steps(detect, init, ws[..|ops|], i) {
      assert Steps(detect, ops, ws, i);
    }
  }

  /** One more operation. */
  lemma SyncInForce(detect: Detector, ops: seq<Op>, ws: seq<World>, k': nat) returns (k: nat)
    requires ops != [] && |ws| == |ops| + 1 && Steps(detect, ops, ws, |ops| - 1)
    requires ws[|ops| - 1].model.curSel.Some? ==>
      && Detected(detect, ops[..|ops| - 1], ws[..|ops|], k', ws[|ops| - 1].model)
      && forall j :: k' < j < |ops| - 1 && ops[j].Sync? ==> Repeats(ops[..|ops| - 1], ws[..|ops|], k', j)
    ensures ws[|ops|].model.curSel.Some? ==>
      && Detected(detect, ops, ws, k, ws[|ops|].model)
      && forall j :: k < j < |ops| && ops[j].Sync? ==> Repeats(ops, ws, k, j)
  {
    var n := |ops| - 1;
    var m, r := ws[n].model, ws[n].ring;
    k := k';
    if ops[n].Sync? && ops[n].sel.Some? {
      DetectsWhenDue(detect, m, r, ops[n].sel.value, ops[n].def, ops[n].nowTUs);
      if !Settled(m, r, ops[n].sel.value, ops[n].def, ops[n].nowTUs) {
        k := n;
      }
    }
    forall j | k < j < n && ops[j].Sync? && m.curSel.Some? ensures Repeats(ops, ws, k, j) {
      assert k == k' && Repeats(ops[..n], ws[..n + 1], k, j);
    }
    if k == k' && m.curSel.Some? {
      assert Detected(detect, ops[..n], ws[..n + 1], k, m);
    }
  }

  /* ---- when the groups are built afresh --------------------------------------------------------- */

  /** The groups can go on: same selection and field, and nothing since the cursor has been evicted
      (a model that has given up has no use for its cursor). */
  predicate GoesOn(m: ModelState, r: RingState, sel: Sel, def: Option<nat>, field: Option<Signal>) {
    && Same(m, r, sel, def) && m.curKey == Some(Key(sel, field))
    && (m.mode == Incremental ==> |r.hist| - r.cap <= m.cursor <= |r.hist|)
  }

  /** Groups that can go on keep the place they were built from, and a model that has given up on them
      stays as it is; any other sync builds them from everything the ring holds. */
  lemma BuildsWhenNeeded(detect: Detector, m: ModelState, r: RingState, sel: Sel, def: Option<nat>, now: int)
    ensures var m' := SyncStep(detect, m, r, Some(sel), def, now);
      && m'.eff.Some? && m'.curKey == Some(Key(sel, m'.eff.value.field))
      && var goesOn := GoesOn(m, r, sel, def, m'.eff.value.field);
         && (goesOn && m.mode == Passthrough ==> m'.mode == Passthrough && m'.idCount == m.idCount)
         && (goesOn ==> m'.rebuiltFrom == m.rebuiltFrom && m'.idFirst == m.idFirst)
         && (!goesOn ==> m'.rebuiltFrom == Max(0, |r.hist| - r.cap))
         && (m'.mode == Incremental ==> m'.cursor == |r.hist|)
  {
    var m1 := DetectStep(detect, m, r, sel, def, now);
    var key := Key(sel, m1.eff.value.field);
    RegroupBuilds(m1, r, key, SelChanged(m, r, sel, def));
    DetectLeaves(detect, m, r, sel, def, now);
  }

  lemma DetectLeaves(detect: Detector, m: ModelState, r: RingState, sel: Sel, def: Option<nat>, now: int)
    ensures var m1 := DetectStep(detect, m, r, sel, def, now);
      && m1.eff.Some? && m1.curKey == m.curKey && m1.mode == m.mode && m1.cursor == m.cursor
      && m1.idCount == m.idCount && m1.rebuiltFrom == m.rebuiltFrom && m1.idFirst == m.idFirst
      && m1.folded == m.folded
  {
  }

  lemma RegroupBuilds(m: ModelState, r: RingState, key: Key, changed: bool)
    ensures var m' := RegroupStep(m, r, key, changed);
      && m'.eff == m.eff && m'.curKey == Some(key)
      && var goesOn := !changed && m.curKey == Some(key)
                       && (m.mode == Incremental ==> |r.hist| - r.cap <= m.cursor <= |r.hist|);
         && (goesOn && m.mode == Passthrough ==> m' == m)
         && (goesOn ==> m'.rebuiltFrom == m.rebuiltFrom && m'.idFirst == m.idFirst)
         && (!goesOn ==> m'.rebuiltFrom == Max(0, |r.hist| - r.cap))
         && (m'.mode == Incremental ==> m'.cursor == |r.hist|)
  {
  }

  /* ---- when the model gives up ---------------------------------------------------------------------- */

  /** More than 64 different values of the field occur in `fs`. */
  ghost predicate Wide(field: Option<Signal>, fs: seq<Frame>) {
    field.Some? && |set f | f in fs :: FieldValueOf(field.value)(f)| > 64
  }

  /** A fold overflows with the first frame that makes the field too wide, and counts that frame. */
  lemma {:induction false} FoldStopsFirst(field: Option<Signal>, base: seq<Frame>, delta: seq<Frame>)
    requires !Wide(field, base)
    ensures var r := FoldAll(field, base, delta);
      && (r.overflow <==> Wide(field, base + delta))
      && (r.overflow ==> Wide(field, base + delta[..r.fed]) && !Wide(field, base + delta[..r.fed - 1]))
      && (!r.overflow ==> r.fed == |delta|)
    decreases |delta|
  {
    FoldOverflow(field, base, delta);
    if delta != [] {
      var n := |delta| - 1;
      FoldStopsFirst(field, base, delta[..n]);
      var r := FoldAll(field, base, delta[..n]);
      assert r.fed <= n && delta[..n][..r.fed] == delta[..r.fed];
      if r.overflow {
        assert delta[..n][..r.fed - 1] == delta[..r.fed - 1];
      } else {
        assert delta[..n + 1] == delta;
      }
    }
  }

  /** The count of a model that folds is that of its frames; one that gave up counted up to the frame
      that was one value too many. */
  ghost predicate Counted(m: ModelState, all: seq<Frame>, field: Option<Signal>) {
    if m.mode == Incremental then m.idCount == |all|
    else 0 < m.idCount <= |all| && Wide(field, all[..m.idCount]) && !Wide(field, all[..m.idCount - 1])
  }

  /** All frames of the selection from place `n` of the history on. */
  function AllSince(r: RingState, n: nat, sel: Sel): seq<Frame>
    requires n <= |r.hist|
  {
    Select(r.hist[n..], Asked(sel))
  }

  /** The model has given up just when the frames since the place it was built from are too wide. */
  ghost predicate GivesUpRightly(r: RingState, m: ModelState, field: Option<Signal>, sel: Sel) {
    && m.rebuiltFrom <= |r.hist|
    && (m.mode == Passthrough <==> Wide(field, AllSince(r, m.rebuiltFrom, sel)))
    && Counted(m, AllSince(r, m.rebuiltFrom, sel), field)
  }

  /**
   * On an orderly ring a sync that builds or extends the groups gives up exactly when the frames of
   * the selection since the place they are built from have more than 64 values.
   */
  lemma GivesUpWhenWide(detect: Detector, w: World, sel: Sel, def: Option<nat>, now: int)
    requires Tracked(w) && Orderly(w.ring)
    requires w.model.mode == Incremental && w.model.curKey.Some? ==> w.model.idCount == |w.model.folded|
    ensures var m, r := w.model, w.ring;
      var m' := SyncStep(detect, m, r, Some(sel), def, now);
      m'.eff.Some? && (!(GoesOn(m, r, sel, def, m'.eff.value.field) && m.mode == Passthrough) ==>
        GivesUpRightly(r, m', m'.eff.value.field, sel))
  {
    var m, r := w.model, w.ring;
    var m1, m2 := Halves(detect, m, r, sel, def, now);
    DetectKeeps(detect, w, sel, def, now);
    DetectLeaves(detect, m, r, sel, def, now);
    RegroupLeaves(m1, r, Key(sel, m1.eff.value.field), SelChanged(m, r, sel, def));
    RegroupGivesUp(m1, r, Key(sel, m1.eff.value.field), SelChanged(m, r, sel, def));
    BaselineIsFree(r, m2, m1.eff.value.field, sel, SyncStep(detect, m, r, Some(sel), def, now).detectCount);
  }

  /** A sync is a detection and a regrouping, and then notes the count. */
  lemma Halves(detect: Detector, m: ModelState, r: RingState, sel: Sel, def: Option<nat>, now: int)
    returns (m1: ModelState, m2: ModelState)
    ensures m1 == DetectStep(detect, m, r, sel, def, now)
    ensures m2 == RegroupStep(m1, r, Key(sel, m1.eff.value.field), SelChanged(m, r, sel, def))
    ensures var m' := SyncStep(detect, m, r, Some(sel), def, now); m' == m2.(detectCount := m'.detectCount)
  {
    m1 := DetectStep(detect, m, r, sel, def, now);
    m2 := RegroupStep(m1, r, Key(sel, m1.eff.value.field), SelChanged(m, r, sel, def));
  }

  lemma BaselineIsFree(r: RingState, m: ModelState, field: Option<Signal>, sel: Sel, base: nat)
    ensures GivesUpRightly(r, m, field, sel) <==> GivesUpRightly(r, m.(detectCount := base), field, sel)
  {
  }

  lemma RegroupGivesUp(m: ModelState, r: RingState, key: Key, changed: bool)
    requires Orderly(r)
    requires !NeedsRebuild(m, r, key, changed) && m.mode == Incremental ==> Folded(r, m) && m.idCount == |m.folded|
    ensures !(m.mode == Passthrough && !changed && m.curKey == Some(key)) ==>
              GivesUpRightly(r, RegroupStep(m, r, key, changed), key.field, key.sel)
  {
    if NeedsRebuild(m, r, key, changed) {
      RebuildCounts(m, r, key);
    } else if m.mode == Incremental {
      AppendCounts(m, r, key);
    }
  }

  lemma NotWideIs(field: Option<Signal>, fs: seq<Frame>)
    ensures TooWide(field, fs) <==> Wide(field, fs)
  {
    if field.Some? {
      assert Values(fs, FieldValueOf(field.value)) == (set f | f in fs :: FieldValueOf(field.value)(f));
    }
  }

  lemma FoldCounts(field: Option<Signal>, base: seq<Frame>, delta: seq<Frame>, all: seq<Frame>, r: Fold)
    requires !Wide(field, base) && all == base + delta && r == FoldAll(field, base, delta)
    ensures r.overflow <==> Wide(field, all)
    ensures !r.overflow ==> |base| + r.fed == |all|
    ensures r.overflow ==> 0 < r.fed && |base| + r.fed <= |all|
    ensures r.overflow ==> Wide(field, all[..|base| + r.fed]) && !Wide(field, all[..|base| + r.fed - 1])
  {
    FoldStopsFirst(field, base, delta);
    CountsOf(field, base, delta, all, r.overflow, r.fed);
  }

  lemma CountsOf(field: Option<Signal>, base: seq<Frame>, delta: seq<Frame>, all: seq<Frame>, overflow: bool, fed: nat)
    requires all == base + delta && fed <= |delta| && (overflow ==> fed > 0) && (!overflow ==> fed == |delta|)
    requires overflow ==> Wide(field, base + delta[..fed]) && !Wide(field, base + delta[..fed - 1])
    ensures !overflow ==> |base| + fed == |all|
    ensures overflow ==> |base| + fed <= |all|
    ensures overflow ==> Wide(field, all[..|base| + fed]) && !Wide(field, all[..|base| + fed - 1])
  {
    PrefixOfSum(base, delta, fed);
  }

  lemma RebuildCounts(m: ModelState, r: RingState, key: Key)
    requires Orderly(r)
    ensures GivesUpRightly(r, Rebuild(m, key, HistOf(r, key.sel), r), key.field, key.sel)
  {
    var all := AllSince(r, r.Base(), key.sel);
    HistOfOrderly(r, key.sel);
    NothingIsNarrow(key.field);
    NotWideIs(key.field, []);
    FoldCounts(key.field, [], all, all, FoldAll(key.field, [], all));
  }

  lemma AppendCounts(m: ModelState, r: RingState, key: Key)
    requires m.curKey == Some(key) && m.mode == Incremental && Folded(r, m) && m.idCount == |m.folded|
    ensures GivesUpRightly(r, Append(m, key.field, Delta(r, m.cursor, key.sel), |r.hist|), key.field, key.sel)
  {
    var all, delta := AllSince(r, m.rebuiltFrom, key.sel), Delta(r, m.cursor, key.sel);
    SelectFrom(r.hist, m.rebuiltFrom, m.cursor, Asked(key.sel));
    DeltaIsAsked(r.hist[m.cursor..], key.sel);
    NotWideIs(key.field, m.folded);
    AppendedCounts(m, r, key.field, key.sel, delta, |r.hist|);
  }

  lemma AppendedCounts(m: ModelState, r: RingState, field: Option<Signal>, sel: Sel, delta: seq<Frame>, next: nat)
    requires m.mode == Incremental && m.idCount == |m.folded| && !Wide(field, m.folded)
    requires m.rebuiltFrom <= |r.hist| && AllSince(r, m.rebuiltFrom, sel) == m.folded + delta
    ensures GivesUpRightly(r, Append(m, field, delta, next), field, sel)
  {
    var f := FoldAll(field, m.folded, delta);
    FoldCounts(field, m.folded, delta, AllSince(r, m.rebuiltFrom, sel), f);
    AppendedRightly(m, r, field, sel, delta, f, next);
  }

  lemma AppendedRightly(m: ModelState, r: RingState, field: Option<Signal>, sel: Sel, delta: seq<Frame>, f: Fold,
                        next: nat)
    requires m.mode == Incremental && m.rebuiltFrom <= |r.hist| && f.fed <= |delta| && (f.overflow ==> f.fed > 0)
    requires var all, count := AllSince(r, m.rebuiltFrom, sel), m.idCount + f.fed;
      && (f.overflow <==> Wide(field, all))
      && (if f.overflow then count <= |all| && Wide(field, all[..count]) && !Wide(field, all[..count - 1])
          else count == |all|)
    ensures GivesUpRightly(r, Appended(m, delta, f, next), field, sel)
  {
  }

  lemma PrefixOfSum<T>(a: seq<T>, b: seq<T>, n: nat)
    requires n <= |b|
    ensures (a + b)[..|a| + n] == a + b[..n]
    ensures n > 0 ==> (a + b)[..|a| + n - 1] == a + b[..n - 1]
  {
  }

  /** Over every orderly run, a model that folds has counted just the frames it holds. */
  lemma {:induction false} AlwaysCounted(detect: Detector, cap: nat, ops: seq<Op>)
    requires OrderlyRun(detect, Start(cap), ops)
    ensures var m := Run(detect, Start(cap), ops).model;
      m.mode == Incremental && m.curKey.Some? ==> m.idCount == |m.folded|
    decreases |ops|
  {
    if ops != [] {
      var n := |ops| - 1;
      var init := ops[..n];
      forall k | 0 <= k <= n ensures init[..k] == ops[..k] {
      }
      AlwaysCounted(detect, cap, init);
      AlwaysTracked(detect, cap, init);
      var w := Run(detect, Start(cap), init);
      assert Orderly(w.ring);
      if ops[n].Sync? && ops[n].sel.Some? {
        SyncCounts(detect, w, ops[n].sel.value, ops[n].def, ops[n].nowTUs);
      }
    }
  }

  lemma SyncCounts(detect: Detector, w: World, sel: Sel, def: Option<nat>, now: int)
    requires Tracked(w) && Orderly(w.ring)
    requires w.model.mode == Incremental && w.model.curKey.Some? ==> w.model.idCount == |w.model.folded|
    ensures var m := SyncStep(detect, w.model, w.ring, Some(sel), def, now);
      m.mode == Incremental && m.curKey.Some? ==> m.idCount == |m.folded|
  {
    GivesUpWhenWide(detect, w, sel, def, now);
    BuildsWhenNeeded(detect, w.model, w.ring, sel, def, now);
    SyncFolds(detect, w, sel, def, now);
    PassthroughStays(detect, w.model, w.ring, sel, def, now);
  }

  lemma PassthroughStays(detect: Detector, m: ModelState, r: RingState, sel: Sel, def: Option<nat>, now: int)
    ensures var m' := SyncStep(detect, m, r, Some(sel), def, now);
      m'.eff.Some? && (GoesOn(m, r, sel, def, m'.eff.value.field) && m.mode == Passthrough ==> m'.mode == Passthrough)
  {
    BuildsWhenNeeded(detect, m, r, sel, def, now);
  }

  lemma SyncFolds(detect: Detector, w: World, sel: Sel, def: Option<nat>, now: int)
    requires Tracked(w) && Orderly(w.ring)
    ensures var m, r := SyncStep(detect, w.model, w.ring, Some(sel), def, now), w.ring;
      m.mode == Incremental ==> m.rebuiltFrom <= |r.hist| && m.folded == Select(r.hist[m.rebuiltFrom..], Asked(sel))
  {
    SyncKeeps(detect, w, sel, def, now);
    var m, r := SyncStep(detect, w.model, w.ring, Some(sel), def, now), w.ring;
    if m.mode == Incremental {
      assert r.hist[m.rebuiltFrom..|r.hist|] == r.hist[m.rebuiltFrom..];
    }
  }

  /* ---- the rate column of a sync -------------------------------------------------------------------------- */

  /** A model that has given up rates every value over its frames in the last `win` seconds, exactly. */
  lemma PassthroughRate(m: ModelState, r: RingState, sel: Sel, fd: Signal, win: int, now: int,
                        fs: seq<Frame>, rows: seq<Row>, i: nat)
    requires m.mode == Passthrough && m.eff == Some(Eff(Some(fd))) && win > 0
    requires fs == HistOf(r, sel) && rows == SyncRows(m, r, Some(sel), win, now) && i < |rows|
    ensures rows[i].mux.Some?
    ensures rows[i].rate == Recent(fs, fd, rows[i].mux.value, (now - win * 1000000) as real) as real / win as real
  {
    WindowedRate(fs, fd, (now - win * 1000000) as real, win as real, i);
  }

  /** Over all time it divides by the time between the first and the last frame, one microsecond at least. */
  lemma PassthroughAllTimeRate(m: ModelState, r: RingState, sel: Sel, fd: Signal, now: int,
                               fs: seq<Frame>, rows: seq<Row>, i: nat)
    requires m.mode == Passthrough && m.eff == Some(Eff(Some(fd))) && |fs| >= 2
    requires fs == HistOf(r, sel) && rows == SyncRows(m, r, Some(sel), 0, now) && i < |rows|
    ensures var span := Max(1, fs[|fs| - 1].tUs - fs[0].tUs);
      rows[i].mux.Some?
      && rows[i].rate == Recent(fs, fd, rows[i].mux.value, (now - span) as real) as real / (span as real / 1000000.0)
  {
    PassthroughRows(m, r, sel, fd, now, fs, ScratchRule(fs, 0, now));
    ScratchSpanRate(fs, fd, now, ScratchRule(fs, 0, now), rows, i);
  }

  lemma ScratchSpanRate(fs: seq<Frame>, fd: Signal, now: int, rule: RateRule, rows: seq<Row>, i: nat)
    requires |fs| >= 2 && rule == ScratchRule(fs, 0, now) && rows == RowsOf(fs, Some(fd), rule) && i < |rows|
    ensures var span := Max(1, fs[|fs| - 1].tUs - fs[0].tUs);
      rows[i].mux.Some?
      && rows[i].rate == Recent(fs, fd, rows[i].mux.value, (now - span) as real) as real / (span as real / 1000000.0)
  {
    var span := Max(1, fs[|fs| - 1].tUs - fs[0].tUs);
    ScratchRuleIs(fs, now, span, rule);
    SpanRate(fs, fd, now, span, rule, rows, i);
  }

  lemma PassthroughRows(m: ModelState, r: RingState, sel: Sel, fd: Signal, now: int, fs: seq<Frame>, rule: RateRule)
    requires m.mode == Passthrough && m.eff == Some(Eff(Some(fd)))
    requires fs == HistOf(r, sel) && rule == ScratchRule(fs, 0, now)
    ensures SyncRows(m, r, Some(sel), 0, now) == RowsOf(fs, Some(fd), rule)
  {
  }

  lemma SpanRate(fs: seq<Frame>, fd: Signal, now: int, span: nat, rule: RateRule, rows: seq<Row>, i: nat)
    requires span > 0 && rule == Exact((now - span) as real, span as real / 1000000.0)
    requires rows == RowsOf(fs, Some(fd), rule) && i < |rows|
    ensures rows[i].mux.Some?
    ensures rows[i].rate == Recent(fs, fd, rows[i].mux.value, (now - span) as real) as real / (span as real / 1000000.0)
  {
    WindowedRate(fs, fd, (now - span) as real, span as real / 1000000.0, i);
  }

  lemma ScratchRuleIs(fs: seq<Frame>, now: int, span: nat, rule: RateRule)
    requires |fs| >= 2 && span == Max(1, fs[|fs| - 1].tUs - fs[0].tUs) && rule == ScratchRule(fs, 0, now)
    ensures rule == Exact((now - span) as real, span as real / 1000000.0)
  {
  }

  /** A model that folds divides the whole count by the time between the times it has noted. */
  lemma GroupAllTimeRate(m: ModelState, fs: seq<Frame>, fd: Signal, now: int, rows: seq<Row>, i: nat)
    requires m.mode == Incremental && rows == RowsOf(fs, Some(fd), RuleOf(m, fs, 0, now)) && i < |rows|
    ensures rows[i].rate == rows[i].count as real / (Max(1, m.idLast - m.idFirst) as real / 1000000.0)
  {
    GroupRuleIs(m, fs, now);
    WholeRate(fs, fd, Max(1, m.idLast - m.idFirst) as real / 1000000.0, i);
  }

  lemma GroupRuleIs(m: ModelState, fs: seq<Frame>, now: int)
    requires m.mode == Incremental
    ensures RuleOf(m, fs, 0, now) == Whole(Max(1, m.idLast - m.idFirst) as real / 1000000.0)
  {
  }

  lemma WholeRate(fs: seq<Frame>, fd: Signal, denom: real, i: nat)
    requires denom > 0.0 && i < |RowsOf(fs, Some(fd), Whole(denom))|
    ensures var row := RowsOf(fs, Some(fd), Whole(denom))[i]; row.rate == row.count as real / denom
  {
    var v := SortedValues(fs, FieldValueOf(fd))[i];
    assert RowsOf(fs, Some(fd), Whole(denom))[i]
        == ValueRow(fs, FieldValueOf(fd), v, Whole(denom), FieldBytes(fd), FieldHexWidth(fd));
  }
}
