/** What the incremental message model keeps over every run of pushes, clears and syncs. */
module ModelRuns {
  import opened Common
  import opened Frames
  import opened RingStates
  import opened Seqs
  import opened Geometry
  import opened Grouping
  import opened RateBuckets
  import opened Messages
  import opened ModelStates

  datatype World = World(ring: RingState, model: ModelState)

  datatype Op = Push(f: Frame) | Clear | Sync(sel: Option<Sel>, def: Option<nat>, nowTUs: int)

  function Next(detect: Detector, w: World, op: Op): World {
    match op
    case Push(f) => w.(ring := w.ring.Push(f))
    case Clear => w.(ring := w.ring.Clear())
    case Sync(sel, def, now) => w.(model := SyncStep(detect, w.model, w.ring, sel, def, now))
  }

  function Run(detect: Detector, w: World, ops: seq<Op>): World
    decreases |ops|
  {
    if ops == [] then w else Next(detect, Run(detect, w, ops[..|ops| - 1]), ops[|ops| - 1])
  }

  function Start(cap: nat): World {
    World(RingState(cap, 0, []), INITIAL)
  }

  /** Timestamps do not go back since the last clear, and the retained ones span at most a day. */
  ghost predicate Orderly(r: RingState) {
    && r.Valid()
    && (forall i, j :: 0 <= i <= j < |r.hist| ==> r.hist[i].tUs <= r.hist[j].tUs)
    && (r.hist != [] ==> r.Newest() - r.hist[r.Base()].tUs <= ALL_SECONDS * 1000000)
  }

  /** Every ring on the way is orderly. */
  ghost predicate OrderlyRun(detect: Detector, w: World, ops: seq<Op>) {
    forall k :: 0 <= k <= |ops| ==> Orderly(Run(detect, w, ops[..k]).ring)
  }

  /** Reading a day back by timestamp is reading everything retained just when every frame asked
      for lies in that day. */
  lemma HistOfExact(r: RingState, sel: Sel)
    requires r.Valid() && r.hist != []
    ensures HistOf(r, sel) == Select(r.Contents(), Asked(sel)) <==>
            forall f :: f in r.Contents() && Matches(Asked(sel), f) ==>
              r.Newest() - ALL_SECONDS * 1000000 <= f.tUs <= r.Newest()
  {
    var lo, hi := r.Newest() - ALL_SECONDS * 1000000, r.Newest();
    var both := Query(Some(sel.id), Some(lo), Some(hi), Some(sel.isExtended));
    SelectTwice(r.Contents(), Query(Some(sel.id), Some(lo), Some(hi), None), ExtOnly(sel), both);
    var asked := Select(r.Contents(), Asked(sel));
    SelectTwice(r.Contents(), Asked(sel), both, both);
    SelectAll(asked, both);
    SelectKeeps(r.Contents(), Asked(sel));
    assert forall i :: 0 <= i < |asked| ==> asked[i] in asked;
  }

  /** It does happen: a ring that is fed two frames more than a day apart retains both of them, and
      reads back without the older one. */
  lemma DayOldIsSkipped(detect: Detector, sel: Sel, f: Frame, g: Frame)
    requires Matches(Asked(sel), f) && g.tUs - f.tUs > ALL_SECONDS * 1000000
    ensures var r := Run(detect, Start(2), [Push(f), Push(g)]).ring;
      r.Contents() == [f, g] && HistOf(r, sel) != Select(r.Contents(), Asked(sel))
  {
    var ops := [Push(f), Push(g)];
    assert ops[..1] == [Push(f)] && [Push(f)][..0] == [];
    assert Run(detect, Start(2), []) == Start(2);
    var r := Run(detect, Start(2), ops).ring;
    assert r == RingState(2, 0, [f, g]) by {
      assert [] + [f] == [f] && [f] + [g] == [f, g];
      assert Run(detect, Start(2), [Push(f)]).ring == RingState(2, 0, [f]);
    }
    assert r.Contents() == [f, g] && f in r.Contents();
    HistOfExact(r, sel);
  }

  /** A frame is selected just when it occurs and matches. */
  lemma {:induction false} SelectKeeps(s: seq<Frame>, q: Query)
    ensures forall f :: f in Select(s, q) <==> f in s && Matches(q, f)
  {
    if s != [] {
      SelectKeeps(s[..|s| - 1], q);
      assert s == s[..|s| - 1] + [s[|s| - 1]];
    }
  }

  lemma HistOfOrderly(r: RingState, sel: Sel)
    requires Orderly(r)
    ensures HistOf(r, sel) == Select(r.Contents(), Asked(sel))
  {
    if r.hist != [] {
      forall f | f in r.Contents() ensures r.Newest() - ALL_SECONDS * 1000000 <= f.tUs <= r.Newest() {
        var i :| 0 <= i < |r.Contents()| && r.Contents()[i] == f;
        assert r.Contents()[i] == r.hist[r.Base() + i];
      }
      HistOfExact(r, sel);
    }
  }

  /** The cursor agrees with the history: by id and then by the flag, or by both at once. */
  lemma DeltaIsAsked(s: seq<Frame>, sel: Sel)
    ensures Select(Select(s, Query(Some(sel.id), None, None, None)), ExtOnly(sel)) == Select(s, Asked(sel))
  {
    SelectTwice(s, Query(Some(sel.id), None, None, None), ExtOnly(sel), Asked(sel));
  }

  /**
   * The invariant.  While the ring has not been cleared since the last sync, the groups hold
   * exactly the frames asked for that the ring held at the last rebuild or received since, up to
   * the cursor, whatever has been evicted meanwhile.
   */
  ghost predicate Tracked(w: World) {
    var m, r := w.model, w.ring;
    && m.lastGen <= r.gen
    && (m.curSel.Some? ==> m.eff.Some?)
    && (m.curSel.Some? && m.lastGen == r.gen ==>
          && m.curKey == Some(Key(m.curSel.value, m.eff.value.field))
          && (m.mode == Incremental ==> Folded(r, m)))
  }

  ghost predicate Folded(r: RingState, m: ModelState)
    requires m.curKey.Some?
  {
    Held(r, m.rebuiltFrom, m.cursor, m.folded, m.curKey.value)
  }

  ghost predicate Held(r: RingState, from: nat, to: nat, folded: seq<Frame>, key: Key) {
    && from <= to <= |r.hist| && from <= r.Base()
    && folded == Select(r.hist[from..to], Asked(key.sel))
    && !TooWide(key.field, folded)
  }

  lemma PushKeeps(w: World, f: Frame)
    requires Tracked(w)
    ensures Tracked(World(w.ring.Push(f), w.model))
  {
    var m, r := w.model, w.ring;
    if m.curSel.Some? && m.lastGen == r.gen && m.mode == Incremental {
      assert r.Push(f).hist[m.rebuiltFrom..m.cursor] == r.hist[m.rebuiltFrom..m.cursor];
    }
  }

  /** A rebuild folds everything retained; it gives up exactly when that is too wide. */
  lemma RebuildFolds(r: RingState, key: Key)
    requires Orderly(r)
    ensures var fold := FoldAll(key.field, [], HistOf(r, key.sel));
      && (fold.overflow <==> TooWide(key.field, HistOf(r, key.sel)))
      && (!fold.overflow ==> Held(r, r.Base(), |r.hist|, fold.folded, key))
  {
    HistOfOrderly(r, key.sel);
    FoldFromNothing(key.field, HistOf(r, key.sel));
    RetainedHeld(r, key, HistOf(r, key.sel));
  }

  lemma RetainedHeld(r: RingState, key: Key, hist: seq<Frame>)
    requires hist == Select(r.Contents(), Asked(key.sel))
    ensures !TooWide(key.field, hist) ==> Held(r, r.Base(), |r.hist|, hist, key)
  {
    assert r.hist[r.Base()..|r.hist|] == r.Contents();
  }

  lemma FoldFromNothing(field: Option<Signal>, fs: seq<Frame>)
    ensures FoldAll(field, [], fs).overflow <==> TooWide(field, fs)
    ensures !FoldAll(field, [], fs).overflow ==> FoldAll(field, [], fs).folded == fs
  {
    NothingIsNarrow(field);
    FoldOverflow(field, [], fs);
    assert [] + fs == fs;
  }

  lemma NothingIsNarrow(field: Option<Signal>)
    ensures !TooWide(field, [])
  {
    if field.Some? {
      assert Values([], FieldValueOf(field.value)) == {};
    }
  }

  /** Appending from the cursor keeps the groups equal to grouping from scratch. */
  lemma AppendFolds(r: RingState, from: nat, cursor: nat, folded: seq<Frame>, key: Key)
    requires Held(r, from, cursor, folded, key)
    ensures var fold := FoldAll(key.field, folded, Delta(r, cursor, key.sel));
      && (fold.overflow <==> TooWide(key.field, Select(r.hist[from..], Asked(key.sel))))
      && (!fold.overflow ==> Held(r, from, |r.hist|, fold.folded, key))
  {
    SelectFrom(r.hist, from, cursor, Asked(key.sel));
    DeltaIsAsked(r.hist[cursor..], key.sel);
    FoldOverflow(key.field, folded, Delta(r, cursor, key.sel));
  }

  /** What was selected up to a cursor, and from it on. */
  lemma SelectFrom(s: seq<Frame>, from: nat, cursor: nat, q: Query)
    requires from <= cursor <= |s|
    ensures Select(s[from..], q) == Select(s[from..cursor], q) + Select(s[cursor..], q)
    ensures s[from..|s|] == s[from..]
  {
    SplitAt(s, from, cursor);
    SelectConcat(s[from..cursor], s[cursor..], q);
  }

  /** After a rebuild, the groups hold what the ring held then. */
  lemma RebuildHolds(r: RingState, m: ModelState, key: Key)
    requires Orderly(r)
    ensures var m' := Rebuild(m, key, HistOf(r, key.sel), r);
      m'.curKey == Some(key) && (m'.mode == Incremental ==> m'.cursor == |r.hist| && Folded(r, m'))
  {
    RebuildFolds(r, key);
  }

  /** After an append, they hold what it received since as well. */
  lemma AppendHolds(r: RingState, m: ModelState, key: Key)
    requires m.curKey == Some(key) && m.mode == Incremental && Folded(r, m)
    ensures var m' := Append(m, key.field, Delta(r, m.cursor, key.sel), |r.hist|);
      m'.curKey == Some(key) && (m'.mode == Incremental ==> m'.cursor == |r.hist| && Folded(r, m'))
  {
    AppendFolds(r, m.rebuiltFrom, m.cursor, m.folded, key);
  }

  lemma RegroupKeeps(r: RingState, m: ModelState, key: Key, changed: bool)
    requires Orderly(r)
    requires !NeedsRebuild(m, r, key, changed) && m.mode == Incremental ==> Folded(r, m)
    ensures var m' := RegroupStep(m, r, key, changed);
      && m'.curKey == Some(key) && (m'.mode == Incremental ==> m'.cursor == |r.hist| && Folded(r, m'))
      && m'.eff == m.eff && m'.curSel == m.curSel && m'.lastGen == m.lastGen
  {
    if NeedsRebuild(m, r, key, changed) {
      RebuildHolds(r, m, key);
    } else if m.mode == Incremental {
      AppendHolds(r, m, key);
    }
  }

  /** Groups that need no rebuild after a detection are tracked still. */
  lemma DetectKeeps(detect: Detector, w: World, sel: Sel, def: Option<nat>, now: int)
    requires Tracked(w)
    ensures var m1 := DetectStep(detect, w.model, w.ring, sel, def, now);
      var changed := SelChanged(w.model, w.ring, sel, def);
      !NeedsRebuild(m1, w.ring, Key(sel, m1.eff.value.field), changed) && m1.mode == Incremental ==> Folded(w.ring, m1)
  {
  }

  lemma SyncKeeps(detect: Detector, w: World, sel: Sel, def: Option<nat>, now: int)
    requires Tracked(w) && Orderly(w.ring)
    ensures var m := SyncStep(detect, w.model, w.ring, Some(sel), def, now);
      && Tracked(World(w.ring, m))
      && m.curSel == Some(sel) && m.lastGen == w.ring.gen
      && (m.mode == Incremental ==> m.cursor == |w.ring.hist|)
  {
    var m, r := w.model, w.ring;
    var m1 := DetectStep(detect, m, r, sel, def, now);
    DetectKeeps(detect, w, sel, def, now);
    RegroupKeeps(r, m1, Key(sel, m1.eff.value.field), SelChanged(m, r, sel, def));
  }

  /** Tracking holds in every reachable state, over every interleaving. */
  lemma {:induction false} AlwaysTracked(detect: Detector, cap: nat, ops: seq<Op>)
    requires OrderlyRun(detect, Start(cap), ops)
    ensures Tracked(Run(detect, Start(cap), ops))
    decreases |ops|
  {
    if ops != [] {
      var n := |ops| - 1;
      var init := ops[..n];
      forall k | 0 <= k <= n ensures init[..k] == ops[..k] {
      }
      AlwaysTracked(detect, cap, init);
      var w := Run(detect, Start(cap), init);
      assert Orderly(w.ring);
      match ops[n]
      case Push(f) => PushKeeps(w, f);
      case Clear =>
      case Sync(sel, def, now) =>
        if sel.Some? {
          SyncKeeps(detect, w, sel.value, def, now);
        }
    }
  }

  /**
   * Main theorem.  Whatever came before, a sync of a selection returns, in incremental mode, the
   * rows of the frames asked for from the last rebuild on; and when nothing held then has been
   * evicted, or in passthrough mode, they are the rows of a computation from scratch on the ring
   * history, except for the rate column.
   */
  lemma SyncAgreesWithScratch(detect: Detector, cap: nat, ops: seq<Op>, sel: Sel, def: Option<nat>,
                              windowSeconds: int, now: int, rule: RateRule)
    requires OrderlyRun(detect, Start(cap), ops)
    ensures var w := Run(detect, Start(cap), ops);
      var m := SyncStep(detect, w.model, w.ring, Some(sel), def, now);
      var field := m.eff.value.field;
      var rows := SyncRows(m, w.ring, Some(sel), windowSeconds, now);
      && (m.mode == Incremental ==>
            && m.rebuiltFrom <= |w.ring.hist| && m.folded == Select(w.ring.hist[m.rebuiltFrom..], Asked(sel))
            && rows == RowsOf(m.folded, field, RuleOf(m, m.folded, windowSeconds, now)))
      && (m.mode == Passthrough || m.rebuiltFrom == w.ring.Base() ==>
            SameButRate(rows, RowsOf(HistOf(w.ring, sel), field, rule)))
  {
    AlwaysTracked(detect, cap, ops);
    assert ops[..|ops|] == ops;
    var w := Run(detect, Start(cap), ops);
    SyncKeeps(detect, w, sel, def, now);
    HistOfOrderly(w.ring, sel);
    RowsOfSync(w.ring, SyncStep(detect, w.model, w.ring, Some(sel), def, now), sel, windowSeconds, now, rule);
  }

  lemma RowsOfSync(r: RingState, m: ModelState, sel: Sel, windowSeconds: int, now: int, rule: RateRule)
    requires m.eff.Some?
    requires m.mode == Incremental ==>
               m.curKey.Some? && m.curKey.value.sel == sel && m.cursor == |r.hist| && Folded(r, m)
    requires HistOf(r, sel) == Select(r.Contents(), Asked(sel))
    ensures m.mode == Incremental ==> m.folded == Select(r.hist[m.rebuiltFrom..], Asked(sel))
    ensures m.mode == Passthrough || m.rebuiltFrom == r.Base() ==>
              SameButRate(SyncRows(m, r, Some(sel), windowSeconds, now),
                          RowsOf(HistOf(r, sel), m.eff.value.field, rule))
  {
    if m.mode == Incremental {
      assert r.hist[m.rebuiltFrom..|r.hist|] == r.hist[m.rebuiltFrom..];
    }
    var source := SourceOf(m, r, sel);
    RateIsTheOnlyDifference(source, m.eff.value.field, RuleOf(m, source, windowSeconds, now), rule);
  }

  /**
   * Counts are cumulative: a group of the incremental model is the group over what the ring
   * still holds, preceded by exactly the group's evicted frames.
   */
  lemma GroupsKeepEvicted(r: RingState, m: ModelState, valueOf: Frame -> int, v: int)
    requires m.curKey.Some? && Folded(r, m) && m.cursor == |r.hist|
    ensures var asked := Asked(m.curKey.value.sel);
      Group(m.folded, valueOf, v) ==
      Group(Select(r.hist[m.rebuiltFrom..r.Base()], asked), valueOf, v) + Group(Select(r.Contents(), asked), valueOf, v)
  {
    var asked := Asked(m.curKey.value.sel);
    assert r.hist[m.rebuiltFrom..m.cursor] == r.hist[m.rebuiltFrom..r.Base()] + r.Contents();
    SelectConcat(r.hist[m.rebuiltFrom..r.Base()], r.Contents(), asked);
    GroupConcat(Select(r.hist[m.rebuiltFrom..r.Base()], asked), Select(r.Contents(), asked), valueOf, v);
  }
}
