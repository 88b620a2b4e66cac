/** What the rate column of the incremental model means, and where it departs from the rate from scratch. */
module ModelRates {
  import opened Common
  import opened Frames
  import opened RingStates
  import opened Seqs
  import opened Geometry
  import opened Grouping
  import opened RateBuckets
  import opened Messages
  import opened ModelStates
  import opened ModelRuns

  ghost predicate InTimeOrder(g: seq<Frame>) {
    forall i, j :: 0 <= i <= j < |g| ==> g[i].tUs <= g[j].tUs
  }

  ghost predicate AllUntil(g: seq<Frame>, now: int) {
    forall i :: 0 <= i < |g| ==> g[i].tUs <= now
  }

  /* ---- the windowed rate ---------------------------------------------------------------- */

  /** A sum of whole seconds lies between the sliding counts of one second less and of the window. */
  lemma {:induction false} SlidingBracket(g: seq<Frame>, now: int, win: int)
    requires AllUntil(g, now)
    ensures CountSince(g, (now - (win - 1) * 1000000) as real)
            <= CountIn(Seconds(g), now / 1000000 - win + 1, now / 1000000)
            <= CountSince(g, (now - win * 1000000) as real)
  {
    if g != [] {
      var init, f := g[..|g| - 1], g[|g| - 1];
      SlidingBracket(init, now, win);
      assert g == init + [f];
      SecondsSnoc(init, f);
      assert f.tUs <= now;
    }
  }

  /**
   * For a window of 1 to 600 s ending no earlier than the newest frame, the bucket rate of a group
   * is the exact number of its frames in those seconds over the window, despite bucket reuse; so it
   * is off from a sliding window by less than the frames of one second.
   */
  lemma BucketRate(g: seq<Frame>, now: int, win: int)
    requires InTimeOrder(g) && AllUntil(g, now) && 1 <= win <= HORIZON
    ensures var rate := RateOf(Bucketed(now / 1000000, win), g);
      && rate == CountIn(Seconds(g), now / 1000000 - win + 1, now / 1000000) as real / win as real
      && CountSince(g, (now - (win - 1) * 1000000) as real) as real / win as real <= rate
      && rate <= RateOf(Exact((now - win * 1000000) as real, win as real), g)
  {
    var secs := Seconds(g);
    SecondsInOrder(g, now);
    RecentWindowIsExact(secs, now / 1000000 - win + 1, now / 1000000);
    SlidingBracket(g, now, win);
    var a, c := CountSince(g, (now - (win - 1) * 1000000) as real), CountSince(g, (now - win * 1000000) as real);
    Ratio(a, CountIn(secs, now / 1000000 - win + 1, now / 1000000), win);
    Ratio(CountIn(secs, now / 1000000 - win + 1, now / 1000000), c, win);
  }

  lemma Ratio(a: nat, b: nat, w: int)
    requires a <= b && w > 0
    ensures a as real / w as real <= b as real / w as real
  {
  }

  lemma SecondsInOrder(g: seq<Frame>, now: int)
    requires InTimeOrder(g) && AllUntil(g, now)
    ensures Nondecreasing(Seconds(g))
    ensures g != [] ==> Seconds(g)[|g| - 1] <= now / 1000000
  {
  }

  /** A window one second longer loses a second whose bucket a later second took over. */
  lemma LongWindowsLoseFrames(f: Frame, g: Frame)
    requires f.tUs == 0 && g.tUs == HORIZON * 1000000
    ensures RateOf(Bucketed(HORIZON, HORIZON + 1), [f, g]) == 1.0 / 601.0
    ensures RateOf(Exact(-1000000.0, 601.0), [f, g]) == 2.0 / 601.0
  {
    var secs := Seconds([f, g]);
    assert secs == [0, 600] && secs[..1] == [0] && secs[..1][..0] == [];
    BucketSumExact(secs, 0, 600);
    assert CountIn(secs, 0, 600) == CountIn(secs[..1], 0, 600) + 1;
    assert CountIn(secs[..1], 0, 600) == 1;
    assert Bucket(0) == Bucket(600) && 0 in secs && 600 in secs;
    assert !Live(secs, 0);
    assert Share(secs, 600) == 1;
    assert BucketSum(secs, 0, 600) == BucketSum(secs, 0, 599) + Share(secs, 600);
    TwoFrames([f, g], -1000000.0);
  }

  lemma TwoFrames(g: seq<Frame>, low: real)
    requires |g| == 2 && g[0].tUs as real >= low && g[1].tUs as real >= low
    ensures CountSince(g, low) == 2
  {
    var one := g[..1];
    assert one[..0] == [] && |one| == 1;
    assert CountSince(one, low) == 1;
  }

  /** Selecting and grouping keep frames in time order and below any bound. */
  lemma {:induction false} SelectInOrder(s: seq<Frame>, q: Query, now: int)
    requires InTimeOrder(s) && AllUntil(s, now)
    ensures InTimeOrder(Select(s, q)) && AllUntil(Select(s, q), now)
    ensures forall f :: f in Select(s, q) ==> s != [] && f.tUs <= s[|s| - 1].tUs
  {
    if s != [] {
      SelectInOrder(s[..|s| - 1], q, now);
    }
  }

  lemma {:induction false} GroupInOrder(s: seq<Frame>, valueOf: Frame -> int, v: int, now: int)
    requires InTimeOrder(s) && AllUntil(s, now)
    ensures InTimeOrder(Group(s, valueOf, v)) && AllUntil(Group(s, valueOf, v), now)
    ensures forall f :: f in Group(s, valueOf, v) ==> s != [] && f.tUs <= s[|s| - 1].tUs
  {
    if s != [] {
      GroupInOrder(s[..|s| - 1], valueOf, v, now);
    }
  }

  /**
   * After any orderly run, a sync no earlier than the newest frame gives every value's group a
   * windowed rate within a second's worth of the exact one over the same frames.
   */
  lemma RunRates(detect: Detector, cap: nat, ops: seq<Op>, sel: Sel, def: Option<nat>, win: int, now: int,
                 valueOf: Frame -> int, v: int)
    requires OrderlyRun(detect, Start(cap), ops) && 1 <= win <= HORIZON
    requires var r := Run(detect, Start(cap), ops).ring; r.hist != [] ==> r.hist[|r.hist| - 1].tUs <= now
    ensures var w := Run(detect, Start(cap), ops);
      var m := SyncStep(detect, w.model, w.ring, Some(sel), def, now);
      m.mode == Incremental ==>
        var g := Group(m.folded, valueOf, v);
        var rate := RateOf(RuleOf(m, m.folded, win, now), g);
        && CountSince(g, (now - (win - 1) * 1000000) as real) as real / win as real <= rate
        && rate <= RateOf(Exact((now - win * 1000000) as real, win as real), g)
  {
    AlwaysTracked(detect, cap, ops);
    assert ops[..|ops|] == ops;
    var w := Run(detect, Start(cap), ops);
    SyncKeeps(detect, w, sel, def, now);
    HeldRates(w.ring, SyncStep(detect, w.model, w.ring, Some(sel), def, now), win, now, valueOf, v);
  }

  /** The same for any model that tracks an orderly ring. */
  lemma HeldRates(r: RingState, m: ModelState, win: int, now: int, valueOf: Frame -> int, v: int)
    requires Orderly(r) && 1 <= win <= HORIZON && (r.hist != [] ==> r.hist[|r.hist| - 1].tUs <= now)
    requires m.mode == Incremental ==> m.curKey.Some? && Folded(r, m)
    ensures m.mode == Incremental ==>
        var g := Group(m.folded, valueOf, v);
        var rate := RateOf(RuleOf(m, m.folded, win, now), g);
        && CountSince(g, (now - (win - 1) * 1000000) as real) as real / win as real <= rate
        && rate <= RateOf(Exact((now - win * 1000000) as real, win as real), g)
  {
    if m.mode == Incremental {
      var seen := r.hist[m.rebuiltFrom..m.cursor];
      assert InTimeOrder(seen) && AllUntil(seen, now);
      SelectInOrder(seen, Asked(m.curKey.value.sel), now);
      GroupInOrder(m.folded, valueOf, v, now);
      BucketRate(Group(m.folded, valueOf, v), now, win);
    }
  }

  /* ---- the rate over the whole span ------------------------------------------------------ */

  /**
   * What the noted first and last times are: those of the folded frames, except that a rebuild
   * from an empty history leaves 0 as the first time whatever is folded later.
   */
  ghost predicate Spanned(m: ModelState) {
    m.mode == Incremental && m.curKey.Some? ==>
      && m.idLast == LastTime(m.folded, 0)
      && (m.seeded ==> m.folded != [] && m.idFirst == m.folded[0].tUs)
      && (!m.seeded ==> m.idFirst == 0)
  }

  lemma {:induction false} AlwaysSpanned(detect: Detector, cap: nat, ops: seq<Op>)
    ensures Spanned(Run(detect, Start(cap), ops).model)
    decreases |ops|
  {
    if ops != [] {
      var init, op := ops[..|ops| - 1], ops[|ops| - 1];
      AlwaysSpanned(detect, cap, init);
      var w := Run(detect, Start(cap), init);
      if op.Sync? && op.sel.Some? {
        SyncSpans(detect, w, op.sel.value, op.def, op.nowTUs);
      }
    }
  }

  lemma SyncSpans(detect: Detector, w: World, sel: Sel, def: Option<nat>, now: int)
    requires Spanned(w.model)
    ensures Spanned(SyncStep(detect, w.model, w.ring, Some(sel), def, now))
  {
    var m1 := DetectStep(detect, w.model, w.ring, sel, def, now);
    var key := Key(sel, m1.eff.value.field);
    if NeedsRebuild(m1, w.ring, key, SelChanged(w.model, w.ring, sel, def)) {
      assert [] + HistOf(w.ring, sel) == HistOf(w.ring, sel);
    } else if m1.mode == Incremental {
      var r := FoldAll(key.field, m1.folded, Delta(w.ring, m1.cursor, sel));
      assert !r.overflow ==> r.folded == m1.folded + Delta(w.ring, m1.cursor, sel);
    }
  }

  /** The noted times are those of the folded frames, or make the same span by accident. */
  predicate SpanNoted(m: ModelState) {
    if |m.folded| >= 2 then
      m.seeded || m.folded[0].tUs == 0 || (m.idLast <= 1 && m.idLast - m.folded[0].tUs <= 1)
    else !m.seeded && m.idLast == 1000000
  }

  /** Over the whole span, the group rule divides by the time between the folded frames just in these cases. */
  lemma WholeSpanExact(m: ModelState, now: int)
    requires Spanned(m) && m.mode == Incremental && m.curKey.Some?
    ensures RuleOf(m, m.folded, 0, now) == Whole(SpanOf(m.folded)) <==> SpanNoted(m)
  {
  }

  lemma {:induction false} CountAllSince(g: seq<Frame>, low: real)
    ensures CountSince(g, low) <= |g|
    ensures CountSince(g, low) == |g| <==> forall f :: f in g ==> f.tUs as real >= low
  {
    if g != [] {
      CountAllSince(g[..|g| - 1], low);
      assert g == g[..|g| - 1] + [g[|g| - 1]];
    }
  }

  /** Then the rate of a group agrees with the one from scratch just when no frame of it is older
      than the span reaches back from the present. */
  lemma WholeRateExact(g: seq<Frame>, span: real, now: int)
    requires span > 0.0
    ensures RateOf(Whole(span), g) == RateOf(Exact(now as real - span * 1000000.0, span), g) <==>
            forall f :: f in g ==> f.tUs as real >= now as real - span * 1000000.0
  {
    var low := now as real - span * 1000000.0;
    CountAllSince(g, low);
    var c := CountSince(g, low);
    assert c as real / span == |g| as real / span <==> c == |g| by {
      assert c as real / span * span == c as real;
      assert |g| as real / span * span == |g| as real;
    }
  }

  /** Every group of the rows over `fs` is rated alike by both rules. */
  ghost predicate SameRates(fs: seq<Frame>, field: Option<Signal>, r1: RateRule, r2: RateRule) {
    match field
    case None => fs != [] ==> RateOf(r1, fs) == RateOf(r2, fs)
    case Some(fd) =>
      forall v :: v in Values(fs, FieldValueOf(fd)) ==>
        RateOf(r1, Group(fs, FieldValueOf(fd), v)) == RateOf(r2, Group(fs, FieldValueOf(fd), v))
  }

  /** Rows by two rules are the same, rate column and all, just when every group is rated alike. */
  lemma SameRowsIffSameRates(fs: seq<Frame>, field: Option<Signal>, r1: RateRule, r2: RateRule)
    ensures RowsOf(fs, field, r1) == RowsOf(fs, field, r2) <==> SameRates(fs, field, r1, r2)
  {
    if fs != [] {
      match field
      case None =>
        assert RowsOf(fs, field, r1)[0].rate == RateOf(r1, fs) && RowsOf(fs, field, r2)[0].rate == RateOf(r2, fs);
      case Some(fd) => SameValueRows(fs, FieldValueOf(fd), r1, r2, FieldBytes(fd), FieldHexWidth(fd));
    }
  }

  lemma SameValueRows(fs: seq<Frame>, valueOf: Frame -> int, r1: RateRule, r2: RateRule, idBytes: seq<nat>, hex: nat)
    ensures ValueRows(fs, valueOf, r1, idBytes, hex) == ValueRows(fs, valueOf, r2, idBytes, hex) <==>
            forall v :: v in Values(fs, valueOf) ==>
              RateOf(r1, Group(fs, valueOf, v)) == RateOf(r2, Group(fs, valueOf, v))
  {
    var vs := SortedValues(fs, valueOf);
    var a, b := ValueRows(fs, valueOf, r1, idBytes, hex), ValueRows(fs, valueOf, r2, idBytes, hex);
    forall i | 0 <= i < |vs|
      ensures vs[i] in Values(fs, valueOf)
      ensures a[i] == b[i] <==> RateOf(r1, Group(fs, valueOf, vs[i])) == RateOf(r2, Group(fs, valueOf, vs[i]))
    {
      assert vs[i] in vs;
      GroupNonempty(fs, valueOf, vs[i]);
      assert a[i].rate == RateOf(r1, Group(fs, valueOf, vs[i])) && b[i].rate == RateOf(r2, Group(fs, valueOf, vs[i]));
    }
    if forall v :: v in Values(fs, valueOf) ==> RateOf(r1, Group(fs, valueOf, v)) == RateOf(r2, Group(fs, valueOf, v)) {
      assert a == b;
    } else {
      var v :| v in Values(fs, valueOf) && RateOf(r1, Group(fs, valueOf, v)) != RateOf(r2, Group(fs, valueOf, v));
      assert v in vs;
      var i :| 0 <= i < |vs| && vs[i] == v;
      assert a[i] != b[i];
    }
  }

  /** No frame is older than the span reaches back from the present. */
  predicate Reached(fs: seq<Frame>, now: int) {
    forall f :: f in fs ==> f.tUs as real >= now as real - SpanOf(fs) * 1000000.0
  }

  /** A group loses frames from the count in the proportion its span is short of the noted one. */
  ghost predicate Cancels(g: seq<Frame>, low: real, span: real, noted: real) {
    |g| as real * span == CountSince(g, low) as real * noted
  }

  ghost predicate AllCancel(fs: seq<Frame>, field: Option<Signal>, low: real, span: real, noted: real) {
    match field
    case None => Cancels(fs, low, span, noted)
    case Some(fd) =>
      forall v :: v in Values(fs, FieldValueOf(fd)) ==> Cancels(Group(fs, FieldValueOf(fd), v), low, span, noted)
  }

  /**
   * The all-time rate column of the incremental model is the one from scratch over the same frames
   * exactly when: the noted span is right and no frame is older than it reaches back; or it is
   * wrong, and every group loses frames in just the proportion that makes up for it.  At a time when
   * no frame is too old, the right span is all that matters.
   */
  lemma AllTimeRatesExact(m: ModelState, field: Option<Signal>, now: int)
    requires Spanned(m) && m.mode == Incremental && m.curKey.Some?
    ensures var fs, noted := m.folded, RuleOf(m, m.folded, 0, now).denom;
      RowsOf(fs, field, RuleOf(m, fs, 0, now)) == RowsOf(fs, field, ScratchRule(fs, 0, now)) <==>
        if SpanNoted(m) then Reached(fs, now)
        else AllCancel(fs, field, now as real - SpanOf(fs) * 1000000.0, SpanOf(fs), noted)
    ensures var fs := m.folded;
      Reached(fs, now) ==>
        (RowsOf(fs, field, RuleOf(m, fs, 0, now)) == RowsOf(fs, field, ScratchRule(fs, 0, now)) <==>
           SpanNoted(m) || fs == [])
  {
    var fs, span, noted := m.folded, SpanOf(m.folded), RuleOf(m, m.folded, 0, now).denom;
    var low := now as real - span * 1000000.0;
    WholeSpanExact(m, now);
    ColumnCancels(fs, field, low, span, noted);
    ColumnCounted(fs, field, low, span);
    if Reached(fs, now) && fs != [] && noted != span {
      ColumnShifts(fs, field, low, span, noted);
    }
  }

  /** A wrong span shifts the rate of every group that has lost no frame. */
  lemma ColumnShifts(fs: seq<Frame>, field: Option<Signal>, low: real, span: real, noted: real)
    requires fs != [] && noted != span && forall f :: f in fs ==> f.tUs as real >= low
    ensures !AllCancel(fs, field, low, span, noted)
  {
    match field
    case None => GroupShifts(fs, low, span, noted);
    case Some(fd) =>
      var v := FieldValueOf(fd)(fs[0]);
      assert fs[0] in fs;
      GroupMembers(fs, FieldValueOf(fd), v);
      GroupShifts(Group(fs, FieldValueOf(fd), v), low, span, noted);
  }

  lemma GroupShifts(g: seq<Frame>, low: real, span: real, noted: real)
    requires noted != span && forall f :: f in g ==> f.tUs as real >= low
    ensures g != [] ==> !Cancels(g, low, span, noted)
  {
    CountAllSince(g, low);
  }

  lemma ColumnCancels(fs: seq<Frame>, field: Option<Signal>, low: real, span: real, noted: real)
    requires span > 0.0 && noted > 0.0
    ensures RowsOf(fs, field, Whole(noted)) == RowsOf(fs, field, Exact(low, span)) <==>
            AllCancel(fs, field, low, span, noted)
  {
    SameRowsIffSameRates(fs, field, Whole(noted), Exact(low, span));
    match field
    case None => RatesCancel(fs, low, span, noted);
    case Some(fd) => GroupsCancel(fs, FieldValueOf(fd), low, span, noted);
  }

  lemma GroupsCancel(fs: seq<Frame>, valueOf: Frame -> int, low: real, span: real, noted: real)
    requires span > 0.0 && noted > 0.0
    ensures forall v: int ::
              RateOf(Whole(noted), Group(fs, valueOf, v)) == RateOf(Exact(low, span), Group(fs, valueOf, v))
              <==> Cancels(Group(fs, valueOf, v), low, span, noted)
  {
    forall v: int
      ensures RateOf(Whole(noted), Group(fs, valueOf, v)) == RateOf(Exact(low, span), Group(fs, valueOf, v))
              <==> Cancels(Group(fs, valueOf, v), low, span, noted)
    {
      RatesCancel(Group(fs, valueOf, v), low, span, noted);
    }
  }

  lemma ColumnCounted(fs: seq<Frame>, field: Option<Signal>, low: real, span: real)
    requires span > 0.0
    ensures AllCancel(fs, field, low, span, span) <==> forall f :: f in fs ==> f.tUs as real >= low
  {
    match field
    case None => AllCounted(fs, low, span);
    case Some(fd) => GroupsCounted(fs, FieldValueOf(fd), low, span);
  }

  lemma RatesCancel(g: seq<Frame>, low: real, span: real, noted: real)
    requires span > 0.0 && noted > 0.0
    ensures RateOf(Whole(noted), g) == RateOf(Exact(low, span), g) <==> Cancels(g, low, span, noted)
  {
    Quotients(|g| as real, CountSince(g, low) as real, span, noted);
  }

  lemma Quotients(n: real, c: real, span: real, noted: real)
    requires span > 0.0 && noted > 0.0
    ensures n / noted == c / span <==> n * span == c * noted
  {
    assert n / noted * noted == n && c / span * span == c;
    if n / noted == c / span {
      var q := c / span;
      assert n * span == (q * noted) * span == (q * span) * noted == c * noted;
    }
    if n * span == c * noted {
      assert n / noted * noted * span == c / span * span * noted;
      assert (n / noted - c / span) * (noted * span) == 0.0;
      assert noted * span > 0.0;
    }
  }

  /** With the right span, a group is rated alike just when all of it is counted. */
  lemma AllCounted(g: seq<Frame>, low: real, span: real)
    requires span > 0.0
    ensures Cancels(g, low, span, span) <==> forall f :: f in g ==> f.tUs as real >= low
  {
    CountAllSince(g, low);
  }

  lemma GroupsCounted(fs: seq<Frame>, valueOf: Frame -> int, low: real, span: real)
    requires span > 0.0
    ensures (forall v :: v in Values(fs, valueOf) ==> Cancels(Group(fs, valueOf, v), low, span, span)) <==>
            forall f :: f in fs ==> f.tUs as real >= low
  {
    forall v ensures Cancels(Group(fs, valueOf, v), low, span, span) <==>
                     forall f :: f in Group(fs, valueOf, v) ==> f.tUs as real >= low {
      AllCounted(Group(fs, valueOf, v), low, span);
      GroupMembers(fs, valueOf, v);
    }
    forall f | f in fs ensures f in Group(fs, valueOf, valueOf(f)) && valueOf(f) in Values(fs, valueOf) {
      GroupMembers(fs, valueOf, valueOf(f));
    }
    forall v ensures forall f :: f in Group(fs, valueOf, v) ==> f in fs {
      GroupMembers(fs, valueOf, v);
    }
  }

  lemma {:induction false} GroupMembers(fs: seq<Frame>, valueOf: Frame -> int, v: int)
    ensures forall f :: f in Group(fs, valueOf, v) <==> f in fs && valueOf(f) == v
  {
    if fs != [] {
      GroupMembers(fs[..|fs| - 1], valueOf, v);
      assert fs == fs[..|fs| - 1] + [fs[|fs| - 1]];
    }
  }

  /** A sync of a selection that has no frame yet fixes 0 as its first time: the next two frames,
      a second apart, then count over the whole time before them, here 100 s. */
  lemma EarlySelectionDistortsTheSpan(detect: Detector, sel: Sel, f: Frame, g: Frame)
    requires forall h, d :: detect(h, d) == None
    requires f.id == sel.id && f.isExtended == sel.isExtended && f.tUs == 99000000
    requires g.id == sel.id && g.isExtended == sel.isExtended && g.tUs == 100000000
    ensures var early := SyncStep(detect, INITIAL, RingState(10, 0, []), Some(sel), None, 0);
            var m := SyncStep(detect, early, RingState(10, 0, [f, g]), Some(sel), None, g.tUs);
            m.folded == [f, g] && RuleOf(m, m.folded, 0, g.tUs) == Whole(100.0) && SpanOf(m.folded) == 1.0
  {
    FirstSync(detect, sel);
    LaterSync(detect, SyncStep(detect, INITIAL, RingState(10, 0, []), Some(sel), None, 0), sel, f, g);
  }

  /** An empty ring leaves empty groups with no first time. */
  lemma FirstSync(detect: Detector, sel: Sel)
    requires forall h, d :: detect(h, d) == None
    ensures SyncStep(detect, INITIAL, RingState(10, 0, []), Some(sel), None, 0) ==
            INITIAL.(eff := Some(Eff(None)), lastDetect := Some(0), curSel := Some(sel), lastGen := 0,
                     curKey := Some(Key(sel, None)))
  {
    assert HistOf(RingState(10, 0, []), sel) == [];
  }

  lemma LaterSync(detect: Detector, m: ModelState, sel: Sel, f: Frame, g: Frame)
    requires forall h, d :: detect(h, d) == None
    requires m == INITIAL.(eff := Some(Eff(None)), lastDetect := Some(0), curSel := Some(sel), lastGen := 0,
                           curKey := Some(Key(sel, None)))
    requires f.id == sel.id && f.isExtended == sel.isExtended && f.tUs == 99000000
    requires g.id == sel.id && g.isExtended == sel.isExtended && g.tUs == 100000000
    ensures var m' := SyncStep(detect, m, RingState(10, 0, [f, g]), Some(sel), None, g.tUs);
            m'.folded == [f, g] && RuleOf(m', m'.folded, 0, g.tUs) == Whole(100.0) && SpanOf(m'.folded) == 1.0
  {
    var d, r := [f, g], RingState(10, 0, [f, g]);
    BothAsked(sel, f, g);
    var m1 := DetectStep(detect, m, r, sel, None, g.tUs);
    assert m1.eff == Some(Eff(None)) && m1.folded == [] && m1.cursor == 0 && m1.mode == Incremental;
    assert !NeedsRebuild(m1, r, Key(sel, None), SelChanged(m, r, sel, None));
    AppendBoth(m1, f, g);
    var m2 := Append(m1, None, d, 2);
    assert RegroupStep(m1, r, Key(sel, None), false) == m2;
  }

  lemma BothAsked(sel: Sel, f: Frame, g: Frame)
    requires f.id == sel.id == g.id && f.isExtended == sel.isExtended == g.isExtended
    ensures Delta(RingState(10, 0, [f, g]), 0, sel) == [f, g]
  {
    var d := [f, g];
    assert d[0..] == d && d[..1] == [f] && d[..1][..0] == [];
    DeltaIsAsked(d, sel);
    assert Select(d[..1], Asked(sel)) == [f];
  }

  lemma AppendBoth(m: ModelState, f: Frame, g: Frame)
    requires m.folded == []
    ensures var m' := Append(m, None, [f, g], 2);
      m'.folded == [f, g] && m'.idFirst == m.idFirst && m'.idLast == g.tUs && m'.mode == m.mode
  {
    var d := [f, g];
    NothingIsNarrow(None);
    FoldOverflow(None, [], d);
    assert [] + d == d;
  }
}
