/** The incremental message model as the view keeps it: groups updated in place, one per value. */
module MessageModel {
  import opened Common
  import opened Frames
  import opened RingStates
  import opened Ring
  import opened Geometry
  import opened Grouping
  import opened RateBuckets
  import opened Messages
  import opened ModelStates
  import opened Seqs

  /** One message group with its rate buckets. */
  class Grp {
    var data: seq<byte>
    var dlc: nat
    var count: nat
    var lastTUs: int
    const bSec: array<int>
    const bCnt: array<int>
    ghost const repr: set<object>
    /** The frames folded into this group. */
    ghost var frames: seq<Frame>

    ghost predicate Valid()
      reads this, repr
    {
      && this in repr && bSec in repr && bCnt in repr
      && Holds(bSec, bCnt, Seconds(frames))
      && count == |frames|
      && (frames != [] ==>
            var last := frames[|frames| - 1]; data == last.data && dlc == last.dlc && lastTUs == last.tUs)
    }

    constructor (f: Frame)
      ensures Valid() && frames == [] && fresh(repr)
    {
      data, dlc, count, lastTUs := f.data, f.dlc, 0, f.tUs;
      var s, c := new int[HORIZON](_ => -1), new int[HORIZON](_ => 0);
      bSec, bCnt := s, c;
      repr := {this, s, c};
      frames := [];
    }

    method Update(f: Frame)
      requires Valid()
      modifies repr
      ensures Valid() && frames == old(frames) + [f]
    {
      count := count + 1;
      data := f.data;
      dlc := f.dlc;
      lastTUs := f.tUs;
      Bump(bSec, bCnt, f.tUs / 1000000, Seconds(frames));
      SecondsSnoc(frames, f);
      frames := frames + [f];
    }

    /** The row of this group under an emission rule. */
    method Emit(mux: Option<int>, rule: RateRule, idBytes: Option<seq<nat>>, hex: nat) returns (row: Row)
      requires Valid() && frames != [] && !rule.Exact?
      ensures row == GroupRow(mux, frames, rule, idBytes, hex)
    {
      var rate := 0.0;
      match rule {
        case Whole(denom) =>
          if denom > 0.0 {
            rate := count as real / denom;
          }
        case Bucketed(nowSec, winSec) =>
          if winSec > 0 {
            var wc := WindowedCount(bSec, bCnt, nowSec, winSec, Seconds(frames));
            rate := wc as real / winSec as real;
          }
      }
      row := Row(mux, data, dlc, rate, lastTUs, count, idBytes, hex);
    }
  }

  /** Groups keyed by value, no two sharing storage. */
  ghost predicate GroupsApart(groups: map<int, Grp>) {
    forall v, w :: v in groups && w in groups && v != w ==> Apart(groups, v, w)
  }

  ghost predicate Apart(groups: map<int, Grp>, v: int, w: int)
    requires v in groups && w in groups
  {
    groups[v].repr !! groups[w].repr
  }

  /** A valid group that holds `g`, living inside the footprint. */
  ghost predicate HoldsGroup(grp: Grp, fp: set<object>, g: seq<Frame>)
    reads fp
  {
    grp in fp && grp.repr <= fp && grp.Valid() && grp.frames == g
  }

  /** The map holds the group of value `v` exactly when some frame has that value. */
  ghost predicate Keyed(groups: map<int, Grp>, fp: set<object>, fs: seq<Frame>, valueOf: Frame -> int, v: int)
    reads fp
  {
    && (v in groups <==> Group(fs, valueOf, v) != [])
    && (v in groups ==> HoldsGroup(groups[v], fp, Group(fs, valueOf, v)))
  }

  /** The map holds exactly the groups of `fs`, all inside the footprint. */
  ghost predicate GroupsOf(groups: map<int, Grp>, fp: set<object>, fs: seq<Frame>, valueOf: Frame -> int)
    reads fp
  {
    && GroupsApart(groups)
    && (forall v: int :: Keyed(groups, fp, fs, valueOf, v))
  }

  /** `groups.get(v)`, created and set when it is missing. */
  method Obtain(groups0: map<int, Grp>, ghost fp0: set<object>, f: Frame, v: int, ghost fs: seq<Frame>,
                ghost valueOf: Frame -> int)
    returns (groups: map<int, Grp>, ghost fp: set<object>)
    requires GroupsOf(groups0, fp0, fs, valueOf)
    ensures v in groups && groups == groups0[v := groups[v]] && (v in groups0 ==> groups[v] == groups0[v])
    ensures GroupsApart(groups)
    ensures fp0 <= fp && fresh(fp - fp0)
    ensures HoldsGroup(groups[v], fp, Group(fs, valueOf, v))
    ensures forall u: int :: u != v ==> Keyed(groups, fp, fs, valueOf, u)
    ensures groups[v].repr <= fp0 || fresh(groups[v].repr)
  {
    groups, fp := groups0, fp0;
    assert Keyed(groups0, fp0, fs, valueOf, v);
    if v !in groups {
      var g := new Grp(f);
      groups := groups[v := g];
      fp := fp + g.repr;
    }
    forall u: int | u != v ensures Keyed(groups, fp, fs, valueOf, u) {
      assert Keyed(groups0, fp0, fs, valueOf, u);
    }
    forall u, w | u in groups && w in groups && u != w ensures Apart(groups, u, w) {
      if u in groups0 && w in groups0 {
        assert Apart(groups0, u, w);
      } else {
        assert Keyed(groups0, fp0, fs, valueOf, if u == v then w else u);
      }
    }
  }

  /** Fold one frame into the group of its value. */
  method FoldFrame(groups0: map<int, Grp>, ghost fp0: set<object>, f: Frame, valueOf: Frame -> int,
                   ghost fs: seq<Frame>)
    returns (groups: map<int, Grp>, ghost fp: set<object>)
    requires GroupsOf(groups0, fp0, fs, valueOf)
    modifies fp0
    ensures GroupsOf(groups, fp, fs + [f], valueOf)
    ensures fp0 <= fp && fresh(fp - fp0)
  {
    var v := valueOf(f);
    groups, fp := Obtain(groups0, fp0, f, v, fs, valueOf);
    label L:
    groups[v].Update(f);
    forall u: int ensures Keyed(groups, fp, fs + [f], valueOf, u) {
      GroupSnoc(fs, f, valueOf, u);
      if u != v {
        assert old@L(Keyed(groups, fp, fs, valueOf, u));
        assert u in groups ==> Apart(groups, u, v);
      }
    }
  }

  /** Without a field every frame has the same value. */
  const Alone: Frame -> int := (f: Frame) => 0

  ghost function AsMap(g: Option<Grp>): map<int, Grp> {
    if g.Some? then map[0 := g.value] else map[]
  }

  /** All frames are in the one group. */
  lemma {:induction false} AloneGroup(fs: seq<Frame>)
    ensures forall v :: Group(fs, Alone, v) == if v == 0 then fs else []
  {
    if fs != [] {
      AloneGroup(fs[..|fs| - 1]);
      assert fs == fs[..|fs| - 1] + [fs[|fs| - 1]];
    }
  }

  lemma HoldsAlone(groups: map<int, Grp>, fp: set<object>, fs: seq<Frame>)
    requires GroupsOf(groups, fp, fs, Alone)
    ensures 0 in groups <==> fs != []
    ensures 0 in groups ==> HoldsGroup(groups[0], fp, fs)
  {
    AloneGroup(fs);
    assert Keyed(groups, fp, fs, Alone, 0);
  }

  lemma AloneHolds(g: Grp, fp: set<object>, fs: seq<Frame>)
    requires fs != [] && HoldsGroup(g, fp, fs)
    ensures GroupsOf(map[0 := g], fp, fs, Alone)
  {
    AloneGroup(fs);
    forall v: int ensures Keyed(map[0 := g], fp, fs, Alone, v) {
    }
  }

  /** The group state of the model: one group per field value, or a single one without a field. */
  class GroupTable {
    var groups: map<int, Grp>
    var nullGroup: Option<Grp>
    var valueOfFn: Option<Frame -> int>
    var idBytes: Option<seq<nat>>
    var idHexWidth: nat
    /** The frames folded since the table was last emptied. */
    ghost var folded: seq<Frame>
    ghost var fp: set<object>

    /** The groups split the folded frames by the value function in force. */
    ghost predicate Valid()
      reads this, fp
    {
      && this !in fp
      && match valueOfFn
         case None =>
           groups == map[] && GroupsOf(AsMap(nullGroup), fp, folded, Alone)
         case Some(valueOf) =>
           nullGroup.None? && GroupsOf(groups, fp, folded, valueOf)
    }

    /** The value function and the shown columns are those of `field`. */
    ghost predicate ReadsField(field: Option<Signal>)
      reads this
    {
      match field
      case None => valueOfFn.None? && idBytes.None? && idHexWidth == 0
      case Some(fd) =>
        valueOfFn == Some(FieldValueOf(fd)) && idBytes == Some(FieldBytes(fd)) && idHexWidth == FieldHexWidth(fd)
    }

    constructor ()
      ensures Valid() && folded == [] && fp == {} && ReadsField(None)
    {
      groups, nullGroup, valueOfFn, idBytes, idHexWidth := map[], None, None, None, 0;
      folded, fp := [], {};
      new;
      NoGroups(fp, Alone);
    }

    /** Drop all groups. */
    method Empty()
      requires this !in fp
      modifies this
      ensures Valid() && folded == [] && fp == old(fp)
      ensures valueOfFn == old(valueOfFn) && idBytes == old(idBytes) && idHexWidth == old(idHexWidth)
    {
      groups := map[];
      nullGroup := None;
      folded := [];
      NoGroups(fp, if valueOfFn.Some? then valueOfFn.value else Alone);
    }

    /** Empty groups for a field. */
    method StartOver(field: Option<Signal>)
      requires this !in fp
      modifies this
      ensures Valid() && ReadsField(field) && folded == [] && fp == old(fp)
    {
      valueOfFn := if field.Some? then Some(FieldValueOf(field.value)) else None;
      idBytes := if field.Some? then Some(FieldBytes(field.value)) else None;
      idHexWidth := if field.Some? then FieldHexWidth(field.value) else 0;
      Empty();
    }

    /** The single message of a frame without a discriminator. */
    method AddToNull(f: Frame)
      requires Valid() && valueOfFn.None?
      modifies this`nullGroup, this`folded, this`fp, fp
      ensures Valid() && fresh(fp - old(fp)) && folded == old(folded) + [f]
    {
      HoldsAlone(AsMap(nullGroup), fp, folded);
      var g: Grp;
      if nullGroup.None? {
        g := new Grp(f);
        nullGroup := Some(g);
        fp := fp + g.repr;
      } else {
        g := nullGroup.value;
      }
      assert HoldsGroup(g, fp, folded);
      g.Update(f);
      folded := folded + [f];
      AloneHolds(g, fp, folded);
    }

    /** The message with the frame's field value. */
    method AddToGroup(f: Frame)
      requires Valid() && valueOfFn.Some?
      modifies this`groups, this`folded, this`fp, fp
      ensures Valid() && fresh(fp - old(fp)) && folded == old(folded) + [f]
      ensures |groups| == |Values(folded, valueOfFn.value)|
    {
      var valueOf := valueOfFn.value;
      ghost var now := folded + [f];
      groups, fp := FoldFrame(groups, fp, f, valueOf, folded);
      folded := now;
      assert GroupsOf(groups, fp, now, valueOf);
      GroupCount(groups, fp, now, valueOf);
    }

    /** Fold one frame into the group state; false when it overflowed the message limit. */
    method AddFrame(f: Frame) returns (ok: bool)
      requires Valid()
      modifies this`nullGroup, this`groups, this`folded, this`fp, fp
      ensures Valid() && fresh(fp - old(fp)) && folded == old(folded) + [f]
      ensures ok == (valueOfFn.Some? ==> |Values(folded, valueOfFn.value)| <= MAX_MESSAGES)
    {
      if valueOfFn.None? {
        AddToNull(f);
        ok := true;
      } else {
        AddToGroup(f);
        ok := |groups| <= MAX_MESSAGES;
      }
    }

    /** Fold one frame of a field's table; false when the field has become too wide. */
    method FoldOne(field: Option<Signal>, f: Frame) returns (ok: bool)
      requires Valid() && ReadsField(field)
      modifies this`nullGroup, this`groups, this`folded, this`fp, fp
      ensures Valid() && ReadsField(field) && fresh(fp - old(fp)) && folded == old(folded) + [f]
      ensures ok == !TooWide(field, folded)
    {
      ok := AddFrame(f);
    }

    /** Fold frames one by one, stopping at the one that makes the field too wide. */
    method FoldFrames(field: Option<Signal>, frames: seq<Frame>) returns (fed: nat, overflow: bool)
      requires Valid() && ReadsField(field)
      modifies this`nullGroup, this`groups, this`folded, this`fp, fp
      ensures Valid() && ReadsField(field) && fresh(fp - old(fp))
      ensures FoldAll(field, old(folded), frames) == Fold(folded, fed, overflow)
    {
      ghost var base := folded;
      for i := 0 to |frames|
        invariant Valid() && ReadsField(field) && fresh(fp - old(fp))
        invariant FoldAll(field, base, frames[..i]) == Fold(folded, i, false)
      {
        FoldNext(field, base, frames, i);
        var ok := FoldOne(field, frames[i]);
        if !ok {
          FoldStops(field, base, frames, i + 1);
          return i + 1, true;
        }
      }
      assert frames[..|frames|] == frames;
      return |frames|, false;
    }

    /** The rows of the groups, value ascending. */
    method Emit(field: Option<Signal>, rule: RateRule) returns (rows: seq<Row>)
      requires Valid() && ReadsField(field) && !rule.Exact?
      ensures rows == RowsOf(folded, field, rule)
    {
      if valueOfFn.None? {
        AloneGroup(folded);
        assert Keyed(AsMap(nullGroup), fp, folded, Alone, 0);
        if nullGroup.None? {
          return [];
        }
        var row := nullGroup.value.Emit(None, rule, None, 0);
        return [row];
      }
      rows := EmitGroups(rule);
      NoFramesNoRows(folded, valueOfFn.value, rule, idBytes.value, idHexWidth);
    }

    method EmitGroups(rule: RateRule) returns (rows: seq<Row>)
      requires Valid() && valueOfFn.Some? && idBytes.Some? && !rule.Exact?
      ensures rows == ValueRows(folded, valueOfFn.value, rule, idBytes.value, idHexWidth)
    {
      var keys := KeysOf(groups);
      var sorted := SortAscending(keys);
      forall v: int ensures v in sorted <==> v in SortedValues(folded, valueOfFn.value) {
        assert Keyed(groups, fp, folded, valueOfFn.value, v);
        GroupNonempty(folded, valueOfFn.value, v);
      }
      SortedUnique(sorted, SortedValues(folded, valueOfFn.value));
      ghost var all := ValueRows(folded, valueOfFn.value, rule, idBytes.value, idHexWidth);
      rows := [];
      for i := 0 to |sorted|
        invariant rows == all[..i] && |all| == |sorted|
      {
        var v := sorted[i];
        assert v in sorted;
        assert Keyed(groups, fp, folded, valueOfFn.value, v);
        var row := groups[v].Emit(Some(v), rule, idBytes, idHexWidth);
        TakeNext(all, i);
        rows := rows + [row];
      }
    }
  }

  class MessageModel {
    const detect: Detector
    var eff: Option<Eff>
    var lastDetect: Option<int>
    var curSel: Option<Sel>
    var curDef: Option<nat>
    var lastGen: int
    var idCount: nat
    var detectCount: nat
    var curKey: Option<Key>
    var mode: Mode
    var cursor: nat
    var idFirst: int
    var idLast: int
    const table: GroupTable
    /** The ring position the last rebuild started from, and whether it saw any frame. */
    ghost var rebuiltFrom: nat
    ghost var seeded: bool

    ghost function State(): ModelState
      reads this, table
    {
      ModelState(eff, lastDetect, curSel, curDef, lastGen, idCount, detectCount, curKey, mode, cursor,
                 table.folded, idFirst, idLast, rebuiltFrom, seeded)
    }

    ghost predicate Valid()
      reads this`mode, this`curKey, table, table.fp
    {
      && this !in table.fp && table.Valid()
      && (mode == Incremental && curKey.Some? ==> table.ReadsField(curKey.value.field))
    }

    /** The model shares no storage with the ring it reads. */
    ghost predicate Beside(ring: RawFrameRing)
      reads table, ring, ring.cols.repr
    {
      && ring.Valid() && (ring as object) !in {this as object, table} && ring.cols.repr !! {this as object, table}
      && ring !in table.fp && table.fp !! ring.cols.repr
    }

    constructor (detect: Detector)
      ensures Valid() && State() == INITIAL && this.detect == detect && table.fp == {} && fresh(table)
    {
      this.detect := detect;
      eff, lastDetect, curSel, curDef, lastGen, idCount, detectCount := None, None, None, None, -1, 0, 0;
      curKey, mode, cursor, idFirst, idLast := None, Incremental, 0, 0, 0;
      table := new GroupTable();
      rebuiltFrom, seeded := 0, false;
    }

    method ResetAll()
      requires Valid()
      modifies this, table
      ensures Valid() && table.fp == old(table.fp) && State() == Reset(old(State()))
    {
      table.Empty();
      Forget();
    }

    method Forget()
      modifies this`eff, this`lastDetect, this`curSel, this`curDef, this`curKey, this`mode, this`cursor, this`idCount,
               this`detectCount
      ensures eff.None? && lastDetect.None? && curSel.None? && curDef.None? && curKey.None?
      ensures mode == Incremental && cursor == 0 && idCount == 0 && detectCount == 0
    {
      eff, lastDetect, curSel, curDef, curKey := None, None, None, None, None;
      mode, cursor, idCount, detectCount := Incremental, 0, 0, 0;
    }

    /** Too wide: drop all group state and derive the rows from scratch from now on. */
    method GiveUp()
      requires this !in table.fp && table !in table.fp
      modifies this`mode, table
      ensures Valid() && mode == Passthrough && table.folded == [] && table.fp == old(table.fp)
    {
      mode := Passthrough;
      table.Empty();
    }

    /** The bookkeeping of a rebuild. */
    method NoteRebuild(key: Key, hist: seq<Frame>, fed: nat, next: nat, ghost ring: RingState)
      modifies this`curKey, this`idCount, this`idFirst, this`idLast, this`cursor, this`rebuiltFrom, this`seeded,
               this`mode
      ensures curKey == Some(key) && idCount == fed && cursor == next && mode == Incremental
      ensures idFirst == (if hist == [] then 0 else hist[0].tUs) && idLast == LastTime(hist, 0)
      ensures rebuiltFrom == ring.Base() && seeded == (hist != [])
    {
      curKey := Some(key);
      idCount := fed;
      idFirst := if |hist| > 0 then hist[0].tUs else 0;
      idLast := if |hist| > 0 then hist[|hist| - 1].tUs else 0;
      cursor := next;
      rebuiltFrom := ring.Base();
      seeded := hist != [];
      mode := Incremental;
    }

    /** What follows the fold of a rebuild: the bookkeeping, and giving up when it overflowed. */
    method FinishRebuild(key: Key, hist: seq<Frame>, fed: nat, overflow: bool, next: nat, ghost ring: RingState)
      requires this !in table.fp && table !in table.fp && table.Valid() && table.ReadsField(key.field)
      requires next == |ring.hist|
      modifies this, table
      ensures Valid() && table.fp == old(table.fp)
      ensures State() == Rebuilt(old(State()), key, hist, Fold(old(table.folded), fed, overflow), ring)
    {
      NoteRebuild(key, hist, fed, next, ring);
      if overflow {
        GiveUp();
      }
    }

    /** Fold a whole history into fresh groups; too wide a field drops them all. */
    method RebuildState(key: Key, hist: seq<Frame>, next: nat, ghost ring: RingState)
      requires Valid() && next == |ring.hist|
      modifies this, table, table.fp
      ensures Valid() && fresh(table.fp - old(table.fp))
      ensures State() == Rebuild(old(State()), key, hist, ring)
    {
      table.StartOver(key.field);
      var fed, overflow := table.FoldFrames(key.field, hist);
      FinishRebuild(key, hist, fed, overflow, next, ring);
    }

    /** The bookkeeping of an append: the newest time follows every frame that fitted. */
    method NoteAppend(fed: nat, kept: seq<Frame>, next: nat)
      modifies this`idCount, this`idLast, this`cursor
      ensures idCount == old(idCount) + fed && idLast == LastTime(kept, old(idLast)) && cursor == next
    {
      idCount := idCount + fed;
      if |kept| > 0 {
        idLast := kept[|kept| - 1].tUs;
      }
      cursor := next;
    }

    /** What follows the fold of an append: the bookkeeping, and giving up when it overflowed. */
    method FinishAppend(wanted: seq<Frame>, fed: nat, overflow: bool, next: nat)
      requires Valid() && table !in table.fp && fed <= |wanted| && (overflow ==> fed > 0)
      modifies this`mode, this`idCount, this`idLast, this`cursor, table
      ensures Valid() && table.fp == old(table.fp)
      ensures State() == Appended(old(State()), wanted, Fold(old(table.folded), fed, overflow), next)
    {
      NoteAppend(fed, if overflow then wanted[..fed - 1] else wanted, next);
      if overflow {
        GiveUp();
      }
    }

    /** Fold the new frames a cursor read returned. */
    method AppendDelta(field: Option<Signal>, wanted: seq<Frame>, next: nat)
      requires Valid() && mode == Incremental && curKey.Some? && curKey.value.field == field
      modifies this, table, table.fp
      ensures Valid() && fresh(table.fp - old(table.fp))
      ensures State() == Append(old(State()), field, wanted, next)
    {
      var fed, overflow := table.FoldFrames(field, wanted);
      FinishAppend(wanted, fed, overflow, next);
    }

    /** The history a detection or a rebuild reads. */
    method HistoryOf(ring: RawFrameRing, sel: Sel) returns (hist: seq<Frame>)
      requires ring.Valid()
      ensures hist == HistOf(ring.State(), sel)
    {
      var all := ring.LastSeconds(ALL_SECONDS, Some(sel.id));
      hist := SameFlavour(all, sel);
    }

    /** Whether the selection changed, and whether the field is to be detected again. */
    method IsDue(ring: RawFrameRing, s: Sel, def: Option<nat>, nowTUs: int) returns (changed: bool, redetect: bool)
      ensures changed == SelChanged(State(), ring.State(), s, def)
      ensures redetect == Redetect(State(), ring.State(), s, def, nowTUs)
    {
      changed := curSel != Some(s) || def != curDef || ring.gen != lastGen;
      redetect := eff.None? || changed || 4 * idCount >= 5 * detectCount + 4
        || lastDetect.None? || nowTUs - lastDetect.value >= DETECT_REFRESH_US;
    }

    /** Note the selection and, when due, detect the field over the full history. */
    method Detect(ring: RawFrameRing, s: Sel, def: Option<nat>, nowTUs: int)
      returns (hist: Option<seq<Frame>>, changed: bool, redetect: bool)
      requires Valid() && ring.Valid()
      modifies this`lastGen, this`curSel, this`curDef, this`eff, this`lastDetect
      ensures curSel == Some(s) && curDef == def && lastGen == ring.gen
      ensures eff == Some(Eff(FieldFor(detect, old(State()), ring.State(), s, def, nowTUs)))
      ensures changed == SelChanged(old(State()), ring.State(), s, def)
      ensures redetect == Redetect(old(State()), ring.State(), s, def, nowTUs)
      ensures lastDetect == if redetect then Some(nowTUs) else old(lastDetect)
      ensures hist.Some? ==> hist.value == HistOf(ring.State(), s)
    {
      changed, redetect := IsDue(ring, s, def, nowTUs);
      hist := None;
      if redetect {
        var h := HistoryOf(ring, s);
        hist := Some(h);
        eff := Some(Eff(detect(h, def)));
        lastDetect := Some(nowTUs);
      }
      lastGen, curSel, curDef := ring.gen, Some(s), def;
    }

    /** Append what the ring received since the cursor, unless it no longer holds all of that. */
    method AppendFrom(ring: RawFrameRing, key: Key) returns (lapped: bool)
      requires Valid() && Beside(ring) && mode == Incremental && curKey == Some(key)
      modifies this, table, table.fp
      ensures Valid() && fresh(table.fp - old(table.fp)) && ring.Valid()
      ensures lapped <==> !ring.State().Serves(old(cursor))
      ensures lapped ==> State() == old(State()) && Beside(ring)
      ensures !lapped ==>
                State() == Append(old(State()), key.field, Delta(ring.State(), old(cursor), key.sel), |ring.hist|)
    {
      var wanted, next, missed := NewFrames(ring, key.sel);
      lapped := missed;
      if !lapped {
        AppendDelta(key.field, wanted, next);
      }
    }

    /** The frames of the selection that the ring received since the cursor, if it has them all. */
    method NewFrames(ring: RawFrameRing, sel: Sel) returns (wanted: seq<Frame>, next: nat, lapped: bool)
      requires ring.Valid()
      ensures lapped <==> !ring.State().Serves(cursor)
      ensures !lapped ==> wanted == Delta(ring.State(), cursor, sel) && next == |ring.hist|
    {
      var delta: seq<Frame>;
      delta, next, lapped := ring.Since(cursor, Some(sel.id));
      wanted := SameFlavour(delta, sel);
    }

    /** Bring the groups up to date: append from the cursor, or rebuild from the full history. */
    method Regroup(ring: RawFrameRing, key: Key, changed: bool, hist0: Option<seq<Frame>>)
      returns (hist: Option<seq<Frame>>)
      requires Valid() && Beside(ring)
      requires hist0.Some? ==> hist0.value == HistOf(ring.State(), key.sel)
      modifies this, table, table.fp
      ensures Valid() && fresh(table.fp - old(table.fp))
      ensures ring.Valid() && State() == RegroupStep(old(State()), ring.State(), key, changed)
      ensures hist.Some? ==> hist.value == HistOf(ring.State(), key.sel)
    {
      hist := hist0;
      var rebuild := changed || curKey != Some(key);
      if !rebuild && mode == Incremental {
        rebuild := AppendFrom(ring, key);
      }
      if rebuild {
        hist := RebuildFrom(ring, key, hist);
      }
    }

    /** Rebuild the groups from the full history, read unless it is at hand. */
    method RebuildFrom(ring: RawFrameRing, key: Key, hist0: Option<seq<Frame>>) returns (hist: Option<seq<Frame>>)
      requires Valid() && Beside(ring)
      requires hist0.Some? ==> hist0.value == HistOf(ring.State(), key.sel)
      modifies this, table, table.fp
      ensures Valid() && fresh(table.fp - old(table.fp)) && ring.Valid()
      ensures State() == Rebuild(old(State()), key, HistOf(ring.State(), key.sel), ring.State())
      ensures hist == Some(HistOf(ring.State(), key.sel))
    {
      hist := hist0;
      if hist.None? {
        var h := HistoryOf(ring, key.sel);
        hist := Some(h);
      }
      RebuildState(key, hist.value, ring.totalPushed, ring.State());
    }

    /** Emit from the groups, or from scratch in passthrough. */
    method Rows(ring: RawFrameRing, s: Sel, hist: Option<seq<Frame>>, windowSeconds: int, nowTUs: int)
      returns (rows: seq<Row>)
      requires Valid() && ring.Valid() && eff.Some?
      requires mode == Incremental ==> curKey == Some(Key(s, eff.value.field))
      requires hist.Some? ==> hist.value == HistOf(ring.State(), s)
      ensures rows == SyncRows(State(), ring.State(), Some(s), windowSeconds, nowTUs)
    {
      if mode == Passthrough {
        var h: seq<Frame>;
        if hist.Some? {
          h := hist.value;
        } else {
          h := HistoryOf(ring, s);
        }
        rows := ScratchRows(h, eff.value.field, windowSeconds, nowTUs);
      } else {
        rows := EmitRows(eff.value.field, windowSeconds, nowTUs);
      }
    }

    method ScratchRows(h: seq<Frame>, field: Option<Signal>, windowSeconds: int, nowTUs: int) returns (rows: seq<Row>)
      ensures rows == RowsOf(h, field, ScratchRule(h, windowSeconds, nowTUs))
    {
      var denom := if windowSeconds == 0 then SpanOf(h) else windowSeconds as real;
      assert ScratchRule(h, windowSeconds, nowTUs) == Exact(nowTUs as real - denom * 1000000.0, denom);
      rows := ComputeMessages(h, field, denom, nowTUs);
    }

    /** The rows of the groups, rated over the observed span or over the bucket window. */
    method EmitRows(field: Option<Signal>, windowSeconds: int, nowTUs: int) returns (rows: seq<Row>)
      requires table.Valid() && table.ReadsField(field)
      ensures rows == RowsOf(table.folded, field, GroupRule(idFirst, idLast, windowSeconds, nowTUs))
    {
      var rule: RateRule;
      if windowSeconds == 0 {
        var span := (idLast - idFirst) as real / 1000000.0;
        rule := Whole(if span < 0.000001 then 0.000001 else span);
      } else {
        rule := Bucketed(nowTUs / 1000000, windowSeconds);
      }
      assert rule == GroupRule(idFirst, idLast, windowSeconds, nowTUs);
      rows := table.Emit(field, rule);
    }

    /** Bring the model up to date with the ring: detect when due, then regroup. */
    method Update(ring: RawFrameRing, s: Sel, def: Option<nat>, nowTUs: int) returns (hist: Option<seq<Frame>>)
      requires Valid() && Beside(ring)
      modifies this, table, table.fp
      ensures Valid() && fresh(table.fp - old(table.fp)) && ring.Valid()
      ensures State() == SyncStep(detect, old(State()), ring.State(), Some(s), def, nowTUs)
      ensures hist.Some? ==> hist.value == HistOf(ring.State(), s)
    {
      ghost var m, r := State(), ring.State();
      var h, changed, redetect := Detect(ring, s, def, nowTUs);
      ghost var m1 := State();
      assert m1 == DetectStep(detect, m, r, s, def, nowTUs);
      hist := Regroup(ring, Key(s, eff.value.field), changed, h);
      SyncIs(detect, m, r, s, def, nowTUs, m1, State());
      NoteCount(redetect);
    }

    /** Remember how many frames the detection was based on. */
    method NoteCount(redetect: bool)
      modifies this`detectCount
      ensures State() == if redetect then old(State()).(detectCount := idCount) else old(State())
    {
      if redetect {
        detectCount := idCount;
      }
    }

    /** Recompute the message rows for the selection, folding only what is new where possible. */
    method Sync(ring: RawFrameRing, sel: Option<Sel>, def: Option<nat>, windowSeconds: int, nowTUs: int)
      returns (rows: seq<Row>)
      requires Valid() && Beside(ring)
      modifies this, table, table.fp
      ensures Valid() && fresh(table.fp - old(table.fp))
      ensures State() == SyncStep(detect, old(State()), ring.State(), sel, def, nowTUs)
      ensures rows == SyncRows(State(), ring.State(), sel, windowSeconds, nowTUs)
    {
      if sel.None? {
        ResetAll();
        return [];
      }
      var hist := Update(ring, sel.value, def, nowTUs);
      SyncLeavesKey(detect, old(State()), ring.State(), sel.value, def, nowTUs);
      rows := Rows(ring, sel.value, hist, windowSeconds, nowTUs);
    }
  }

  /** A sync, with its two halves already named. */
  lemma SyncIs(detect: Detector, m: ModelState, r: RingState, s: Sel, def: Option<nat>, nowTUs: int,
               m1: ModelState, m2: ModelState)
    requires m1 == DetectStep(detect, m, r, s, def, nowTUs)
    requires m2 == RegroupStep(m1, r, Key(s, m1.eff.value.field), SelChanged(m, r, s, def))
    ensures SyncStep(detect, m, r, Some(s), def, nowTUs) ==
            if Redetect(m, r, s, def, nowTUs) then m2.(detectCount := m2.idCount) else m2
  {
  }

  /** After a sync the groups are keyed by what is selected and detected. */
  lemma SyncLeavesKey(detect: Detector, m: ModelState, r: RingState, s: Sel, def: Option<nat>, nowTUs: int)
    ensures var m' := SyncStep(detect, m, r, Some(s), def, nowTUs);
            m'.eff.Some? && m'.curKey == Some(Key(s, m'.eff.value.field))
  {
    var m1 := DetectStep(detect, m, r, s, def, nowTUs);
    SyncIs(detect, m, r, s, def, nowTUs, m1, RegroupStep(m1, r, Key(s, m1.eff.value.field), SelChanged(m, r, s, def)));
  }

  method SameFlavour(delta: seq<Frame>, sel: Sel) returns (wanted: seq<Frame>)
    ensures wanted == Select(delta, ExtOnly(sel))
  {
    wanted := [];
    for i := 0 to |delta|
      invariant wanted == Select(delta[..i], ExtOnly(sel))
    {
      TakeNext(delta, i);
      SelectSnoc(delta[..i], delta[i], ExtOnly(sel));
      if delta[i].isExtended != sel.isExtended {
        continue;
      }
      wanted := wanted + [delta[i]];
    }
    assert delta[..|delta|] == delta;
  }

  /** The keys of a map in some order: the language fixes one, the rows do not depend on it. */
  method KeysOf(groups: map<int, Grp>) returns (keys: seq<int>)
    ensures forall v :: v in keys <==> v in groups
  {
    keys := InSomeOrder(groups.Keys);
  }

  method InSomeOrder(s: set<int>) returns (keys: seq<int>)
    ensures forall v :: v in keys <==> v in s
  {
    var rest := s;
    keys := [];
    while rest != {}
      invariant rest <= s
      invariant forall v :: v in s <==> v in keys || v in rest
      decreases |rest|
    {
      var v := Pick(rest);
      keys, rest := keys + [v], rest - {v};
    }
  }

  method Pick(s: set<int>) returns (v: int)
    requires s != {}
    ensures v in s
  {
    assert (forall u: int :: u !in s) ==> s == {};
    v :| v in s;
  }

  lemma NoFramesNoRows(fs: seq<Frame>, valueOf: Frame -> int, rule: RateRule, idBytes: seq<nat>, hex: nat)
    ensures fs == [] ==> ValueRows(fs, valueOf, rule, idBytes, hex) == []
  {
  }

  /** The fold after one more frame. */
  lemma FoldNext(field: Option<Signal>, base: seq<Frame>, s: seq<Frame>, i: nat)
    requires i < |s| && !FoldAll(field, base, s[..i]).overflow
    ensures base + s[..i + 1] == (base + s[..i]) + [s[i]]
    ensures FoldAll(field, base, s[..i + 1]) == Fold(base + s[..i + 1], i + 1, TooWide(field, base + s[..i + 1]))
  {
    assert s[..i + 1][..i] == s[..i];
  }

  /** Once it overflowed, the fold ignores whatever follows. */
  lemma {:induction false} FoldStops(field: Option<Signal>, base: seq<Frame>, s: seq<Frame>, n: nat)
    requires n <= |s| && FoldAll(field, base, s[..n]).overflow
    ensures FoldAll(field, base, s) == FoldAll(field, base, s[..n])
    decreases |s|
  {
    if n == |s| {
      assert s[..n] == s;
    } else {
      var init := s[..|s| - 1];
      assert init[..n] == s[..n];
      FoldStops(field, base, init, n);
    }
  }

  lemma NoGroups(fp: set<object>, valueOf: Frame -> int)
    ensures GroupsOf(map[], fp, [], valueOf)
  {
  }

  /** As many groups as values. */
  lemma GroupCount(groups: map<int, Grp>, fp: set<object>, fs: seq<Frame>, valueOf: Frame -> int)
    requires GroupsOf(groups, fp, fs, valueOf)
    ensures |groups| == |Values(fs, valueOf)| && groups.Keys == Values(fs, valueOf)
  {
    forall v: int ensures v in groups <==> v in Values(fs, valueOf) {
      assert Keyed(groups, fp, fs, valueOf, v);
      GroupNonempty(fs, valueOf, v);
    }
    assert groups.Keys == Values(fs, valueOf);
  }
}
