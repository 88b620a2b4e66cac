/** Grouping a history by a value read off each frame. */
module Grouping {
  import opened Common
  import opened Frames

  /** The frames of one group, in arrival order. */
  function Group(fs: seq<Frame>, valueOf: Frame -> int, v: int): (g: seq<Frame>)
    ensures |g| <= |fs|
  {
    if fs == [] then []
    else
      var g := Group(fs[..|fs| - 1], valueOf, v);
      if valueOf(fs[|fs| - 1]) == v then g + [fs[|fs| - 1]] else g
  }

  function Values(fs: seq<Frame>, valueOf: Frame -> int): set<int> {
    set f | f in fs :: valueOf(f)
  }

  lemma {:induction false} GroupNonempty(fs: seq<Frame>, valueOf: Frame -> int, v: int)
    ensures Group(fs, valueOf, v) != [] <==> v in Values(fs, valueOf)
  {
    if fs != [] {
      var init, f := fs[..|fs| - 1], fs[|fs| - 1];
      GroupNonempty(init, valueOf, v);
      ValuesSnoc(init, f, valueOf);
      assert fs == init + [f];
    }
  }

  lemma ValuesSnoc(fs: seq<Frame>, f: Frame, valueOf: Frame -> int)
    ensures Values(fs + [f], valueOf) == Values(fs, valueOf) + {valueOf(f)}
  {
  }

  lemma GroupSnoc(fs: seq<Frame>, f: Frame, valueOf: Frame -> int, v: int)
    ensures Group(fs + [f], valueOf, v) == Group(fs, valueOf, v) + (if valueOf(f) == v then [f] else [])
  {
    assert (fs + [f])[..|fs|] == fs;
  }

  lemma {:induction false} GroupConcat(a: seq<Frame>, b: seq<Frame>, valueOf: Frame -> int, v: int)
    ensures Group(a + b, valueOf, v) == Group(a, valueOf, v) + Group(b, valueOf, v)
  {
    if b == [] {
      assert a + b == a;
    } else {
      var b' := b[..|b| - 1];
      assert (a + b)[..|a + b| - 1] == a + b';
      GroupConcat(a, b', valueOf, v);
    }
  }

  function Occurrences(fs: seq<Frame>, valueOf: Frame -> int, v: int): nat {
    |set k | 0 <= k < |fs| && valueOf(fs[k]) == v|
  }

  lemma OccurrencesSnoc(fs: seq<Frame>, f: Frame, valueOf: Frame -> int, v: int)
    ensures Occurrences(fs + [f], valueOf, v) == Occurrences(fs, valueOf, v) + (if valueOf(f) == v then 1 else 0)
  {
    var now := set k | 0 <= k < |fs + [f]| && valueOf((fs + [f])[k]) == v;
    var was := set k | 0 <= k < |fs| && valueOf(fs[k]) == v;
    assert now == was + (if valueOf(f) == v then {|fs|} else {});
  }

  lemma {:induction false} GroupCounts(fs: seq<Frame>, valueOf: Frame -> int, v: int)
    ensures |Group(fs, valueOf, v)| == Occurrences(fs, valueOf, v)
  {
    if fs == [] {
      assert (set k | 0 <= k < |fs| && valueOf(fs[k]) == v) == {};
    } else {
      var init, f := fs[..|fs| - 1], fs[|fs| - 1];
      GroupCounts(init, valueOf, v);
      OccurrencesSnoc(init, f, valueOf, v);
      assert fs == init + [f];
    }
  }

  lemma {:induction false} GroupEnds(fs: seq<Frame>, valueOf: Frame -> int, v: int) returns (k: nat)
    requires Group(fs, valueOf, v) != []
    ensures k < |fs| && fs[k] == Group(fs, valueOf, v)[|Group(fs, valueOf, v)| - 1]
    ensures valueOf(fs[k]) == v && forall j :: k < j < |fs| ==> valueOf(fs[j]) != v
  {
    var n := |fs| - 1;
    if valueOf(fs[n]) == v {
      k := n;
    } else {
      k := GroupEnds(fs[..n], valueOf, v);
    }
  }

  /** A group counts the occurrences of its value, and ends with the last of them. */
  lemma GroupIsLatest(fs: seq<Frame>, valueOf: Frame -> int, v: int) returns (k: nat)
    requires Group(fs, valueOf, v) != []
    ensures |Group(fs, valueOf, v)| == Occurrences(fs, valueOf, v)
    ensures k < |fs| && fs[k] == Group(fs, valueOf, v)[|Group(fs, valueOf, v)| - 1]
    ensures valueOf(fs[k]) == v && forall j :: k < j < |fs| ==> valueOf(fs[j]) != v
  {
    GroupCounts(fs, valueOf, v);
    k := GroupEnds(fs, valueOf, v);
  }

  /* ---- value-ascending order -------------------------------------------------------- */

  ghost predicate StrictlySorted(vs: seq<int>) {
    forall i, j :: 0 <= i < j < |vs| ==> vs[i] < vs[j]
  }

  /** Insert into a strictly sorted list; a value already there is not repeated. */
  function Insert(vs: seq<int>, v: int): (r: seq<int>)
    ensures forall x :: x in r <==> x in vs || x == v
  {
    if vs == [] then [v]
    else if vs[|vs| - 1] < v then vs + [v]
    else if vs[|vs| - 1] == v then vs
    else
      var init, last := vs[..|vs| - 1], vs[|vs| - 1];
      assert vs == init + [last];
      Insert(init, v) + [last]
  }

  lemma {:induction false} InsertSorted(vs: seq<int>, v: int)
    requires StrictlySorted(vs)
    ensures StrictlySorted(Insert(vs, v))
  {
    if vs != [] && v < vs[|vs| - 1] {
      var init, last := vs[..|vs| - 1], vs[|vs| - 1];
      InsertSorted(init, v);
      var r := Insert(init, v);
      forall i | 0 <= i < |r| ensures r[i] < last {
        assert r[i] in r;
      }
    }
  }

  /** The values of a history, ascending and without repetition. */
  function SortedValues(fs: seq<Frame>, valueOf: Frame -> int): (vs: seq<int>)
    ensures StrictlySorted(vs) && forall v :: v in vs <==> v in Values(fs, valueOf)
  {
    if fs == [] then []
    else
      var init, f := fs[..|fs| - 1], fs[|fs| - 1];
      ValuesSnoc(init, f, valueOf);
      assert fs == init + [f];
      InsertSorted(SortedValues(init, valueOf), valueOf(f));
      Insert(SortedValues(init, valueOf), valueOf(f))
  }

  lemma ButLast(a: seq<int>)
    requires StrictlySorted(a) && a != []
    ensures StrictlySorted(a[..|a| - 1])
    ensures forall v :: v in a[..|a| - 1] <==> v in a && v != a[|a| - 1]
    ensures forall v :: v in a ==> v <= a[|a| - 1]
  {
    assert a == a[..|a| - 1] + [a[|a| - 1]];
  }

  lemma SomeElement(b: seq<int>) returns (v: int)
    requires b != []
    ensures v in b
  {
    v := b[0];
  }

  /** A strictly sorted list is determined by its elements. */
  lemma {:induction false} SortedUnique(a: seq<int>, b: seq<int>)
    requires StrictlySorted(a) && StrictlySorted(b) && forall v :: v in a <==> v in b
    ensures a == b
    decreases |a|
  {
    if a == [] {
      if b != [] {
        var v := SomeElement(b);
        assert false;
      }
    } else {
      var x := a[|a| - 1];
      assert x in a && x in b;
      var y := b[|b| - 1];
      assert y in b && y in a;
      ButLast(a);
      ButLast(b);
      assert y <= x && x <= y;
      var a', b' := a[..|a| - 1], b[..|b| - 1];
      forall v ensures v in a' <==> v in b' {
        assert v in a' <==> v in a && v != x;
        assert v in b' <==> v in b && v != y;
      }
      SortedUnique(a', b');
      assert a == a[..|a| - 1] + [x] && b == b[..|b| - 1] + [y];
    }
  }

  /** `order.sort((a, b) => a - b)` on distinct keys. */
  method SortAscending(keys: seq<int>) returns (vs: seq<int>)
    ensures StrictlySorted(vs) && forall v :: v in vs <==> v in keys
  {
    vs := [];
    for i := 0 to |keys|
      invariant StrictlySorted(vs) && forall v :: v in vs <==> v in keys[..i]
    {
      InsertSorted(vs, keys[i]);
      vs := Insert(vs, keys[i]);
      assert keys[..i + 1] == keys[..i] + [keys[i]];
    }
    assert keys[..|keys|] == keys;
  }
}

/** Message rows of one frame id, computed from scratch over a history. */
module Messages {
  import opened Common
  import opened Frames
  import opened Geometry
  import opened Grouping
  import opened RateBuckets
  import opened Seqs

  const MAX_MESSAGES: nat := 64

  /** The grouping value: the field's integer, or -1 for a frame too short to carry it. */
  function FieldValueOf(field: Signal): Frame -> int {
    (f: Frame) => if (field.bitStart + field.bitLength - 1) / 8 < |f.data| then Meaning(f.data, field) else -1
  }

  /* ---- rows ------------------------------------------------------------------------- */

  datatype Row = Row(mux: Option<int>, data: seq<byte>, dlc: nat, rate: real, lastTUs: int, count: nat,
                     idBytes: Option<seq<nat>>, idHexWidth: nat)

  /** How a row's rate is obtained from the frames of its group. */
  datatype RateRule =
    | Exact(low: real, seconds: real)          // frames at or after `low`, per window second
    | Whole(denom: real)                       // every frame, over the observed span
    | Bucketed(nowSec: int, winSec: int)       // one-second buckets

  function CountSince(g: seq<Frame>, low: real): nat {
    if g == [] then 0
    else CountSince(g[..|g| - 1], low) + (if g[|g| - 1].tUs as real >= low then 1 else 0)
  }

  function SecondOf(f: Frame): int {
    f.tUs / 1000000
  }

  function Seconds(g: seq<Frame>): (s: seq<int>)
    ensures |s| == |g|
  {
    seq(|g|, i requires 0 <= i < |g| => SecondOf(g[i]))
  }

  lemma SecondsSnoc(g: seq<Frame>, f: Frame)
    ensures Seconds(g + [f]) == Seconds(g) + [SecondOf(f)]
  {
  }

  function RateOf(rule: RateRule, g: seq<Frame>): real {
    match rule
    case Exact(low, seconds) => if seconds == 0.0 then 0.0 else CountSince(g, low) as real / seconds
    case Whole(denom) => if denom <= 0.0 then 0.0 else |g| as real / denom
    case Bucketed(nowSec, winSec) =>
      if winSec <= 0 then 0.0
      else BucketSum(Seconds(g), nowSec - winSec + 1, nowSec) as real / winSec as real
  }

  /** The bytes a field covers, linearly from its start bit. */
  function FieldBytes(field: Signal): (bs: seq<nat>) {
    var start, end := field.bitStart / 8, (field.bitStart + field.bitLength - 1) / 8;
    if end < start then [] else seq(end - start + 1, i requires 0 <= i => start + i)
  }

  function FieldHexWidth(field: Signal): nat {
    Max(1, (field.bitLength + 3) / 4)
  }

  /** The row of a non-empty group: newest payload, cumulative count. */
  function GroupRow(mux: Option<int>, g: seq<Frame>, rule: RateRule, idBytes: Option<seq<nat>>, hex: nat): Row
    requires g != []
  {
    var last := g[|g| - 1];
    Row(mux, last.data, last.dlc, RateOf(rule, g), last.tUs, |g|, idBytes, hex)
  }

  /** The rows of a history: one per field value, ascending; a single one when there is no field. */
  function RowsOf(fs: seq<Frame>, field: Option<Signal>, rule: RateRule): (rows: seq<Row>) {
    if fs == [] then []
    else if field.None? then [GroupRow(None, fs, rule, None, 0)]
    else ValueRows(fs, FieldValueOf(field.value), rule, FieldBytes(field.value), FieldHexWidth(field.value))
  }

  function ValueRows(fs: seq<Frame>, valueOf: Frame -> int, rule: RateRule, idBytes: seq<nat>, hex: nat): seq<Row> {
    var vs := SortedValues(fs, valueOf);
    seq(|vs|, i requires 0 <= i < |vs| => ValueRow(fs, valueOf, vs[i], rule, idBytes, hex))
  }

  function ValueRow(fs: seq<Frame>, valueOf: Frame -> int, v: int, rule: RateRule, idBytes: seq<nat>, hex: nat): Row
    requires v in Values(fs, valueOf)
  {
    GroupNonempty(fs, valueOf, v);
    GroupRow(Some(v), Group(fs, valueOf, v), rule, Some(idBytes), hex)
  }

  /** Equal rows up to the rate, which is the one column computed two ways. */
  ghost predicate SameButRate(a: seq<Row>, b: seq<Row>) {
    |a| == |b| && forall i :: 0 <= i < |a| ==> a[i].(rate := 0.0) == b[i].(rate := 0.0)
  }

  /**
   * What the rows mean, without reference to how they are built: the row list is strictly
   * ascending in the field value and has a row for exactly the values that occur ...
   */
  lemma RowsCoverValues(fs: seq<Frame>, field: Signal, rule: RateRule)
    ensures var rows, valueOf := RowsOf(fs, Some(field), rule), FieldValueOf(field);
      && (forall i :: 0 <= i < |rows| ==> rows[i].mux.Some?)
      && (forall i, j :: 0 <= i < j < |rows| ==> rows[i].mux.value < rows[j].mux.value)
      && (forall v :: v in Values(fs, valueOf) <==> exists i :: 0 <= i < |rows| && rows[i].mux == Some(v))
  {
    if fs != [] {
      var vs, rows := SortedValues(fs, FieldValueOf(field)), RowsOf(fs, Some(field), rule);
      assert |rows| == |vs| && forall i :: 0 <= i < |vs| ==> rows[i].mux == Some(vs[i]);
      forall v | v in vs ensures exists i :: 0 <= i < |rows| && rows[i].mux == Some(v) {
        var i :| 0 <= i < |vs| && vs[i] == v;
        assert rows[i].mux == Some(v);
      }
    }
  }

  /** ... and each row counts the frames with its value and shows the newest of them. */
  lemma RowMeaning(fs: seq<Frame>, field: Signal, rule: RateRule, i: nat)
    requires i < |RowsOf(fs, Some(field), rule)|
    ensures Describes(fs, FieldValueOf(field), RowsOf(fs, Some(field), rule)[i])
  {
    ValueRowMeaning(fs, FieldValueOf(field), rule, FieldBytes(field), FieldHexWidth(field), i);
  }

  /** The row counts its value's frames, and shows the latest of them. */
  ghost predicate Describes(fs: seq<Frame>, valueOf: Frame -> int, row: Row) {
    && row.mux.Some?
    && row.count == Occurrences(fs, valueOf, row.mux.value)
    && exists k :: 0 <= k < |fs| && LatestWith(fs, valueOf, row, k)
  }

  lemma ValueRowMeaning(fs: seq<Frame>, valueOf: Frame -> int, rule: RateRule, idBytes: seq<nat>, hex: nat, i: nat)
    requires i < |ValueRows(fs, valueOf, rule, idBytes, hex)|
    ensures Describes(fs, valueOf, ValueRows(fs, valueOf, rule, idBytes, hex)[i])
  {
    var v := SortedValues(fs, valueOf)[i];
    assert v in SortedValues(fs, valueOf);
    GroupNonempty(fs, valueOf, v);
    var k := GroupIsLatest(fs, valueOf, v);
    var row := ValueRow(fs, valueOf, v, rule, idBytes, hex);
    assert LatestWith(fs, valueOf, row, k);
  }

  /** Row `r` shows frame `k`, and no later frame has the same value. */
  ghost predicate LatestWith(fs: seq<Frame>, valueOf: Frame -> int, r: Row, k: nat)
    requires k < |fs| && r.mux.Some?
  {
    && valueOf(fs[k]) == r.mux.value
    && r.data == fs[k].data && r.dlc == fs[k].dlc && r.lastTUs == fs[k].tUs
    && forall j :: k < j < |fs| ==> valueOf(fs[j]) != r.mux.value
  }

  /** Rows over the same history differ at most in the rate, whatever the rate rule. */
  lemma RateIsTheOnlyDifference(fs: seq<Frame>, field: Option<Signal>, r1: RateRule, r2: RateRule)
    ensures SameButRate(RowsOf(fs, field, r1), RowsOf(fs, field, r2))
  {
  }

  lemma {:induction false} CountSinceSnoc(g: seq<Frame>, f: Frame, low: real)
    ensures CountSince(g + [f], low) == CountSince(g, low) + (if f.tUs as real >= low then 1 else 0)
  {
    assert (g + [f])[..|g|] == g;
  }

  /** The entry of one group in the pass below: everything but the rate, and the window count. */
  ghost predicate Entry(g: seq<Frame>, v: int, low: real, idBytes: seq<nat>, hex: nat, r: Row, w: nat) {
    && g != []
    && (var last := g[|g| - 1]; r == Row(Some(v), last.data, last.dlc, 0.0, last.tUs, |g|, Some(idBytes), hex))
    && w == CountSince(g, low)
  }

  /** What the pass holds for value `v` after the frames whose group is `g`. */
  ghost predicate HoldsValue(g: seq<Frame>, v: int, low: real, idBytes: seq<nat>, hex: nat,
                             groups: map<int, Row>, windowed: map<int, nat>)
  {
    && (v in groups <==> g != []) && (v in windowed <==> g != [])
    && (g != [] ==> Entry(g, v, low, idBytes, hex, groups[v], windowed[v]))
  }

  /** The groups built so far by the from-scratch pass. */
  ghost predicate Grouped(fs: seq<Frame>, valueOf: Frame -> int, low: real, idBytes: seq<nat>, hex: nat,
                          groups: map<int, Row>, windowed: map<int, nat>)
  {
    forall v: int :: HoldsValue(Group(fs, valueOf, v), v, low, idBytes, hex, groups, windowed)
  }

  method GroupPass(frames: seq<Frame>, valueOf: Frame -> int, low: real, idBytes: seq<nat>, hex: nat)
    returns (order: seq<int>, groups: map<int, Row>, windowed: map<int, nat>)
    ensures Grouped(frames, valueOf, low, idBytes, hex, groups, windowed)
    ensures forall v :: v in order <==> v in groups
  {
    order, groups, windowed := [], map[], map[];
    for i := 0 to |frames|
      invariant Grouped(frames[..i], valueOf, low, idBytes, hex, groups, windowed)
      invariant forall v :: v in order <==> v in groups
    {
      TakeNext(frames, i);
      if valueOf(frames[i]) !in groups {
        order := order + [valueOf(frames[i])];
      }
      groups, windowed := GroupFrame(frames[..i], frames[i], valueOf, low, idBytes, hex, groups, windowed);
    }
    assert frames[..|frames|] == frames;
  }

  /** Fold one frame into the group of its value, creating it when it is the first of its value. */
  method GroupFrame(ghost fs: seq<Frame>, f: Frame, valueOf: Frame -> int, low: real, idBytes: seq<nat>, hex: nat,
                    groups0: map<int, Row>, windowed0: map<int, nat>)
    returns (groups: map<int, Row>, windowed: map<int, nat>)
    requires Grouped(fs, valueOf, low, idBytes, hex, groups0, windowed0)
    ensures Grouped(fs + [f], valueOf, low, idBytes, hex, groups, windowed)
    ensures forall u :: u in groups <==> u in groups0 || u == valueOf(f)
  {
    var v := valueOf(f);
    assert HoldsValue(Group(fs, valueOf, v), v, low, idBytes, hex, groups0, windowed0);
    var g := if v in groups0 then groups0[v] else Row(Some(v), f.data, f.dlc, 0.0, f.tUs, 0, Some(idBytes), hex);
    var w := if v in groups0 then windowed0[v] else 0;
    EntryStep(Group(fs, valueOf, v), f, v, low, idBytes, hex, g, w);
    g := g.(count := g.count + 1, data := f.data, dlc := f.dlc, lastTUs := f.tUs);
    w := w + (if f.tUs as real >= low then 1 else 0);
    groups, windowed := groups0[v := g], windowed0[v := w];
    StepHolds(fs, f, valueOf, low, idBytes, hex, groups0, windowed0, g, w);
  }

  lemma StepHolds(fs: seq<Frame>, f: Frame, valueOf: Frame -> int, low: real, idBytes: seq<nat>, hex: nat,
                  groups0: map<int, Row>, windowed0: map<int, nat>, g: Row, w: nat)
    requires Grouped(fs, valueOf, low, idBytes, hex, groups0, windowed0)
    requires var v := valueOf(f); Entry(Group(fs, valueOf, v) + [f], v, low, idBytes, hex, g, w)
    ensures Grouped(fs + [f], valueOf, low, idBytes, hex, groups0[valueOf(f) := g], windowed0[valueOf(f) := w])
  {
    forall u: int
      ensures HoldsValue(Group(fs + [f], valueOf, u), u, low, idBytes, hex, groups0[valueOf(f) := g],
                         windowed0[valueOf(f) := w])
    {
      GroupSnoc(fs, f, valueOf, u);
      if u != valueOf(f) {
        assert HoldsValue(Group(fs, valueOf, u), u, low, idBytes, hex, groups0, windowed0);
      }
    }
  }

  lemma EntryStep(g: seq<Frame>, f: Frame, v: int, low: real, idBytes: seq<nat>, hex: nat, r: Row, w: nat)
    requires if g == [] then r.mux == Some(v) && r.rate == 0.0 && r.count == 0 && w == 0 &&
                             r.idBytes == Some(idBytes) && r.idHexWidth == hex
             else Entry(g, v, low, idBytes, hex, r, w)
    ensures Entry(g + [f], v, low, idBytes, hex,
                  r.(count := r.count + 1, data := f.data, dlc := f.dlc, lastTUs := f.tUs),
                  w + (if f.tUs as real >= low then 1 else 0))
  {
    CountSinceSnoc(g, f, low);
  }

  /**
   * The from-scratch computation: one pass that groups by value, then rates, then sorts.
   */
  method ComputeMessages(frames: seq<Frame>, field: Option<Signal>, windowSeconds: real, nowTUs: int)
    returns (rows: seq<Row>)
    requires windowSeconds != 0.0
    ensures rows == RowsOf(frames, field, Exact(nowTUs as real - windowSeconds * 1000000.0, windowSeconds))
  {
    if |frames| == 0 {
      return [];
    }
    var low := nowTUs as real - windowSeconds * 1000000.0;
    if field.None? {
      var last := frames[|frames| - 1];
      var windowed := 0;
      for i := 0 to |frames|
        invariant windowed == CountSince(frames[..i], low)
      {
        assert frames[..i + 1] == frames[..i] + [frames[i]];
        CountSinceSnoc(frames[..i], frames[i], low);
        if frames[i].tUs as real >= low {
          windowed := windowed + 1;
        }
      }
      assert frames[..|frames|] == frames;
      return [Row(None, last.data, last.dlc, windowed as real / windowSeconds, last.tUs, |frames|, None, 0)];
    }
    rows := ComputeValueRows(frames, FieldValueOf(field.value), low, windowSeconds,
                             FieldBytes(field.value), FieldHexWidth(field.value));
  }

  method ComputeValueRows(frames: seq<Frame>, valueOf: Frame -> int, low: real, windowSeconds: real,
                          idBytes: seq<nat>, hex: nat) returns (rows: seq<Row>)
    requires windowSeconds != 0.0
    ensures rows == ValueRows(frames, valueOf, Exact(low, windowSeconds), idBytes, hex)
  {
    var order, groups, windowed := GroupPass(frames, valueOf, low, idBytes, hex);
    var sorted := SortAscending(order);
    forall v ensures v in sorted <==> v in SortedValues(frames, valueOf) {
      assert HoldsValue(Group(frames, valueOf, v), v, low, idBytes, hex, groups, windowed);
      GroupNonempty(frames, valueOf, v);
    }
    SortedUnique(sorted, SortedValues(frames, valueOf));
    ghost var all := ValueRows(frames, valueOf, Exact(low, windowSeconds), idBytes, hex);
    rows := [];
    for i := 0 to |sorted|
      invariant rows == all[..i] && |all| == |sorted|
    {
      var v := sorted[i];
      assert v in sorted;
      assert HoldsValue(Group(frames, valueOf, v), v, low, idBytes, hex, groups, windowed);
      EntryRow(frames, valueOf, i, low, windowSeconds, idBytes, hex, groups[v], windowed[v]);
      TakeNext(all, i);
      rows := rows + [groups[v].(rate := windowed[v] as real / windowSeconds)];
    }
  }

  /** A finished entry with its rate is the row of its value. */
  lemma EntryRow(fs: seq<Frame>, valueOf: Frame -> int, i: nat, low: real, windowSeconds: real,
                 idBytes: seq<nat>, hex: nat, r: Row, w: nat)
    requires windowSeconds != 0.0 && i < |SortedValues(fs, valueOf)|
    requires var v := SortedValues(fs, valueOf)[i]; Entry(Group(fs, valueOf, v), v, low, idBytes, hex, r, w)
    ensures |ValueRows(fs, valueOf, Exact(low, windowSeconds), idBytes, hex)| == |SortedValues(fs, valueOf)|
    ensures r.(rate := w as real / windowSeconds) == ValueRows(fs, valueOf, Exact(low, windowSeconds), idBytes, hex)[i]
  {
  }
}
