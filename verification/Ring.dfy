/** The ring as a value: what `RawFrameRing` promises, whatever slots it uses. */
module RingStates {
  import opened Common
  import opened Counting
  import opened Frames

  /** `hist` is everything pushed since the last clear; only a suffix is still stored. */
  datatype RingState = RingState(cap: nat, gen: nat, hist: seq<Frame>) {
    predicate Valid() {
      cap > 0
    }

    function Size(): nat {
      Min(cap, |hist|)
    }

    /** Absolute index of the oldest retained frame. */
    function Base(): nat {
      |hist| - Size()
    }

    function Contents(): seq<Frame> {
      hist[Base()..]
    }

    function Newest(): int
      requires hist != []
    {
      hist[|hist| - 1].tUs
    }

    /** The cursor can be served: it is not ahead of the ring nor fallen off its back. */
    predicate Serves(seqNo: int) {
      Base() <= seqNo <= |hist|
    }

    function Push(f: Frame): RingState {
      this.(hist := hist + [f])
    }

    function Clear(): RingState {
      RingState(cap, gen + 1, [])
    }
  }

  datatype RingOp = PushOp(f: Frame) | ClearOp

  function RingRun(r: RingState, ops: seq<RingOp>): (r': RingState)
    ensures r'.cap == r.cap && r'.gen >= r.gen
    ensures r'.gen == r.gen ==> r.hist <= r'.hist
    decreases |ops|
  {
    if ops == [] then r
    else
      var p := RingRun(r, ops[..|ops| - 1]);
      match ops[|ops| - 1]
      case PushOp(f) => p.Push(f)
      case ClearOp => p.Clear()
  }

  /** A read of a cursor: the frames pushed from it on, or `None` when they are not all there. */
  function SinceSpec(r: RingState, seqNo: nat, q: Query): Option<seq<Frame>> {
    if r.Serves(seqNo) then Some(Select(r.hist[seqNo..], q)) else None
  }

  /** A read of a time window, optionally of one id. */
  function WindowSpec(r: RingState, lo: int, hi: int, id: Option<nat>): seq<Frame> {
    Select(r.Contents(), Query(id, Some(lo), Some(hi), None))
  }

  /** The most recent `seconds` of history relative to the newest frame. */
  function LastSecondsSpec(r: RingState, seconds: int, id: Option<nat>): seq<Frame> {
    if r.Valid() && r.hist != [] then WindowSpec(r, r.Newest() - seconds * 1000000, r.Newest(), id) else []
  }

  /** Place `k` of the history is still held, and has the wanted identifier if one is asked for. */
  ghost predicate Kept(r: RingState, k: nat, id: Option<nat>)
    requires k < |r.hist|
  {
    |r.hist| - r.cap <= k && (id.Some? ==> r.hist[k].id == id.value)
  }

  /** A window read gives the held frames of the identifier whose time lies in the window, each once
      and in the order of arrival. */
  lemma WindowPlaces(r: RingState, lo: int, hi: int, id: Option<nat>) returns (ks: seq<nat>)
    requires r.Valid()
    ensures StandsAt(WindowSpec(r, lo, hi, id), r.hist, ks)
    ensures forall k :: 0 <= k < |r.hist| ==> (k in ks <==> Kept(r, k, id) && lo <= r.hist[k].tUs <= hi)
  {
    ks := TailSelection(r.hist, r.Base(), Query(id, Some(lo), Some(hi), None));
  }

  /** Reading the last seconds gives those not older than that before the newest frame. */
  lemma LastSecondsPlaces(r: RingState, seconds: int, id: Option<nat>) returns (ks: seq<nat>)
    requires r.Valid()
    ensures StandsAt(LastSecondsSpec(r, seconds, id), r.hist, ks)
    ensures forall k :: 0 <= k < |r.hist| ==>
      (k in ks <==>
        var newest := r.hist[|r.hist| - 1].tUs;
        Kept(r, k, id) && newest - seconds * 1000000 <= r.hist[k].tUs <= newest)
  {
    if r.hist == [] {
      ks := [];
    } else {
      ks := WindowPlaces(r, r.Newest() - seconds * 1000000, r.Newest(), id);
    }
  }

  /** A cursor is served while the ring holds everything from it on; it then gives the frames of the
      identifier from there on, each once and in the order of arrival. */
  lemma SincePlaces(r: RingState, seqNo: nat, id: Option<nat>) returns (ks: seq<nat>)
    requires r.Valid()
    ensures var fs := SinceSpec(r, seqNo, Query(id, None, None, None));
      && (fs.Some? <==> |r.hist| - r.cap <= seqNo <= |r.hist|)
      && (fs.Some? ==> StandsAt(fs.value, r.hist, ks))
    ensures forall k :: 0 <= k < |r.hist| && SinceSpec(r, seqNo, Query(id, None, None, None)).Some? ==>
      (k in ks <==> seqNo <= k && Kept(r, k, id))
  {
    ks := [];
    if r.Serves(seqNo) {
      ks := TailSelection(r.hist, seqNo, Query(id, None, None, None));
    }
  }

  /**
   * A cursor taken from a ring and presented after any further pushes and clears.  While the
   * generation is unchanged the cursor is served exactly when at most `cap` frames arrived in
   * between, and then the answer is exactly those frames, in order.
   */
  lemma CursorExact(r: RingState, ops: seq<RingOp>, q: Query)
    requires r.Valid() && RingRun(r, ops).gen == r.gen
    ensures var r', seqNo := RingRun(r, ops), |r.hist|;
      && (SinceSpec(r', seqNo, q).Some? <==> |r'.hist| - |r.hist| <= r.cap)
      && (forall fs :: SinceSpec(r', seqNo, q) == Some(fs) ==>
            Select(r'.hist, q) == Select(r.hist, q) + fs)
  {
    var r' := RingRun(r, ops);
    assert r'.hist == r.hist + r'.hist[|r.hist|..];
    SelectConcat(r.hist, r'.hist[|r.hist|..], q);
  }

  /** Without a clear the generation stands still; a single clear changes it for good. */
  lemma {:induction false} GenerationTellsClears(r: RingState, ops: seq<RingOp>)
    ensures RingRun(r, ops).gen == r.gen <==> ClearOp !in ops
    decreases |ops|
  {
    if ops != [] {
      var init := ops[..|ops| - 1];
      GenerationTellsClears(r, init);
      assert ops == init + [ops[|ops| - 1]];
    }
  }

  /** The generation counts the clears, and the history is what was pushed since the last one. */
  lemma {:induction false} RunTells(r: RingState, ops: seq<RingOp>) returns (from: nat)
    ensures var r' := RingRun(r, ops);
      && r'.gen == r.gen + HowMany(ops, (op: RingOp) => op == ClearOp)
      && from <= |ops| && (from > 0 ==> ops[from - 1] == ClearOp) && ClearOp !in ops[from..]
      && var old' := if from == 0 then r.hist else [];
      && |r'.hist| == |old'| + (|ops| - from) && old' <= r'.hist
      && forall i :: from <= i < |ops| ==> ops[i] == PushOp(r'.hist[|old'| + (i - from)])
    decreases |ops|
  {
    from := 0;
    if ops == [] {
      HowManyNone(ops, (op: RingOp) => op == ClearOp);
    } else {
      var n := |ops| - 1;
      var init := RunTells(r, ops[..n]);
      HowManySnoc(ops[..n], ops[n], (op: RingOp) => op == ClearOp);
      assert ops == ops[..n] + [ops[n]];
      from := if ops[n] == ClearOp then n + 1 else init;
      assert ops[n] != ClearOp ==> ops[init..] == ops[..n][init..] + [ops[n]];
    }
  }

  /**
   * Why consumers must watch the generation: after a clear the push counter can climb back to
   * an old cursor, which is then served although frames the cursor never saw were skipped.
   */
  lemma CursorAloneIsNotEnough(f: Frame, g: Frame)
    requires f != g
    ensures var r := RingState(2, 0, [f]);
      var r' := RingRun(r, [ClearOp, PushOp(g)]);
      var q := Query(None, None, None, None);
      SinceSpec(r', |r.hist|, q) == Some([]) && Select(r'.hist, q) != Select(r.hist, q)
  {
    var r := RingState(2, 0, [f]);
    var ops := [ClearOp, PushOp(g)];
    assert ops[..1] == [ClearOp] && [ClearOp][..0] == [];
    assert RingRun(r, [ClearOp]) == r.Clear() by {
      assert RingRun(r, []) == r;
    }
    assert RingRun(r, ops) == r.Clear().Push(g);
    var q := Query(None, None, None, None);
    SelectAll([f], q);
    SelectAll([g], q);
    assert r.Clear().Push(g).hist == [g];
  }
}

/** The bounded struct-of-arrays ring buffer of raw frames. */
module Ring {
  import opened Common
  import opened Bits
  import opened Frames
  import opened RingStates

  /** `a % cap`, by going round the ring one lap at a time. */
  ghost function Slot(a: nat, cap: nat): (p: nat)
    requires cap > 0
    ensures p < cap
  {
    if a < cap then a else Slot(a - cap, cap)
  }

  lemma {:induction false} SlotIsRemainder(a: nat, cap: nat)
    requires cap > 0
    ensures a % cap == Slot(a, cap)
  {
    if a < cap {
      DivUnique(a, cap, 0, a);
    } else {
      SlotIsRemainder(a - cap, cap);
      var q, r := (a - cap) / cap, (a - cap) % cap;
      assert a - cap == cap * q + r;
      assert cap * (q + 1) == cap * q + cap;
      DivUnique(a, cap, q + 1, r);
    }
  }

  /** Two absolute indices less than a lap apart land in different slots. */
  lemma {:induction false} SlotsDiffer(a: nat, b: nat, cap: nat)
    requires a < b < a + cap
    ensures Slot(a, cap) != Slot(b, cap)
  {
    if a >= cap {
      SlotsDiffer(a - cap, b - cap, cap);
    }
  }

  /** Slots can be computed from slots: the wrap may be taken early. */
  lemma {:induction false} SlotOfSum(a: nat, d: nat, cap: nat)
    requires cap > 0
    ensures Slot(Slot(a, cap) + d, cap) == Slot(a + d, cap)
  {
    if a >= cap {
      SlotOfSum(a - cap, d, cap);
    }
  }

  /**
   * Five typed arrays side by side, one slot per frame, payloads at a fixed stride: the backing
   * store of the ring and the layout of a packed window alike.
   */
  class Columns {
    const n: nat
    const tUs: array<int>
    const id: array<nat>
    const flags: array<byte>
    const dlc: array<nat>
    const data: array<byte>
    ghost const repr: set<object>

    ghost predicate Shaped() {
      && tUs in repr && id in repr && flags in repr && dlc in repr && data in repr
      && tUs.Length == id.Length == flags.Length == dlc.Length == n && data.Length == n * STRIDE
      && tUs as object !in {id as object, flags, dlc, data} && id as object !in {flags as object, dlc, data}
      && flags as object !in {dlc as object, data} && dlc as object != data
    }

    /** Slot `p` stores exactly the frame `f`. */
    ghost predicate Holds(p: nat, f: Frame)
      requires Shaped() && p < n
      reads repr
    {
      && tUs[p] == f.tUs && id[p] == f.id && flags[p] == Flags(f) && dlc[p] == f.dlc
      && (forall b :: 0 <= b < STRIDE ==> data[p * STRIDE + b] == PadByte(f, b))
    }

    constructor (size: nat)
      ensures n == size && Shaped() && fresh(repr)
    {
      var t, i, g, l, d := new int[size](_ => 0), new nat[size](_ => 0), new byte[size](_ => 0),
        new nat[size](_ => 0), new byte[size * STRIDE](_ => 0);
      n, tUs, id, flags, dlc, data := size, t, i, g, l, d;
      repr := {t as object, i, g, l, d};
    }

    /** Overwrite one slot, leaving every other slot alone. */
    method Write(i: nat, f: Frame)
      requires Shaped() && i < n
      modifies repr
      ensures Holds(i, f)
      ensures forall p, g :: 0 <= p < n && p != i && old(Holds(p, g)) ==> Holds(p, g)
    {
      tUs[i] := f.tUs;
      id[i] := f.id;
      flags[i] := (if f.isExtended then 1 else 0) + (if f.isError then 2 else 0) + (if f.isRtr then 4 else 0);
      dlc[i] := f.dlc;
      var base := i * STRIDE;
      var k := Min(f.dlc, STRIDE);
      for b := 0 to STRIDE
        invariant forall c :: base <= c < base + b ==> data[c] == PadByte(f, c - base)
        invariant forall c :: 0 <= c < data.Length && !(base <= c < base + STRIDE) ==> data[c] == old(data[c])
        invariant tUs[i] == f.tUs && id[i] == f.id && flags[i] == Flags(f) && dlc[i] == f.dlc
        invariant forall p :: 0 <= p < n && p != i ==>
                    tUs[p] == old(tUs[p]) && id[p] == old(id[p]) && flags[p] == old(flags[p]) && dlc[p] == old(dlc[p])
      {
        data[base + b] := if b < k then f.data[b] else 0;
      }
    }

    /** Read a slot back as the frame it stores. */
    function Build(p: nat, ghost f: Frame): (g: Frame)
      requires Shaped() && p < n && Holds(p, f)
      reads repr
      ensures g == f
    {
      var base, k, fl := p * STRIDE, dlc[p], flags[p];
      var payload := data[base..base + k];
      assert payload == f.data by {
        forall b | 0 <= b < k ensures payload[b] == f.data[b] {
          assert data[p * STRIDE + b] == PadByte(f, b);
        }
      }
      FlagsInjective(f, f);
      Frame(tUs[p], id[p], fl % 2 != 0, fl / 2 % 2 != 0, fl / 4 % 2 != 0, k, payload)
    }

    /** Copy `len` consecutive slots of `src`, column by column. */
    method CopySpan(src: Columns, from: nat, at: nat, len: nat)
      requires Shaped() && src.Shaped() && repr !! src.repr
      requires from + len <= src.n && at + len <= n
      modifies repr
      ensures forall i, f :: at <= i < at + len && src.Holds(i + (from - at), f) ==> Holds(i, f)
      ensures forall i, f :: 0 <= i < n && !(at <= i < at + len) && old(Holds(i, f)) ==> Holds(i, f)
    {
      Blit(src.tUs, from, tUs, at, len);
      Blit(src.id, from, id, at, len);
      Blit(src.flags, from, flags, at, len);
      Blit(src.dlc, from, dlc, at, len);
      Blit(src.data, from * STRIDE, data, at * STRIDE, len * STRIDE);
    }

    /** Copy one slot of `src`, scalar by scalar and byte by byte. */
    method CopyRow(src: Columns, p: nat, w: nat)
      requires Shaped() && src.Shaped() && repr !! src.repr
      requires p < src.n && w < n
      modifies repr
      ensures forall f :: src.Holds(p, f) ==> Holds(w, f)
      ensures forall v, g :: 0 <= v < n && v != w && old(Holds(v, g)) ==> Holds(v, g)
    {
      tUs[w] := src.tUs[p];
      id[w] := src.id[p];
      flags[w] := src.flags[p];
      dlc[w] := src.dlc[p];
      var sb, db := p * STRIDE, w * STRIDE;
      for b := 0 to STRIDE
        invariant forall c :: db <= c < db + b ==> data[c] == src.data[c - db + sb]
        invariant forall c :: 0 <= c < data.Length && !(db <= c < db + STRIDE) ==> data[c] == old(data[c])
        invariant tUs[w] == src.tUs[p] && id[w] == src.id[p] && flags[w] == src.flags[p] && dlc[w] == src.dlc[p]
        invariant forall v :: 0 <= v < n && v != w ==>
                    tUs[v] == old(tUs[v]) && id[v] == old(id[v]) && flags[v] == old(flags[v]) && dlc[v] == old(dlc[v])
      {
        data[db + b] := src.data[sb + b];
      }
    }

    /** The columns as values. */
    method Freeze(ghost fs: seq<Frame>) returns (p: Packed)
      requires Shaped() && |fs| == n && forall i :: 0 <= i < n ==> Holds(i, fs[i])
      ensures Packs(p, fs)
    {
      p := Packed(n, tUs[..], id[..], flags[..], dlc[..], data[..]);
      assert forall i :: 0 <= i < n ==> Holds(i, fs[i]);
    }
  }

  /** `dst.set(src.subarray(from, from + len), at)` on typed arrays. */
  method Blit<T>(src: array<T>, from: nat, dst: array<T>, at: nat, len: nat)
    requires src != dst && from + len <= src.Length && at + len <= dst.Length
    modifies dst
    ensures forall k :: at <= k < at + len ==> dst[k] == src[k - at + from]
    ensures forall k :: 0 <= k < dst.Length && !(at <= k < at + len) ==> dst[k] == old(dst[k])
  {
    for k := at to at + len
      invariant forall j :: at <= j < k ==> dst[j] == src[j - at + from]
      invariant forall j :: 0 <= j < dst.Length && !(at <= j < at + len) ==> dst[j] == old(dst[j])
    {
      dst[k] := src[k - at + from];
    }
  }

  class RawFrameRing {
    const cap: nat
    var head: nat
    var count: nat
    var totalPushed: nat
    var gen: nat
    const cols: Columns
    /** Everything pushed since the last clear. */
    ghost var hist: seq<Frame>

    /** The frame with absolute index `a` is in the slot that `a` maps to. */
    ghost predicate Stored(a: nat)
      requires cap > 0 && cols.n == cap && cols.Shaped() && a < |hist|
      reads this, cols.repr
    {
      cols.Holds(Slot(a, cap), hist[a])
    }

    ghost predicate Valid()
      reads this, cols.repr
    {
      && cap > 0 && cols.n == cap && cols.Shaped() && this !in cols.repr
      && totalPushed == |hist|
      && count == Min(cap, |hist|)
      && head == Slot(|hist|, cap)
      && (forall a :: |hist| - count <= a < |hist| ==> Stored(a))
    }

    ghost function State(): RingState
      reads this
    {
      RingState(cap, gen, hist)
    }

    constructor (capacity: int)
      ensures Valid() && fresh(cols) && fresh(cols.repr)
      ensures State() == RingState(Max(1, capacity), 0, [])
    {
      var c := if capacity > 1 then capacity else 1;
      cap := c;
      cols := new Columns(c);
      head, count, totalPushed, gen := 0, 0, 0, 0;
      hist := [];
    }

    method Push(f: Frame)
      requires Valid()
      modifies this, cols.repr
      ensures Valid() && State() == old(State()).Push(f)
    {
      cols.Write(head, f);
      SlotOfSum(|hist|, 1, cap);
      SlotIsRemainder(head + 1, cap);
      head := (head + 1) % cap;
      if count < cap {
        count := count + 1;
      }
      totalPushed := totalPushed + 1;
      hist := hist + [f];
      forall a | |hist| - count <= a < |hist| ensures Stored(a) {
        if a < |hist| - 1 {
          SlotsDiffer(a, |hist| - 1, cap);
          assert old(Stored(a));
        }
      }
    }

    method PushMany(frames: seq<Frame>)
      requires Valid()
      modifies this, cols.repr
      ensures Valid() && State() == old(State()).(hist := old(hist) + frames)
    {
      for i := 0 to |frames|
        invariant Valid() && State() == old(State()).(hist := old(hist) + frames[..i])
      {
        Push(frames[i]);
        assert frames[..i + 1] == frames[..i] + [frames[i]];
      }
      assert frames[..|frames|] == frames;
    }

    method Clear()
      requires Valid()
      modifies this
      ensures Valid() && State() == old(State()).Clear()
    {
      head, count, totalPushed, gen := 0, 0, 0, gen + 1;
      hist := [];
    }

    /** Logical index 0 is the oldest retained frame. */
    function Physical(logical: nat): (p: nat)
      requires Valid() && logical < count
      reads this, cols.repr
      ensures p < cap
      ensures cols.Holds(p, hist[|hist| - count + logical])
    {
      var start := if count < cap then 0 else head;
      SlotIsRemainder(start + logical, cap);
      SlotOfSum(|hist|, logical, cap);
      assert Stored(|hist| - count + logical);
      (start + logical) % cap
    }

    /** Materialise one frame; an index outside the ring is an error. */
    function At(logical: int): (r: Result<Frame>)
      requires Valid()
      reads this, cols.repr
      ensures r == if 0 <= logical < count then Ok(hist[|hist| - count + logical]) else Err
    {
      if logical < 0 || logical >= count then Err
      else Ok(cols.Build(Physical(logical), hist[|hist| - count + logical]))
    }

    /** Oldest and newest retained timestamps. */
    method Stats() returns (size: nat, oldest: Option<int>, newest: Option<int>)
      requires Valid()
      ensures size == |State().Contents()|
      ensures var c := State().Contents();
              if c == [] then oldest.None? && newest.None?
              else oldest == Some(c[0].tUs) && newest == Some(c[|c| - 1].tUs) && newest.value == State().Newest()
    {
      if count == 0 {
        return 0, None, None;
      }
      return count, Some(cols.tUs[Physical(0)]), Some(cols.tUs[Physical(count - 1)]);
    }

    /** The window test of the scans below, read off the columns of slot `p`. */
    predicate Wanted(p: nat, lo: int, hi: int, wantId: Option<nat>)
      requires cols.Shaped() && p < cols.n
      reads cols.repr
    {
      !(cols.tUs[p] < lo || cols.tUs[p] > hi) && !(wantId.Some? && cols.id[p] != wantId.value)
    }

    /** The columns of logical index `l` answer for its frame. */
    lemma WantedMatches(l: nat, lo: int, hi: int, wantId: Option<nat>)
      requires Valid() && l < count
      ensures Wanted(Physical(l), lo, hi, wantId)
              <==> Matches(Query(wantId, Some(lo), Some(hi), None), State().Contents()[l])
    {
      assert cols.Holds(Physical(l), State().Contents()[l]);
    }

    /** Count the frames a window selects, so the columns are sized once. */
    method CountMatches(lo: int, hi: int, wantId: Option<nat>) returns (n: nat)
      requires Valid()
      ensures n == |WindowSpec(State(), lo, hi, wantId)|
    {
      ghost var all, q := State().Contents(), Query(wantId, Some(lo), Some(hi), None);
      ghost var sel := Selecting(all, q);
      n := 0;
      for l := 0 to count
        invariant n == |sel[l]|
      {
        WantedMatches(l, lo, hi, wantId);
        assert Decides(sel, all, l, q);
        if Wanted(Physical(l), lo, hi, wantId) {
          n := n + 1;
        }
      }
    }

    method Window(lo: int, hi: int, wantId: Option<nat>) returns (out: seq<Frame>)
      requires Valid()
      ensures out == WindowSpec(State(), lo, hi, wantId)
    {
      ghost var all, q := State().Contents(), Query(wantId, Some(lo), Some(hi), None);
      ghost var sel := Selecting(all, q);
      out := [];
      for l := 0 to count
        invariant out == sel[l]
      {
        WantedMatches(l, lo, hi, wantId);
        assert Decides(sel, all, l, q);
        var p := Physical(l);
        if Wanted(p, lo, hi, wantId) {
          out := out + [cols.Build(p, State().Contents()[l])];
        }
      }
    }

    method LastSeconds(seconds: int, wantId: Option<nat>) returns (out: seq<Frame>)
      requires Valid()
      ensures out == LastSecondsSpec(State(), seconds, wantId)
    {
      if count == 0 {
        return [];
      }
      var newest := cols.tUs[Physical(count - 1)];
      out := Window(newest - seconds * 1000000, newest, wantId);
    }

    /** A window as long as the ring is the whole ring. */
    lemma WholeWindow(lo: int, hi: int, wantId: Option<nat>)
      requires |WindowSpec(State(), lo, hi, wantId)| == |State().Contents()|
      ensures WindowSpec(State(), lo, hi, wantId) == State().Contents()
    {
      SelectAll(State().Contents(), Query(wantId, Some(lo), Some(hi), None));
    }

    /**
     * A window as packed columns.  The two-span bulk copy and the frame-by-frame copy answer the
     * same question: either way the columns hold exactly the selected frames.
     */
    method WindowPacked(lo: int, hi: int, wantId: Option<nat>) returns (p: Packed)
      requires Valid()
      ensures Packs(p, WindowSpec(State(), lo, hi, wantId))
    {
      var n := CountMatches(lo, hi, wantId);
      ghost var want := WindowSpec(State(), lo, hi, wantId);
      var out := new Columns(n);
      if wantId.None? && n == count && n > 0 {
        WholeWindow(lo, hi, wantId);
        CopyAll(out, want);
      } else {
        CopySelected(lo, hi, wantId, out, want);
      }
      p := out.Freeze(want);
    }

    /** The whole ring in at most two contiguous spans. */
    method CopyAll(out: Columns, ghost want: seq<Frame>)
      requires Valid() && out.Shaped() && out.n == count && want == State().Contents()
      requires out.repr !! cols.repr && this !in out.repr
      modifies out.repr
      ensures forall i :: 0 <= i < count ==> out.Holds(i, want[i])
    {
      if count == 0 {
        return;
      }
      var startPhys := if count < cap then 0 else head;
      var first := Min(count, cap - startPhys);
      out.CopySpan(cols, startPhys, 0, first);
      forall i | 0 <= i < first ensures out.Holds(i, want[i]) {
        AtPhysical(i, startPhys + i);
      }
      var rest := count - first;
      if rest > 0 {
        out.CopySpan(cols, 0, first, rest);
      }
      forall i | first <= i < count ensures out.Holds(i, want[i]) {
        AtPhysical(i, i - first);
      }
    }

    /** Physical slots run on from the oldest one and wrap at most once. */
    lemma AtPhysical(logical: nat, p: nat)
      requires Valid() && logical < count
      requires var start := if count < cap then 0 else head;
               p == if start + logical < cap then start + logical else start + logical - cap
      ensures p < cap && cols.Holds(p, State().Contents()[logical])
    {
      var start := if count < cap then 0 else head;
      SlotIsRemainder(start + logical, cap);
      assert Physical(logical) == p;
      assert State().Contents()[logical] == hist[|hist| - count + logical];
    }

    /** The frame at logical index `l`, copied behind the `w` frames already there. */
    method CopyOne(l: nat, w: nat, out: Columns, ghost want: seq<Frame>)
      requires Valid() && out.Shaped() && l < count && w < out.n == |want|
      requires out.repr !! cols.repr && this !in out.repr
      requires want[w] == State().Contents()[l] && forall i :: 0 <= i < w ==> out.Holds(i, want[i])
      modifies out.repr
      ensures Valid() && State() == old(State())
      ensures forall i :: 0 <= i <= w ==> out.Holds(i, want[i])
    {
      out.CopyRow(cols, Physical(l), w);
    }

    /** The selected frames one by one. */
    method CopySelected(lo: int, hi: int, wantId: Option<nat>, out: Columns, ghost want: seq<Frame>)
      requires Valid() && out.Shaped() && out.n == |want| && want == WindowSpec(State(), lo, hi, wantId)
      requires out.repr !! cols.repr && this !in out.repr
      modifies out.repr
      ensures forall i :: 0 <= i < out.n ==> out.Holds(i, want[i])
    {
      ghost var st := State();
      ghost var all, q := st.Contents(), Query(wantId, Some(lo), Some(hi), None);
      ghost var sel := Selecting(all, q);
      var w := 0;
      for l := 0 to count
        invariant Valid() && State() == st
        invariant w == |sel[l]| <= out.n
        invariant forall i :: 0 <= i < w ==> out.Holds(i, want[i])
      {
        WantedMatches(l, lo, hi, wantId);
        assert Decides(sel, all, l, q);
        if Wanted(Physical(l), lo, hi, wantId) {
          CopyOne(l, w, out, want);
          w := w + 1;
        }
      }
    }

    method LastSecondsPacked(seconds: int, wantId: Option<nat>) returns (p: Packed)
      requires Valid()
      ensures Packs(p, LastSecondsSpec(State(), seconds, wantId))
    {
      if count == 0 {
        p := WindowPacked(1, 0, None);
      } else {
        var newest := cols.tUs[Physical(count - 1)];
        p := WindowPacked(newest - seconds * 1000000, newest, wantId);
      }
    }

    /** The id test of a read from a cursor, read off the column of slot `p`. */
    predicate OfId(p: nat, wantId: Option<nat>)
      requires cols.Shaped() && p < cols.n
      reads cols.repr
    {
      !(wantId.Some? && cols.id[p] != wantId.value)
    }

    /** The id column at absolute index `a` answers for its frame. */
    lemma IdMatches(a: nat, wantId: Option<nat>)
      requires Valid() && |hist| - count <= a < |hist|
      ensures OfId(Physical(a - (|hist| - count)), wantId) <==> Matches(Query(wantId, None, None, None), hist[a])
    {
      assert cols.Holds(Physical(a - (|hist| - count)), hist[a]);
    }

    /**
     * Frames pushed since a cursor, with the new cursor; `lapped` tells the caller that the
     * cursor is ahead of the ring or fell off its back.
     */
    method Since(seqNo: nat, wantId: Option<nat>) returns (frames: seq<Frame>, next: nat, lapped: bool)
      requires Valid()
      ensures next == |State().hist|
      ensures var spec := SinceSpec(State(), seqNo, Query(wantId, None, None, None));
              if lapped then spec.None? && frames == [] else spec == Some(frames)
    {
      var pushed := totalPushed;
      if seqNo > pushed || seqNo < pushed - count {
        return [], pushed, true;
      }
      ghost var all, q := hist[seqNo..], Query(wantId, None, None, None);
      ghost var sel := Selecting(all, q);
      frames := [];
      var base := pushed - count;
      for a := seqNo to pushed
        invariant frames == sel[a - seqNo]
      {
        var logical := a - base;
        IdMatches(a, wantId);
        assert Decides(sel, all, a - seqNo, q);
        if OfId(Physical(logical), wantId) {
          frames := frames + [At(logical).value];
        }
      }
      return frames, pushed, false;
    }
  }
}
