/** Windows of frames as columns, and their grouping by identifier. */
module Windows {
  import opened Common
  import opened Seqs
  import opened Frames

  /** What can be packed: payloads of any length, values taken as bytes. */
  datatype Packable = Packable(tUs: int, id: nat, isExtended: bool, isError: bool, isRtr: bool, data: seq<int>)

  /** Eight bytes at most, each cut to a byte. */
  function Clamped(f: Packable): Frame {
    var n := Min(|f.data|, STRIDE);
    Frame(f.tUs, f.id, f.isExtended, f.isError, f.isRtr, n, seq(n, b requires 0 <= b < n => f.data[b] % 256))
  }

  function ClampedAll(fs: seq<Packable>): (r: seq<Frame>)
    ensures |r| == |fs|
  {
    seq(|fs|, i requires 0 <= i < |fs| => Clamped(fs[i]))
  }

  /** What the columns hold of a frame of any length: its flags, and its first eight bytes as bytes. */
  lemma ClampedTells(frames: seq<Packable>, p: Packed, i: nat, b: nat)
    requires Packs(p, ClampedAll(frames)) && i < |frames| && b < 8
    ensures var f := frames[i];
      && p.count == |frames| && p.tUs[i] == f.tUs && p.id[i] == f.id && p.dlc[i] == Min(8, |f.data|)
      && p.data[8 * i + b] == (if b < |f.data| then f.data[b] % 256 else 0)
      && (p.flags[i] % 2 == 1 <==> f.isExtended) && (p.flags[i] / 2 % 2 == 1 <==> f.isError)
      && (p.flags[i] / 4 == 1 <==> f.isRtr)
  {
    PackedTells(p, ClampedAll(frames), i, b);
  }

  /** The payload of frame `i` is in place. */
  ghost predicate PaddedAt(data: array<byte>, i: nat, f: Frame)
    requires (i + 1) * STRIDE <= data.Length
    reads data
  {
    forall b :: 0 <= b < STRIDE ==> data[i * STRIDE + b] == PadByte(f, b)
  }

  /** The payloads of the first `n` frames are in place, and zeros after them. */
  ghost predicate FilledData(fs: seq<Frame>, n: nat, data: array<byte>)
    requires n <= |fs| && data.Length == |fs| * STRIDE
    reads data
  {
    && (forall i :: 0 <= i < n ==> PaddedAt(data, i, fs[i]))
    && (forall k :: n * STRIDE <= k < data.Length ==> data[k] == 0)
  }

  method FramesToPacked(frames: seq<Packable>) returns (p: Packed)
    ensures Packs(p, ClampedAll(frames))
  {
    var count := |frames|;
    var tUs := new int[count];
    var id := new nat[count];
    var flags := new byte[count];
    var dlc := new nat[count];
    var data := new byte[count * STRIDE](_ => 0);
    ghost var fs := ClampedAll(frames);
    for i := 0 to count
      invariant forall k :: 0 <= k < i ==>
        tUs[k] == fs[k].tUs && id[k] == fs[k].id && flags[k] == Flags(fs[k]) && dlc[k] == fs[k].dlc
      invariant FilledData(fs, i, data)
    {
      var f := frames[i];
      tUs[i], id[i] := f.tUs, f.id;
      flags[i] := (if f.isExtended then 1 else 0) + (if f.isError then 2 else 0) + (if f.isRtr then 4 else 0);
      dlc[i] := Min(|f.data|, STRIDE);
      PutPayload(data, i, f, fs);
    }
    forall i, b | 0 <= i < count && 0 <= b < STRIDE ensures data[i * STRIDE + b] == PadByte(fs[i], b) {
      assert PaddedAt(data, i, fs[i]);
    }
    p := Packed(count, tUs[..], id[..], flags[..], dlc[..], data[..]);
  }

  method PutPayload(data: array<byte>, i: nat, f: Packable, ghost fs: seq<Frame>)
    requires i < |fs| && fs[i] == Clamped(f) && data.Length == |fs| * STRIDE && FilledData(fs, i, data)
    modifies data
    ensures FilledData(fs, i + 1, data)
  {
    var n := Min(|f.data|, STRIDE);
    var base := i * STRIDE;
    var b := 0;
    while b < n
      invariant 0 <= b <= n
      invariant forall k :: 0 <= k < data.Length && !(base <= k < base + b) ==> data[k] == old(data[k])
      invariant forall k :: base <= k < base + b ==> data[k] == f.data[k - base] % 256
    {
      data[base + b] := f.data[b] % 256;
      b := b + 1;
    }
    forall k | 0 <= k < i ensures PaddedAt(data, k, fs[k]) {
      assert old(PaddedAt(data, k, fs[k]));
    }
  }

  /* ---- grouping ------------------------------------------------------------------------------------ */

  /** The values filed under `id`, in arrival order. */
  function Filed<V>(ids: seq<nat>, vs: seq<V>, id: nat): (r: seq<V>)
    requires |vs| == |ids|
    ensures id !in ids ==> r == []
  {
    if ids == [] then []
    else
      var n := |ids| - 1;
      Filed(ids[..n], vs[..n], id) + (if ids[n] == id then [vs[n]] else [])
  }

  lemma FiledNext<V>(ids: seq<nat>, vs: seq<V>, i: nat, id: nat)
    requires |vs| == |ids| && i < |ids|
    ensures Filed(ids[..i + 1], vs[..i + 1], id)
            == Filed(ids[..i], vs[..i], id) + (if ids[i] == id then [vs[i]] else [])
  {
    assert ids[..i + 1][..i] == ids[..i] && vs[..i + 1][..i] == vs[..i];
  }

  /** The allowed identifiers in order of first appearance. */
  function Order(ids: seq<nat>, allow: Option<set<nat>>): (r: seq<nat>)
    ensures forall v :: v in r <==> v in ids && Allowed(allow, v)
  {
    if ids == [] then []
    else
      var n := |ids| - 1;
      var r := Order(ids[..n], allow);
      assert ids == ids[..n] + [ids[n]];
      if Allowed(allow, ids[n]) && ids[n] !in ids[..n] then r + [ids[n]] else r
  }

  predicate Allowed(allow: Option<set<nat>>, id: nat) {
    allow.Some? ==> id in allow.value
  }

  /** An empty list allows everything. */
  function AllowSet(allowIds: seq<nat>): Option<set<nat>> {
    if |allowIds| > 0 then Some(set v | v in allowIds) else None
  }

  lemma AllowedIs(allowIds: seq<nat>, id: nat)
    ensures Allowed(AllowSet(allowIds), id) <==> allowIds == [] || id in allowIds
  {
  }

  ghost predicate Grouped<V>(ids: seq<nat>, vs: seq<V>, allow: Option<set<nat>>, order: seq<nat>,
                             byId: map<nat, seq<V>>)
    requires |vs| == |ids|
  {
    && order == Order(ids, allow)
    && (forall id :: id in byId <==> id in order)
    && (forall id :: id in byId ==> HoldsFiled(ids, vs, id, byId[id]))
  }

  ghost predicate HoldsFiled<V>(ids: seq<nat>, vs: seq<V>, id: nat, group: seq<V>)
    requires |vs| == |ids|
  {
    group == Filed(ids, vs, id)
  }

  /** Group values by identifier: indices for a packed window, payloads for frames. */
  method GroupById<V>(ids: seq<nat>, vs: seq<V>, allowIds: seq<nat>) returns (order: seq<nat>, byId: map<nat, seq<V>>)
    requires |vs| == |ids|
    ensures Grouped(ids, vs, AllowSet(allowIds), order, byId)
  {
    var allow := AllowSet(allowIds);
    order, byId := [], map[];
    for i := 0 to |ids|
      invariant Grouped(ids[..i], vs[..i], allow, order, byId)
    {
      order, byId := FileOne(ids, vs, i, allow, order, byId);
    }
    assert ids[..|ids|] == ids && vs[..|vs|] == vs;
  }

  method FileOne<V>(ids: seq<nat>, vs: seq<V>, i: nat, allow: Option<set<nat>>, order0: seq<nat>,
                    byId0: map<nat, seq<V>>)
    returns (order: seq<nat>, byId: map<nat, seq<V>>)
    requires |vs| == |ids| && i < |ids| && Grouped(ids[..i], vs[..i], allow, order0, byId0)
    ensures Grouped(ids[..i + 1], vs[..i + 1], allow, order, byId)
  {
    order, byId := order0, byId0;
    var fid := ids[i];
    assert ids[..i + 1][..i] == ids[..i];
    if Allowed(allow, fid) {
      var group: seq<V> := [];
      if fid in byId {
        group := byId[fid];
      } else {
        order := order + [fid];
      }
      byId := byId[fid := group + [vs[i]]];
    }
    forall id | id in byId ensures HoldsFiled(ids[..i + 1], vs[..i + 1], id, byId[id]) {
      FiledNext(ids, vs, i, id);
      assert id in byId0 ==> HoldsFiled(ids[..i], vs[..i], id, byId0[id]);
    }
  }

  function IdsOf(fs: seq<Frame>): (ids: seq<nat>)
    ensures |ids| == |fs|
  {
    seq(|fs|, i requires 0 <= i < |fs| => fs[i].id)
  }

  function Datas(fs: seq<Frame>): (ds: seq<seq<byte>>)
    ensures |ds| == |fs|
  {
    seq(|fs|, i requires 0 <= i < |fs| => fs[i].data)
  }

  function Iota(n: nat): (r: seq<nat>)
    ensures |r| == n
  {
    seq(n, i requires 0 <= i => i)
  }

  /** The positions of an identifier, and the payloads of its frames. */
  function IndicesOf(p: Packed, id: nat): seq<nat> {
    Filed(p.id, Iota(|p.id|), id)
  }

  function PayloadsOf(fs: seq<Frame>, id: nat): seq<seq<byte>> {
    Filed(IdsOf(fs), Datas(fs), id)
  }

  /* ---- the payloads behind a list of indices ----------------------------------------------------------- */

  predicate Columns(data: seq<byte>, dlc: seq<nat>) {
    |data| == |dlc| * STRIDE && forall i :: 0 <= i < |dlc| ==> dlc[i] <= STRIDE
  }

  function ByteAt(data: seq<byte>, i: nat, b: nat): byte
    requires i * STRIDE + b < |data|
  {
    data[i * STRIDE + b]
  }

  function PayloadAt(data: seq<byte>, dlc: seq<nat>, i: nat): (p: seq<byte>)
    requires Columns(data, dlc) && i < |dlc|
    ensures |p| == dlc[i] && forall b :: 0 <= b < dlc[i] ==> p[b] == ByteAt(data, i, b)
  {
    data[i * STRIDE..i * STRIDE + dlc[i]]
  }

  ghost predicate Within(indices: seq<nat>, n: nat) {
    forall k :: 0 <= k < |indices| ==> indices[k] < n
  }

  function PayloadsAt(data: seq<byte>, dlc: seq<nat>, indices: seq<nat>): (ps: seq<seq<byte>>)
    requires Columns(data, dlc) && Within(indices, |dlc|)
    ensures |ps| == |indices|
  {
    seq(|indices|, k requires 0 <= k < |indices| => PayloadAt(data, dlc, indices[k]))
  }

  /** A packed window has the payloads of its frames. */
  lemma PackedPayload(p: Packed, fs: seq<Frame>, i: nat)
    requires Packs(p, fs) && i < |fs|
    ensures Columns(p.data, p.dlc) && PayloadAt(p.data, p.dlc, i) == fs[i].data
  {
    forall b | 0 <= b < fs[i].dlc ensures ByteAt(p.data, i, b) == fs[i].data[b] {
      assert p.data[i * STRIDE + b] == PadByte(fs[i], b);
    }
  }

  /** What holds between two lists position by position holds between what is filed from them. */
  lemma {:induction false} FiledRelated<V, W>(ids: seq<nat>, vs: seq<V>, ws: seq<W>, id: nat, related: (V, W) -> bool)
    requires |ids| == |vs| == |ws| && forall i :: 0 <= i < |vs| ==> related(vs[i], ws[i])
    ensures |Filed(ids, vs, id)| == |Filed(ids, ws, id)|
    ensures forall k :: 0 <= k < |Filed(ids, vs, id)| ==> related(Filed(ids, vs, id)[k], Filed(ids, ws, id)[k])
    decreases |ids|
  {
    if ids != [] {
      var n := |ids| - 1;
      FiledRelated(ids[..n], vs[..n], ws[..n], id, related);
    }
  }

  /** The index lists of a packed window stand for the payload lists of its frames: what an analyzer
      computes from one it computes from the other. */
  lemma SamePayloads(p: Packed, fs: seq<Frame>, id: nat)
    requires Packs(p, fs)
    ensures Columns(p.data, p.dlc) && Within(IndicesOf(p, id), |p.dlc|)
    ensures PayloadsAt(p.data, p.dlc, IndicesOf(p, id)) == PayloadsOf(fs, id)
    ensures p.id == IdsOf(fs)
  {
    forall i | 0 <= i < |fs| ensures PayloadAt(p.data, p.dlc, i) == fs[i].data {
      PackedPayload(p, fs, i);
    }
    assert p.id == IdsOf(fs);
    FiledRelated(p.id, Iota(|p.id|), Datas(fs), id,
                 (i: nat, d: seq<byte>) => i < |p.dlc| && Columns(p.data, p.dlc) && PayloadAt(p.data, p.dlc, i) == d);
  }
}
