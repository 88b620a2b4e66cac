/** CAN frames as the parser hands them to the cockpit, and the packed columns of a window. */
module Frames {
  import opened Common

  datatype FrameRaw = Frame(
    tUs: int, id: nat, isExtended: bool, isError: bool, isRtr: bool, dlc: nat, data: seq<byte>)

  /** Classic CAN: at most eight bytes, exactly `dlc` of them carried. */
  type Frame = f: FrameRaw | |f.data| == f.dlc <= 8
    witness Frame(0, 0, false, false, false, 0, [])

  const STRIDE: nat := 8

  /** bit0 extended, bit1 error, bit2 remote. */
  function Flags(f: Frame): byte {
    (if f.isExtended then 1 else 0) + (if f.isError then 2 else 0) + (if f.isRtr then 4 else 0)
  }

  /** Byte `b` of the payload padded to the fixed stride. */
  function PadByte(f: Frame, b: nat): byte {
    if b < f.dlc then f.data[b] else 0
  }

  /** Which frames a read wants; every `None` leaves that column unconstrained. */
  datatype Query = Query(id: Option<nat>, lo: Option<int>, hi: Option<int>, ext: Option<bool>)

  predicate Matches(q: Query, f: Frame) {
    && (q.id.None? || f.id == q.id.value)
    && (q.lo.None? || q.lo.value <= f.tUs)
    && (q.hi.None? || f.tUs <= q.hi.value)
    && (q.ext.None? || f.isExtended == q.ext.value)
  }

  /** The matching frames, in arrival order. */
  function Select(s: seq<Frame>, q: Query): (r: seq<Frame>)
    ensures |r| <= |s|
    ensures forall f :: f in r ==> f in s && Matches(q, f)
  {
    if s == [] then []
    else
      var r := Select(s[..|s| - 1], q);
      if Matches(q, s[|s| - 1]) then r + [s[|s| - 1]] else r
  }

  lemma SelectSnoc(s: seq<Frame>, f: Frame, q: Query)
    ensures Select(s + [f], q) == Select(s, q) + (if Matches(q, f) then [f] else [])
  {
    assert (s + [f])[..|s|] == s;
  }

  /** `sel[l + 1]` is `sel[l]` with the element `s[l]` decided, and a beginning of the last one. */
  ghost predicate Decides(sel: seq<seq<Frame>>, s: seq<Frame>, l: nat, q: Query)
    requires l < |s| < |sel|
  {
    && sel[l + 1] == sel[l] + (if Matches(q, s[l]) then [s[l]] else [])
    && sel[l + 1] <= sel[|s|]
  }

  /** A selection, element by element: what is selected of every beginning of `s`. */
  lemma {:induction false} Selecting(s: seq<Frame>, q: Query) returns (sel: seq<seq<Frame>>)
    ensures |sel| == |s| + 1 && sel[0] == [] && sel[|s|] == Select(s, q)
    ensures forall l :: 0 <= l < |s| ==> Decides(sel, s, l, q)
  {
    if s == [] {
      sel := [[]];
    } else {
      var s' := s[..|s| - 1];
      var sel' := Selecting(s', q);
      sel := sel' + [Select(s, q)];
      forall l | 0 <= l < |s| ensures Decides(sel, s, l, q) {
        if l < |s'| {
          assert Decides(sel', s', l, q);
        }
      }
    }
  }

  lemma {:induction false} SelectConcat(a: seq<Frame>, b: seq<Frame>, q: Query)
    ensures Select(a + b, q) == Select(a, q) + Select(b, q)
  {
    if b == [] {
      assert a + b == a;
    } else {
      var b' := b[..|b| - 1];
      assert (a + b)[..|a + b| - 1] == a + b';
      SelectConcat(a, b', q);
    }
  }

  /** Nothing was filtered out exactly when every frame matches. */
  lemma {:induction false} SelectAll(s: seq<Frame>, q: Query)
    ensures Select(s, q) == s <==> forall i :: 0 <= i < |s| ==> Matches(q, s[i])
    ensures |Select(s, q)| == |s| <==> Select(s, q) == s
  {
    if s != [] {
      var n := |s| - 1;
      SelectAll(s[..n], q);
      assert s == s[..n] + [s[n]];
      if Select(s[..n], q) != s[..n] {
        var i :| 0 <= i < n && !Matches(q, s[..n][i]);
        assert !Matches(q, s[i]) && |Select(s, q)| < |s|;
      } else if Matches(q, s[n]) {
        assert forall i :: 0 <= i < n ==> Matches(q, s[..n][i]) && s[..n][i] == s[i];
      }
    }
  }

  /** `r` is what stands in `s` at the ascending places `ks`. */
  ghost predicate StandsAt<T>(r: seq<T>, s: seq<T>, ks: seq<nat>) {
    && |r| == |ks|
    && (forall i :: 0 <= i < |ks| ==> ks[i] < |s| && r[i] == s[ks[i]])
    && (forall i, j :: 0 <= i < j < |ks| ==> ks[i] < ks[j])
  }

  /** Places in all but the last element are places in the whole, and the last one may follow them. */
  lemma StandsSnoc<T>(r: seq<T>, s: seq<T>, ks: seq<nat>)
    requires s != [] && StandsAt(r, s[..|s| - 1], ks)
    ensures StandsAt(r, s, ks) && StandsAt(r + [s[|s| - 1]], s, ks + [|s| - 1]) && |s| - 1 !in ks
  {
  }

  lemma InSnoc(ks: seq<nat>, n: nat, k: nat)
    ensures k in ks + [n] <==> k in ks || k == n
  {
  }

  /** The places of a selection. */
  lemma {:induction false} SelectPlaces(s: seq<Frame>, q: Query) returns (ks: seq<nat>)
    ensures StandsAt(Select(s, q), s, ks)
    ensures forall k :: 0 <= k < |s| ==> (k in ks <==> Matches(q, s[k]))
  {
    ks := [];
    if s != [] {
      var n := |s| - 1;
      var init := SelectPlaces(s[..n], q);
      StandsSnoc(Select(s[..n], q), s, init);
      ks := if Matches(q, s[n]) then init + [n] else init;
      forall k | 0 <= k < |s| ensures k in ks <==> Matches(q, s[k]) {
        InSnoc(init, n, k);
        if k < n {
          assert s[..n][k] == s[k];
        }
      }
    }
  }

  /** Places in a tail, counted from the beginning. */
  lemma TailPlaces<T>(r: seq<T>, s: seq<T>, n: nat, ks: seq<nat>) returns (js: seq<nat>)
    requires n <= |s| && StandsAt(r, s[n..], ks)
    ensures StandsAt(r, s, js)
    ensures forall k :: k in js <==> k >= n && k - n in ks
  {
    js := seq(|ks|, i requires 0 <= i < |ks| => n + ks[i]);
    forall k ensures k in js <==> k >= n && k - n in ks {
      if k >= n && k - n in ks {
        var i :| 0 <= i < |ks| && ks[i] == k - n;
        assert js[i] == k;
      }
    }
  }

  /** The places of a selection from a tail, counted from the beginning. */
  lemma TailSelection(s: seq<Frame>, n: nat, q: Query) returns (ks: seq<nat>)
    requires n <= |s|
    ensures StandsAt(Select(s[n..], q), s, ks)
    ensures forall k :: 0 <= k < |s| ==> (k in ks <==> n <= k && Matches(q, s[k]))
  {
    var js := SelectPlaces(s[n..], q);
    ks := TailPlaces(Select(s[n..], q), s, n, js);
    forall k | 0 <= k < |s| ensures k in ks <==> n <= k && Matches(q, s[k]) {
      if k >= n {
        assert s[n..][k - n] == s[k];
      }
    }
  }

  /** Selecting in two passes is selecting by a query that asks for both. */
  lemma {:induction false} SelectTwice(s: seq<Frame>, q1: Query, q2: Query, q: Query)
    requires forall f :: f in s ==> (Matches(q, f) <==> Matches(q1, f) && Matches(q2, f))
    ensures Select(Select(s, q1), q2) == Select(s, q)
  {
    if s != [] {
      var s', f := s[..|s| - 1], s[|s| - 1];
      SelectTwice(s', q1, q2, q);
      SelectSnoc(Select(s', q1), f, q2);
    }
  }

  /** A window of frames as columns; payloads at a fixed eight-byte stride. */
  datatype Packed = Packed(
    count: nat, tUs: seq<int>, id: seq<nat>, flags: seq<byte>, dlc: seq<nat>, data: seq<byte>)

  /** `p` holds exactly the frames `fs`, column by column, with zero padding. */
  ghost predicate Packs(p: Packed, fs: seq<Frame>) {
    && p.count == |fs| == |p.tUs| == |p.id| == |p.flags| == |p.dlc|
    && |p.data| == |fs| * STRIDE
    && (forall i :: 0 <= i < |fs| ==>
          p.tUs[i] == fs[i].tUs && p.id[i] == fs[i].id && p.flags[i] == Flags(fs[i]) && p.dlc[i] == fs[i].dlc)
    && (forall i, b :: 0 <= i < |fs| && 0 <= b < STRIDE ==> p.data[i * STRIDE + b] == PadByte(fs[i], b))
  }

  /** The columns determine the frames: packing loses nothing. */
  lemma PacksInjective(p: Packed, fs: seq<Frame>, gs: seq<Frame>)
    requires Packs(p, fs) && Packs(p, gs)
    ensures fs == gs
  {
    forall i | 0 <= i < |fs| ensures fs[i] == gs[i] {
      FlagsInjective(fs[i], gs[i]);
      assert p.tUs[i] == fs[i].tUs && p.tUs[i] == gs[i].tUs;
      assert fs[i].dlc == gs[i].dlc;
      forall b | 0 <= b < fs[i].dlc ensures fs[i].data[b] == gs[i].data[b] {
        assert p.data[i * STRIDE + b] == PadByte(fs[i], b);
        assert p.data[i * STRIDE + b] == PadByte(gs[i], b);
      }
      assert fs[i].data == gs[i].data;
    }
  }

  lemma FlagsInjective(f: Frame, g: Frame)
    ensures Flags(f) == Flags(g) <==>
            (f.isExtended == g.isExtended && f.isError == g.isError && f.isRtr == g.isRtr)
    ensures f.isExtended <==> Flags(f) % 2 != 0
    ensures f.isError <==> Flags(f) / 2 % 2 != 0
    ensures f.isRtr <==> Flags(f) / 4 % 2 != 0
  {
  }

  /** What the columns hold of frame `i`: its flags in the three lowest bits, and its payload from byte
      `8 * i` on with zeros behind it. */
  lemma PackedTells(p: Packed, fs: seq<Frame>, i: nat, b: nat)
    requires Packs(p, fs) && i < |fs| && b < 8
    ensures p.count == |fs| && |p.data| == 8 * |fs|
    ensures p.tUs[i] == fs[i].tUs && p.id[i] == fs[i].id && p.dlc[i] == |fs[i].data|
    ensures p.data[8 * i + b] == if b < |fs[i].data| then fs[i].data[b] else 0
    ensures p.flags[i] < 8 && (p.flags[i] % 2 == 1 <==> fs[i].isExtended)
    ensures (p.flags[i] / 2 % 2 == 1 <==> fs[i].isError) && (p.flags[i] / 4 == 1 <==> fs[i].isRtr)
  {
    assert p.data[i * STRIDE + b] == PadByte(fs[i], b);
  }
}
