/** What reassembly answers on any frames whatever, and what the bytes of a segmented message are. */
module IsoTpLaws {
  import opened Common
  import opened IsoTp

  /** A frame that begins a transfer: a single frame (first four bits 0) or a first frame (1). */
  predicate Begins(f: seq<byte>) {
    f != [] && f[0] < 32
  }

  /** The consecutive frame with sequence number `n`. */
  predicate IsNext(f: seq<byte>, n: nat) {
    f != [] && f[0] == 32 + n % 16
  }

  /** The bytes after the first one of every frame, one frame after the other. */
  function Joined(fs: Trace): (d: seq<byte>) {
    if fs == [] then [] else (if fs[0] == [] then [] else fs[0][1..]) + Joined(fs[1..])
  }

  /** Why a transfer stops at a frame when number `n` is expected. */
  function Why(f: seq<byte>, n: nat): Note {
    if f != [] && 32 <= f[0] < 48 then OutOfOrder(n % 16, f[0] - 32) else Interrupted(Decode(f))
  }

  /** The first `m` frames come in sequence, each while bytes are missing. */
  ghost predicate InSequence(fs: Trace, data: seq<byte>, n: nat, total: nat, m: nat)
    requires m <= |fs|
  {
    forall k :: 0 <= k < m ==> Continues(fs, data, n, total, k)
  }

  ghost predicate Continues(fs: Trace, data: seq<byte>, n: nat, total: nat, k: nat)
    requires k < |fs|
  {
    IsNext(fs[k], n + k) && |data + Joined(fs[..k])| < total
  }

  /** What a frame decodes to when number `n` is expected. */
  lemma NextIs(f: seq<byte>, n: nat)
    ensures IsNext(f, n) <==> Decode(f) == Consecutive(n % 16)
    ensures !IsNext(f, n) ==>
      Why(f, n) == if Decode(f).Consecutive? then OutOfOrder(n % 16, Decode(f).seqNo) else Interrupted(Decode(f))
  {
  }

  lemma NextNumber(n: nat)
    ensures (n % 16 + 1) % 16 == (n + 1) % 16
  {
  }

  /** A frame in sequence is taken while bytes are missing; anything else ends the gathering. */
  lemma WalkStep(fs: Trace, data: seq<byte>, n: nat, total: nat)
    requires fs != [] && |data| < total
    ensures IsNext(fs[0], n) ==>
      fs[0] != [] && Walk(fs, data, n % 16, total) == Walk(fs[1..], data + fs[0][1..], (n + 1) % 16, total)
    ensures !IsNext(fs[0], n) ==> Walk(fs, data, n % 16, total) == Walked(data, Some(Why(fs[0], n)))
  {
    NextIs(fs[0], n);
    NextNumber(n);
  }

  /** The gathering takes frames in sequence while bytes are missing, and tells what stopped it otherwise. */
  lemma {:induction false} WalkTells(fs: Trace, data: seq<byte>, n: nat, total: nat) returns (m: nat)
    ensures m <= |fs| && InSequence(fs, data, n, total, m)
    ensures WalkedTells(Walk(fs, data, n % 16, total), fs, data, n, total, m)
  {
    m := 0;
    if fs != [] && |data| < total {
      WalkStep(fs, data, n, total);
    }
    if fs != [] && |data| < total && IsNext(fs[0], n) {
      var k := WalkTells(fs[1..], data + fs[0][1..], n + 1, total);
      TakeMore(fs, data, n, total, k);
      m := k + 1;
      assert k < |fs| - 1 ==> fs[1..][k] == fs[m];
    } else {
      assert data + Joined(fs[..0]) == data;
    }
  }

  ghost predicate WalkedTells(w: Walked, fs: Trace, data: seq<byte>, n: nat, total: nat, m: nat)
    requires m <= |fs|
  {
    && w.data == data + Joined(fs[..m])
    && (|w.data| >= total || m == |fs| ==> w.note.None?)
    && (|w.data| < total && m < |fs| ==> !IsNext(fs[m], n + m) && w.note == Some(Why(fs[m], n + m)))
  }

  /** One more frame in front. */
  lemma TakeMore(fs: Trace, data: seq<byte>, n: nat, total: nat, m: nat)
    requires fs != [] && |data| < total && IsNext(fs[0], n) && m <= |fs| - 1
    requires InSequence(fs[1..], data + fs[0][1..], n + 1, total, m)
    ensures InSequence(fs, data, n, total, m + 1)
    ensures data + Joined(fs[..m + 1]) == data + fs[0][1..] + Joined(fs[1..][..m])
  {
    forall k | 0 <= k < m + 1
      ensures Continues(fs, data, n, total, k)
    {
      if k > 0 {
        assert Continues(fs[1..], data + fs[0][1..], n + 1, total, k - 1);
        JoinedFirst(fs, k);
      }
    }
    JoinedFirst(fs, m + 1);
  }

  lemma JoinedFirst(fs: Trace, k: nat)
    requires 0 < k <= |fs| && fs[0] != []
    ensures Joined(fs[..k]) == fs[0][1..] + Joined(fs[1..][..k - 1])
  {
    assert fs[..k][1..] == fs[1..][..k - 1];
  }

  /** Nothing in the trace begins a transfer. */
  ghost predicate NothingBegins(frames: Trace) {
    forall k :: 0 <= k < |frames| ==> !Begins(frames[k])
  }

  /** The length a first frame announces, in twelve bits. */
  function Announced(f: seq<byte>): nat
    requires f != [] && 16 <= f[0] < 32
  {
    (f[0] as int - 16) * 256 + (if |f| > 1 then f[1] as int else 0)
  }

  lemma BeginsIs(f: seq<byte>)
    ensures IsStart(f) <==> Begins(f)
    ensures f != [] && f[0] < 16 ==> Decode(f) == Single(f[0])
    ensures f != [] && 16 <= f[0] < 32 ==> Decode(f) == First(Announced(f))
  {
  }

  /** The newest frame that begins a transfer. */
  lemma NewestBegins(frames: Trace) returns (s: nat)
    ensures if NothingBegins(frames) then NewestStart(frames) == -1
            else s == NewestStart(frames) && s < |frames| && Begins(frames[s]) && NothingBegins(frames[s + 1..])
  {
    var k := NewestStart(frames);
    NoneBegin(frames[k + 1..]);
    if k < 0 {
      assert frames[k + 1..] == frames;
      s := 0;
    } else {
      s := k;
      BeginsIs(frames[s]);
    }
  }

  lemma NoneBegin(frames: Trace)
    requires NoneStarts(frames)
    ensures NothingBegins(frames)
  {
    forall j | 0 <= j < |frames| ensures !Begins(frames[j]) {
      BeginsIs(frames[j]);
    }
  }

  /**
   * The answer on any frames.  Without a frame that begins a transfer it is empty.  Otherwise the newest
   * one counts: a single frame gives the bytes it announces as far as it has them; a first frame gives its
   * own bytes and those of the `m` frames after it that come in sequence, cut to the announced length.
   */
  lemma AnswerTells(frames: Trace) returns (s: nat, m: nat)
    ensures var r := Reassembled(frames);
      if NothingBegins(frames) then r == Reassembly(false, 0, [], false, 0, Some(NoStart))
      else
        && s < |frames| && Begins(frames[s]) && NothingBegins(frames[s + 1..]) && m <= |frames| - s - 1
        && if frames[s][0] < 16 then SingleTells(r, frames[s])
           else MultiTells(r, Announced(frames[s]), Own(frames[s]), frames[s + 1..], m)
  {
    s := NewestBegins(frames);
    m := 0;
    if !NothingBegins(frames) {
      if frames[s][0] < 16 {
        SingleIs(frames[s], frames[s + 1..]);
      } else {
        m := MultiIs(frames[s], frames[s + 1..]);
      }
    }
  }

  ghost predicate SingleTells(r: Reassembly, f: seq<byte>)
    requires f != [] && f[0] < 16
  {
    && r.single && r.totalLength == f[0] && r.note == None
    && r.data == f[1..1 + Min(f[0], |f| - 1)]
    && r.expected == f[0] - |r.data| && (r.complete <==> r.expected == 0)
  }

  lemma SingleIs(f: seq<byte>, rest: Trace)
    requires f != [] && f[0] < 16
    ensures IsStart(f) && SingleTells(Transfer(f, rest), f)
  {
    BeginsIs(f);
    if |f| - 1 < f[0] {
      assert f[1..1 + (|f| - 1)] == f[1..];
    }
  }

  /** The bytes a first frame carries itself. */
  function Own(f: seq<byte>): seq<byte> {
    if |f| > 2 then f[2..] else []
  }

  ghost predicate MultiTells(r: Reassembly, total: nat, own: seq<byte>, rest: Trace, m: nat)
    requires m <= |rest|
  {
    var got := own + Joined(rest[..m]);
    && InSequence(rest, own, 1, total, m)
    && !r.single && r.totalLength == total && r.data == got[..Min(|got|, total)]
    && r.expected == total - |r.data| && (r.complete <==> |got| >= total)
    && (|got| >= total ==> r.note == None)
    && (|got| < total && m == |rest| ==> r.note == Some(MoreExpected))
    && (|got| < total && m < |rest| ==> !IsNext(rest[m], 1 + m) && r.note == Some(Why(rest[m], 1 + m)))
  }

  lemma TransferIs(f: seq<byte>, rest: Trace)
    requires f != [] && 16 <= f[0] < 32
    ensures IsStart(f) && Transfer(f, rest) == Finish(Announced(f), Walk(rest, Own(f), 1, Announced(f)))
  {
    BeginsIs(f);
    assert Own(f) == Drop(f, 2);
  }

  lemma MultiIs(f: seq<byte>, rest: Trace) returns (m: nat)
    requires f != [] && 16 <= f[0] < 32
    ensures m <= |rest| && IsStart(f) && MultiTells(Transfer(f, rest), Announced(f), Own(f), rest, m)
  {
    TransferIs(f, rest);
    m := GatheredTells(Announced(f), Own(f), rest);
  }

  lemma GatheredTells(total: nat, own: seq<byte>, rest: Trace) returns (m: nat)
    ensures m <= |rest| && MultiTells(Finish(total, Walk(rest, own, 1, total)), total, own, rest, m)
  {
    m := WalkTells(rest, own, 1, total);
    FinishTells(total, Walk(rest, own, 1, total));
  }

  lemma FinishTells(total: nat, w: Walked)
    requires |w.data| >= total ==> w.note.None?
    ensures var r := Finish(total, w);
      && !r.single && r.totalLength == total && r.data == w.data[..Min(|w.data|, total)]
      && r.expected == total - |r.data| && (r.complete <==> |w.data| >= total)
      && r.note == if |w.data| >= total then None else if w.note.Some? then w.note else Some(MoreExpected)
  {
  }

  /* ---- the bytes of a segmented message ------------------------------------------------------------- */

  /** ISO 15765-2:2016, section 9.6: the first frame carries 1, the length in twelve bits and six bytes; frame
      `k` after it 2, the number `k` in four bits, and the next seven bytes, the last one what is left, which
      may be padded. */
  lemma SegmentationBytes(msg: seq<byte>, pad: seq<byte>)
    requires Segmented(msg)
    ensures var fs, n := Segmentation(msg, pad), |msg| / 7;
      && |fs| == 1 + n && 7 * n - 1 < |msg| <= 7 * n + 6
      && FirstBytes(fs[0], msg) && forall k :: 1 <= k <= n ==> NextBytes(fs[k], msg, pad, k, n)
  {
    var fs := Segmentation(msg, pad);
    FirstFrameBytes(msg);
    forall k | 1 <= k <= |msg| / 7 ensures NextBytes(fs[k], msg, pad, k, |msg| / 7) {
      assert fs[k] == ConsecutiveFrame(msg, pad, k);
      NextFrameBytes(msg, pad, k);
    }
  }

  ghost predicate FirstBytes(f: seq<byte>, msg: seq<byte>)
    requires |msg| >= 8
  {
    |f| == 8 && 16 <= f[0] < 32 && Announced(f) == |msg| && f[2..] == msg[..6]
  }

  ghost predicate NextBytes(f: seq<byte>, msg: seq<byte>, pad: seq<byte>, k: nat, n: nat)
    requires 1 <= k <= n && 7 * n - 1 < |msg|
  {
    && f != [] && f[0] == 32 + k % 16
    && f[1..] == if k < n then msg[7 * k - 1..7 * k + 6] else msg[7 * k - 1..] + pad
  }

  lemma FirstFrameBytes(msg: seq<byte>)
    requires Segmented(msg)
    ensures FirstBytes(FirstFrame(msg), msg)
  {
    assert FirstFrame(msg)[2..] == msg[..6];
  }

  lemma NextFrameBytes(msg: seq<byte>, pad: seq<byte>, k: nat)
    requires Segmented(msg) && 1 <= k <= |msg| / 7
    ensures NextBytes(ConsecutiveFrame(msg, pad, k), msg, pad, k, |msg| / 7)
  {
    SegmentationCovers(msg, k);
    SegmentationCovers(msg, k - 1);
    if k < |msg| / 7 {
      assert ConsecutiveFrame(msg, pad, k)[1..] == msg[7 * k - 1..7 * k + 6];
    } else {
      assert ConsecutiveFrame(msg, pad, k)[1..] == msg[7 * k - 1..] + pad;
    }
  }
}
