/** Multi-frame diagnostic transfers: reassembly as the decoder does it, against the segmentation
    of ISO 15765-2:2016, section 9.6. */
module IsoTp {
  import opened Common

  /** The payloads of one identifier, oldest first. */
  type Trace = seq<seq<byte>>

  /** What the first payload bytes announce. */
  datatype Pci =
    | Single(length: nat)
    | First(total: nat)
    | Consecutive(seqNo: nat)
    | FlowControl(status: nat)
    | Unknown

  function Decode(data: seq<byte>): Pci {
    if data == [] then Unknown
    else
      var low := data[0] % 16;
      match data[0] / 16
      case 0 => Single(low)
      case 1 => First(low * 256 + (if |data| > 1 then data[1] else 0))
      case 2 => Consecutive(low)
      case 3 => FlowControl(low)
      case _ => Unknown
  }

  predicate IsStart(data: seq<byte>) {
    Decode(data).Single? || Decode(data).First?
  }

  datatype Note =
    | NoStart
    | Interrupted(pci: Pci)
    | OutOfOrder(expected: nat, saw: nat)
    | MoreExpected

  datatype Reassembly = Reassembly(
    single: bool, totalLength: nat, data: seq<byte>, complete: bool, expected: nat, note: Option<Note>)

  /** `s.slice(k)`. */
  function Drop(s: seq<byte>, k: nat): seq<byte> {
    if k <= |s| then s[k..] else []
  }

  function Take(s: seq<byte>, n: nat): seq<byte> {
    if n <= |s| then s[..n] else s
  }

  /* ---- what reassembly computes ---------------------------------------------------------- */

  /** The bytes gathered, and why the walk stopped early. */
  datatype Walked = Walked(data: seq<byte>, note: Option<Note>)

  /** Gather consecutive frames while they come in sequence and bytes are missing. */
  function Walk(frames: Trace, data: seq<byte>, seqNo: nat, total: nat): Walked {
    if frames == [] || |data| >= total then Walked(data, None)
    else
      var pci := Decode(frames[0]);
      if !pci.Consecutive? then Walked(data, Some(Interrupted(pci)))
      else if pci.seqNo != seqNo then Walked(data, Some(OutOfOrder(seqNo, pci.seqNo)))
      else Walk(frames[1..], data + frames[0][1..], (seqNo + 1) % 16, total)
  }

  /** Trim what is past the declared length and say whether all of it is there. */
  function Finish(total: nat, w: Walked): Reassembly {
    var data := Take(w.data, total);
    var complete := |data| >= total;
    Reassembly(false, total, data, complete, total - |data|,
               if complete then None else if w.note.Some? then w.note else Some(MoreExpected))
  }

  /** The transfer that `start` begins, continued by the frames after it. */
  function Transfer(start: seq<byte>, rest: Trace): Reassembly
    requires IsStart(start)
  {
    match Decode(start)
    case Single(n) =>
      var data := Take(Drop(start, 1), n);
      Reassembly(true, n, data, |data| >= n, n - |data|, None)
    case First(total) => Finish(total, Walk(rest, Drop(start, 2), 1, total))
  }

  const NOTHING: Reassembly := Reassembly(false, 0, [], false, 0, Some(NoStart))

  ghost predicate NoneStarts(frames: Trace) {
    forall k :: 0 <= k < |frames| ==> !IsStart(frames[k])
  }

  /** The index of the newest transfer start, -1 when there is none. */
  function NewestStart(frames: Trace): (k: int)
    ensures -1 <= k < |frames|
    ensures k >= 0 ==> IsStart(frames[k])
    ensures NoneStarts(frames[k + 1..])
  {
    if frames == [] then -1
    else if IsStart(frames[|frames| - 1]) then |frames| - 1
    else NewestStart(frames[..|frames| - 1])
  }

  /** The answer on `frames`: the transfer of their newest start. */
  function Reassembled(frames: Trace): Reassembly {
    var k := NewestStart(frames);
    if k < 0 then NOTHING else Transfer(frames[k], frames[k + 1..])
  }

  lemma PastNewest(frames: Trace, k: int, j: int)
    requires -1 <= k < j < |frames| && NoneStarts(frames[k + 1..])
    ensures !IsStart(frames[j])
  {
    assert frames[k + 1..][j - k - 1] == frames[j];
  }

  lemma NewestIs(frames: Trace, k: int)
    requires 0 <= k < |frames| && IsStart(frames[k]) && NoneStarts(frames[k + 1..])
    ensures NewestStart(frames) == k
  {
    var n := NewestStart(frames);
    if k < n {
      PastNewest(frames, k, n);
    } else if n < k {
      PastNewest(frames, n, k);
    }
  }

  method ReassembleIsoTp(frames: Trace) returns (r: Reassembly)
    ensures r == Reassembled(frames)
  {
    var startIdx := -1;
    var i := |frames| - 1;
    while i >= 0
      invariant -1 <= i < |frames| && startIdx == -1
      invariant NoneStarts(frames[i + 1..])
    {
      if IsStart(frames[i]) {
        startIdx := i;
        break;
      }
      i := i - 1;
    }
    if startIdx < 0 {
      return NOTHING;
    }
    NewestIs(frames, startIdx);
    var start := frames[startIdx];
    var pci := Decode(start);
    if pci.Single? {
      var data := Take(Drop(start, 1), pci.length);
      return Reassembly(true, pci.length, data, |data| >= pci.length, pci.length - |data|, None);
    }
    r := Gather(start, frames, startIdx + 1);
  }

  /** The loop over the frames after a first frame. */
  method Gather(start: seq<byte>, frames: Trace, lo: nat) returns (r: Reassembly)
    requires Decode(start).First? && lo <= |frames|
    ensures r == Transfer(start, frames[lo..])
  {
    var total := Decode(start).total;
    var data, expectedSeq: nat, note: Option<Note> := Drop(start, 2), 1, None;
    ghost var whole := Walk(frames[lo..], data, 1, total);
    var i := lo;
    while i < |frames| && |data| < total
      invariant lo <= i <= |frames|
      invariant Walk(frames[i..], data, expectedSeq, total) == whole
      invariant note.None?
    {
      var pci := Decode(frames[i]);
      assert frames[i..][1..] == frames[i + 1..];
      if !pci.Consecutive? {
        note := Some(Interrupted(pci));
        break;
      }
      if pci.seqNo != expectedSeq {
        note := Some(OutOfOrder(expectedSeq, pci.seqNo));
        break;
      }
      data := data + frames[i][1..];
      expectedSeq := (expectedSeq + 1) % 16;
      i := i + 1;
    }
    assert Walked(data, note) == whole;
    if |data| > total {
      data := data[..total];
    }
    var complete := |data| >= total;
    if !complete && note.None? {
      note := Some(MoreExpected);
    }
    r := Reassembly(false, total, data, complete, total - |data|, if complete then None else note);
  }

  /** Whatever the frames: the data never exceeds the declared length, and with what is still
      expected makes it up; complete means nothing is expected. */
  lemma Accounted(frames: Trace)
    ensures var r := Reassembled(frames);
      && |r.data| + r.expected == r.totalLength
      && (r != NOTHING ==> (r.complete <==> r.expected == 0))
      && (r.complete ==> r.note.None?)
  {
  }

  /* ---- segmentation, ISO 15765-2:2016, section 9.6 ---------------------------------------- */

  const MIN_SEGMENTED: nat := 8
  const MAX_SEGMENTED: nat := 4095

  ghost predicate Segmented(msg: seq<byte>) {
    MIN_SEGMENTED <= |msg| <= MAX_SEGMENTED
  }

  /** How many bytes the first frame and `k` consecutive frames carry. */
  function Sent(msg: seq<byte>, k: nat): (n: nat)
    ensures n <= |msg|
  {
    Min(6 + 7 * k, |msg|)
  }

  function FrameCount(msg: seq<byte>): nat
    requires Segmented(msg)
  {
    |msg| / 7
  }

  function FirstFrame(msg: seq<byte>): (f: seq<byte>)
    requires Segmented(msg)
    ensures |f| == 8
  {
    [(16 + |msg| / 256) as byte, (|msg| % 256) as byte] + msg[..6]
  }

  /** The `k`-th consecutive frame; the last one may be padded to eight bytes. */
  function ConsecutiveFrame(msg: seq<byte>, pad: seq<byte>, k: nat): (f: seq<byte>)
    requires Segmented(msg) && 1 <= k <= FrameCount(msg)
  {
    [(32 + k % 16) as byte] + msg[Sent(msg, k - 1)..Sent(msg, k)] + (if k == FrameCount(msg) then pad else [])
  }

  /** The padding fits the last frame. */
  ghost predicate Pads(msg: seq<byte>, pad: seq<byte>)
    requires Segmented(msg)
  {
    |ConsecutiveFrame(msg, pad, FrameCount(msg))| <= 8
  }

  ghost predicate Numbers(ks: seq<nat>, n: nat) {
    forall i :: 0 <= i < |ks| ==> 1 <= ks[i] <= n
  }

  ghost predicate Ascending(ks: seq<nat>) {
    forall i, j :: 0 <= i < j < |ks| ==> ks[i] < ks[j]
  }

  /** The consecutive frames numbered `ks`, in that order. */
  function Cfs(msg: seq<byte>, pad: seq<byte>, ks: seq<nat>): (fs: Trace)
    requires Segmented(msg) && Numbers(ks, FrameCount(msg))
    ensures |fs| == |ks|
  {
    seq(|ks|, i requires 0 <= i < |ks| => ConsecutiveFrame(msg, pad, ks[i]))
  }

  function UpTo(lo: nat, hi: nat): (ks: seq<nat>)
    requires lo <= hi
    ensures |ks| == hi - lo && forall i :: 0 <= i < |ks| ==> ks[i] == lo + 1 + i
  {
    seq(hi - lo, i requires 0 <= i => lo + 1 + i)
  }

  function Segmentation(msg: seq<byte>, pad: seq<byte>): Trace
    requires Segmented(msg)
  {
    [FirstFrame(msg)] + Cfs(msg, pad, UpTo(0, FrameCount(msg)))
  }

  /** The message is cut without loss: the last frame is not empty and ends it. */
  lemma SegmentationCovers(msg: seq<byte>, k: nat)
    requires Segmented(msg) && k <= FrameCount(msg)
    ensures k < FrameCount(msg) ==> Sent(msg, k) == 6 + 7 * k < |msg|
    ensures Sent(msg, FrameCount(msg)) == |msg|
  {
  }

  /* ---- round trips ------------------------------------------------------------------------ */

  /** What has arrived after the first frame and the first `k` consecutive frames. */
  function Arrived(msg: seq<byte>, pad: seq<byte>, k: nat): (d: seq<byte>)
    requires Segmented(msg) && k <= FrameCount(msg)
    ensures k < FrameCount(msg) ==> |d| == 6 + 7 * k < |msg|
  {
    msg[..Sent(msg, k)] + (if k == FrameCount(msg) then pad else [])
  }

  /** One frame in its turn. */
  lemma WalkOne(msg: seq<byte>, pad: seq<byte>, k: nat, rest: Trace)
    requires Segmented(msg) && k < FrameCount(msg)
    ensures Walk([ConsecutiveFrame(msg, pad, k + 1)] + rest, Arrived(msg, pad, k), (k + 1) % 16, |msg|)
            == Walk(rest, Arrived(msg, pad, k + 1), (k + 2) % 16, |msg|)
  {
    var cf := ConsecutiveFrame(msg, pad, k + 1);
    assert ([cf] + rest)[1..] == rest;
    assert cf[0] == 32 + (k + 1) % 16;
    assert Decode(cf) == Consecutive((k + 1) % 16);
    assert msg[..Sent(msg, k)] + msg[Sent(msg, k)..Sent(msg, k + 1)] == msg[..Sent(msg, k + 1)];
    assert Arrived(msg, pad, k) + cf[1..] == Arrived(msg, pad, k + 1);
    assert ((k + 1) % 16 + 1) % 16 == (k + 2) % 16;
  }

  lemma {:induction false} WalkInOrder(msg: seq<byte>, pad: seq<byte>, lo: nat, hi: nat, rest: Trace)
    requires Segmented(msg) && lo <= hi <= FrameCount(msg)
    ensures Walk(Cfs(msg, pad, UpTo(lo, hi)) + rest, Arrived(msg, pad, lo), (lo + 1) % 16, |msg|)
            == Walk(rest, Arrived(msg, pad, hi), (hi + 1) % 16, |msg|)
    decreases hi - lo
  {
    if lo == hi {
      assert Cfs(msg, pad, UpTo(lo, hi)) + rest == rest;
    } else {
      var later := Cfs(msg, pad, UpTo(lo + 1, hi)) + rest;
      assert Cfs(msg, pad, UpTo(lo, hi)) + rest == [ConsecutiveFrame(msg, pad, lo + 1)] + later;
      WalkOne(msg, pad, lo, later);
      WalkInOrder(msg, pad, lo + 1, hi, rest);
    }
  }

  /** Frames that continue a transfer, preceded by whatever came before it. */
  lemma AnswersFrom(stale: Trace, start: seq<byte>, rest: Trace)
    requires IsStart(start) && NoneStarts(rest)
    ensures Reassembled(stale + [start] + rest) == Transfer(start, rest)
  {
    var all, k := stale + [start] + rest, |stale|;
    assert all[k] == start && all[k + 1..] == rest;
    NewestIs(all, k);
  }

  lemma FirstFrameStarts(msg: seq<byte>)
    requires Segmented(msg)
    ensures Decode(FirstFrame(msg)) == First(|msg|) && Drop(FirstFrame(msg), 2) == msg[..6]
  {
    assert |msg| / 256 < 16 && |msg| / 256 * 256 + |msg| % 256 == |msg|;
  }

  lemma CfsContinue(msg: seq<byte>, pad: seq<byte>, ks: seq<nat>)
    requires Segmented(msg) && Numbers(ks, FrameCount(msg))
    ensures NoneStarts(Cfs(msg, pad, ks))
  {
  }

  /** The answer for a message of which everything arrived. */
  function Complete(msg: seq<byte>): Reassembly {
    Reassembly(false, |msg|, msg, true, 0, None)
  }

  /** The answer for a message of which the first frame and `k` consecutive frames arrived. */
  function Partial(msg: seq<byte>, k: nat, note: Note): Reassembly
    requires Segmented(msg) && k < FrameCount(msg)
  {
    Reassembly(false, |msg|, msg[..6 + 7 * k], false, |msg| - 6 - 7 * k, Some(note))
  }

  /** A transfer: whatever came before, its first frame, and what follows. */
  function Transmission(stale: Trace, msg: seq<byte>, rest: Trace): Trace
    requires Segmented(msg)
  {
    stale + [FirstFrame(msg)] + rest
  }

  /** A first frame after any stale frames, followed by frames that start nothing. */
  lemma AnswersFirst(stale: Trace, msg: seq<byte>, rest: Trace)
    requires Segmented(msg) && NoneStarts(rest)
    ensures Reassembled(Transmission(stale, msg, rest)) == Finish(|msg|, Walk(rest, msg[..6], 1, |msg|))
  {
    FirstFrameStarts(msg);
    AnswersFrom(stale, FirstFrame(msg), rest);
  }

  lemma NothingArrived(msg: seq<byte>, pad: seq<byte>)
    requires Segmented(msg)
    ensures Arrived(msg, pad, 0) == msg[..6]
  {
  }

  /** Its consecutive frames up to the `m`-th arrive unbroken, and then others. */
  lemma AnswersRun(stale: Trace, msg: seq<byte>, pad: seq<byte>, m: nat, rest: Trace)
    requires Segmented(msg) && m <= FrameCount(msg) && NoneStarts(rest)
    ensures Reassembled(Transmission(stale, msg, Cfs(msg, pad, UpTo(0, m)) + rest))
            == Finish(|msg|, Walk(rest, Arrived(msg, pad, m), (m + 1) % 16, |msg|))
  {
    CfsContinue(msg, pad, UpTo(0, m));
    AnswersFirst(stale, msg, Cfs(msg, pad, UpTo(0, m)) + rest);
    WalkInOrder(msg, pad, 0, m, rest);
    NothingArrived(msg, pad);
  }

  /** A transfer that stopped short of its last frame. */
  lemma FinishShort(msg: seq<byte>, pad: seq<byte>, k: nat, note: Option<Note>)
    requires Segmented(msg) && k < FrameCount(msg)
    ensures Finish(|msg|, Walked(Arrived(msg, pad, k), note)) ==
            Partial(msg, k, if note.Some? then note.value else MoreExpected)
  {
  }

  /** Once everything has arrived, whatever follows is not looked at. */
  lemma FinishWhole(msg: seq<byte>, pad: seq<byte>, rest: Trace, seqNo: nat)
    requires Segmented(msg)
    ensures Finish(|msg|, Walk(rest, Arrived(msg, pad, FrameCount(msg)), seqNo, |msg|)) == Complete(msg)
  {
    SegmentationCovers(msg, FrameCount(msg));
    assert Take(msg + pad, |msg|) == msg;
  }

  lemma Regrouped<T>(a: seq<T>, b: T, c: seq<T>)
    ensures a + [b] + (c + []) == a + [b] + c && a + [b] + c == a + ([b] + c)
  {
  }

  lemma SegmentationIs(stale: Trace, msg: seq<byte>, pad: seq<byte>)
    requires Segmented(msg)
    ensures stale + Segmentation(msg, pad)
            == Transmission(stale, msg, Cfs(msg, pad, UpTo(0, FrameCount(msg))) + [])
  {
    Regrouped(stale, FirstFrame(msg), Cfs(msg, pad, UpTo(0, FrameCount(msg))));
  }

  /** Round trip: any message segmented as the standard says, after any stale frames, comes back whole. */
  lemma RoundTrip(stale: Trace, msg: seq<byte>, pad: seq<byte>)
    requires Segmented(msg)
    ensures Reassembled(stale + Segmentation(msg, pad)) == Complete(msg)
  {
    AnswersRun(stale, msg, pad, FrameCount(msg), []);
    FinishWhole(msg, pad, [], (FrameCount(msg) + 1) % 16);
    SegmentationIs(stale, msg, pad);
  }

  lemma PrefixIs(stale: Trace, msg: seq<byte>, pad: seq<byte>, m: nat)
    requires Segmented(msg) && m < FrameCount(msg)
    ensures stale + Segmentation(msg, pad)[..m + 1] == Transmission(stale, msg, Cfs(msg, pad, UpTo(0, m)) + [])
  {
    var cfs := Cfs(msg, pad, UpTo(0, FrameCount(msg)));
    assert cfs[..m] == Cfs(msg, pad, UpTo(0, m));
    assert Segmentation(msg, pad)[..m + 1] == [FirstFrame(msg)] + cfs[..m];
    Regrouped(stale, FirstFrame(msg), Cfs(msg, pad, UpTo(0, m)));
  }

  /** Every proper prefix that holds the first frame yields a prefix of the message and what is missing. */
  lemma PrefixOfTransfer(stale: Trace, msg: seq<byte>, pad: seq<byte>, m: nat)
    requires Segmented(msg) && m < FrameCount(msg)
    ensures Reassembled(stale + Segmentation(msg, pad)[..m + 1]) == Partial(msg, m, MoreExpected)
  {
    AnswersRun(stale, msg, pad, m, []);
    FinishShort(msg, pad, m, None);
    PrefixIs(stale, msg, pad, m);
  }

  /* ---- interruptions ------------------------------------------------------------------------ */

  /** A frame that neither starts nor continues a transfer. */
  ghost predicate Foreign(other: seq<byte>) {
    Decode(other).FlowControl? || Decode(other).Unknown?
  }

  /** A flow-control or unknown frame amid a transfer ends it there, although frames follow. */
  lemma InterruptedTransfer(stale: Trace, msg: seq<byte>, pad: seq<byte>, m: nat, other: seq<byte>, rest: Trace)
    requires Segmented(msg) && m < FrameCount(msg) && Foreign(other) && NoneStarts(rest)
    ensures Reassembled(Transmission(stale, msg, Cfs(msg, pad, UpTo(0, m)) + ([other] + rest)))
            == Partial(msg, m, Interrupted(Decode(other)))
  {
    assert NoneStarts([other] + rest);
    AnswersRun(stale, msg, pad, m, [other] + rest);
    FinishShort(msg, pad, m, Some(Interrupted(Decode(other))));
  }

  /** Which frames these are: a flow-control frame has 3 in its first four bits and its status in the next
      four; one whose first four bits are 4 or more, and an empty one, is unknown. */
  lemma ForeignFrames(other: seq<byte>)
    ensures Foreign(other) <==> other == [] || other[0] >= 0x30
    ensures other != [] && 0x30 <= other[0] <= 0x3F ==> Decode(other) == FlowControl(other[0] - 0x30)
    ensures other == [] || other[0] >= 0x40 ==> Decode(other) == Unknown
  {
  }

  /**
   * Such a frame, with anything that starts no transfer after it, leaves the answer as it is
   * without it exactly when every consecutive frame came before it.
   */
  lemma InterruptionHarmlessIff(stale: Trace, msg: seq<byte>, pad: seq<byte>, m: nat, other: seq<byte>, rest: Trace)
    requires Segmented(msg) && m <= FrameCount(msg) && Foreign(other) && NoneStarts(rest)
    ensures var r := Reassembled(Transmission(stale, msg, Cfs(msg, pad, UpTo(0, m)) + ([other] + rest)));
            r == Reassembled(stale + Segmentation(msg, pad)) <==> m == FrameCount(msg)
  {
    RoundTrip(stale, msg, pad);
    if m < FrameCount(msg) {
      InterruptedTransfer(stale, msg, pad, m, other, rest);
    } else {
      assert NoneStarts([other] + rest);
      AnswersRun(stale, msg, pad, m, [other] + rest);
      FinishWhole(msg, pad, [other] + rest, (m + 1) % 16);
    }
  }

  /** In particular a flow-control frame among the message's own frames is ignored exactly after the last. */
  lemma FlowControlIgnoredIff(stale: Trace, msg: seq<byte>, pad: seq<byte>, m: nat, other: seq<byte>)
    requires Segmented(msg) && m <= FrameCount(msg) && Foreign(other)
    ensures var r := Reassembled(Transmission(stale, msg, Interspersed(msg, pad, m, other)));
            r == Reassembled(stale + Segmentation(msg, pad)) <==> m == FrameCount(msg)
  {
    var rest := Cfs(msg, pad, UpTo(m, FrameCount(msg)));
    CfsContinue(msg, pad, UpTo(m, FrameCount(msg)));
    InterruptionHarmlessIff(stale, msg, pad, m, other, rest);
  }

  /** The message's consecutive frames with `other` after the `m`-th. */
  function Interspersed(msg: seq<byte>, pad: seq<byte>, m: nat, other: seq<byte>): Trace
    requires Segmented(msg) && m <= FrameCount(msg)
  {
    Cfs(msg, pad, UpTo(0, m)) + ([other] + Cfs(msg, pad, UpTo(m, FrameCount(msg))))
  }

  /* ---- lost frames ------------------------------------------------------------------------- */

  /** An in-order selection of the message's consecutive frames. */
  ghost predicate Survivors(msg: seq<byte>, ks: seq<nat>)
    requires Segmented(msg)
  {
    Numbers(ks, FrameCount(msg)) && Ascending(ks)
  }

  /** Frames of at most eight bytes add at most seven each, and none takes anything away. */
  lemma {:induction false} WalkBound(frames: Trace, data: seq<byte>, seqNo: nat, total: nat)
    requires forall i :: 0 <= i < |frames| ==> |frames[i]| <= 8
    ensures |Walk(frames, data, seqNo, total).data| <= |data| + 7 * |frames|
  {
    if frames != [] && |data| < total && Decode(frames[0]) == Consecutive(seqNo) {
      WalkBound(frames[1..], data + frames[0][1..], (seqNo + 1) % 16, total);
    }
  }

  lemma {:induction false} WalkGrows(frames: Trace, data: seq<byte>, seqNo: nat, total: nat)
    ensures data <= Walk(frames, data, seqNo, total).data
  {
    if frames != [] && |data| < total && Decode(frames[0]) == Consecutive(seqNo) {
      WalkGrows(frames[1..], data + frames[0][1..], (seqNo + 1) % 16, total);
    }
  }

  /** As many as all of them, in order, are all of them. */
  lemma {:induction false} AscendingBelow(ks: seq<nat>, n: nat)
    requires Numbers(ks, n) && Ascending(ks)
    ensures |ks| <= n
    ensures |ks| == n ==> ks == UpTo(0, n)
  {
    if ks != [] {
      var last := |ks| - 1;
      AscendingBelow(ks[..last], ks[last] - 1);
      assert ks == ks[..last] + [ks[last]];
    }
  }

  /**
   * From any in-order selection of its own frames, the transfer is reported complete exactly when
   * no frame was lost; and then the data is the message.
   */
  lemma CompleteIffNothingLost(stale: Trace, msg: seq<byte>, pad: seq<byte>, ks: seq<nat>)
    requires Segmented(msg) && Pads(msg, pad) && Survivors(msg, ks)
    ensures var r := Reassembled(Transmission(stale, msg, Cfs(msg, pad, ks)));
      && (r.complete <==> |ks| == FrameCount(msg))
      && (r.complete ==> r.data == msg)
  {
    AscendingBelow(ks, FrameCount(msg));
    if |ks| == FrameCount(msg) {
      NothingLost(stale, msg, pad);
    } else {
      LossIncomplete(stale, msg, pad, ks);
    }
  }

  lemma NothingLost(stale: Trace, msg: seq<byte>, pad: seq<byte>)
    requires Segmented(msg)
    ensures Reassembled(Transmission(stale, msg, Cfs(msg, pad, UpTo(0, FrameCount(msg))))) == Complete(msg)
  {
    RoundTrip(stale, msg, pad);
    SegmentationIs(stale, msg, pad);
    Regrouped(stale, FirstFrame(msg), Cfs(msg, pad, UpTo(0, FrameCount(msg))));
  }

  lemma LossIncomplete(stale: Trace, msg: seq<byte>, pad: seq<byte>, ks: seq<nat>)
    requires Segmented(msg) && Pads(msg, pad) && Survivors(msg, ks) && |ks| < FrameCount(msg)
    ensures !Reassembled(Transmission(stale, msg, Cfs(msg, pad, ks))).complete
  {
    CfsContinue(msg, pad, ks);
    AnswersFirst(stale, msg, Cfs(msg, pad, ks));
    FramesFit(msg, pad, ks);
    WalkBound(Cfs(msg, pad, ks), msg[..6], 1, |msg|);
  }

  lemma FramesFit(msg: seq<byte>, pad: seq<byte>, ks: seq<nat>)
    requires Segmented(msg) && Pads(msg, pad) && Survivors(msg, ks)
    ensures forall i :: 0 <= i < |ks| ==> |Cfs(msg, pad, ks)[i]| <= 8
  {
  }

  /** How far the frames come without a gap. */
  function RunLength(prev: nat, ks: seq<nat>): nat
    decreases |ks|
  {
    if ks != [] && ks[0] == prev + 1 then RunLength(prev + 1, ks[1..]) else prev
  }

  /** The first frame to arrive after a gap. */
  function FirstAfterGap(prev: nat, ks: seq<nat>): Option<nat>
    decreases |ks|
  {
    if ks == [] then None
    else if ks[0] == prev + 1 then FirstAfterGap(prev + 1, ks[1..])
    else Some(ks[0])
  }

  function GapNote(prev: nat, ks: seq<nat>): Option<Note> {
    var after := FirstAfterGap(prev, ks);
    if after.Some? then Some(OutOfOrder((RunLength(prev, ks) + 1) % 16, after.value % 16)) else None
  }

  /** The sequence number gives the first loss away: its length is no multiple of sixteen. */
  predicate Noticed(prev: nat, ks: seq<nat>) {
    var after := FirstAfterGap(prev, ks);
    after.None? || (after.value - RunLength(prev, ks) - 1) % 16 != 0
  }

  lemma {:induction false} RunFacts(msg: seq<byte>, prev: nat, ks: seq<nat>)
    requires Segmented(msg) && Survivors(msg, ks) && prev <= FrameCount(msg)
    ensures prev <= RunLength(prev, ks) <= prev + |ks|
    ensures RunLength(prev, ks) <= FrameCount(msg)
    ensures FirstAfterGap(prev, ks).None? <==> RunLength(prev, ks) == prev + |ks|
    ensures FirstAfterGap(prev, ks).Some? ==> 1 <= FirstAfterGap(prev, ks).value <= FrameCount(msg)
    decreases |ks|
  {
    if ks != [] && ks[0] == prev + 1 {
      RunFacts(msg, prev + 1, ks[1..]);
    }
  }

  /** What the first frame after a loss adds. */
  function Added(msg: seq<byte>, pad: seq<byte>, after: nat): (d: seq<byte>)
    requires Segmented(msg) && 1 <= after <= FrameCount(msg)
    ensures |d| > 0
  {
    SegmentationCovers(msg, after - 1);
    ConsecutiveFrame(msg, pad, after)[1..]
  }

  /** What the walk over survivors yields: the unbroken run and its note, or, when the first loss is
      not noticed, the run followed by the wrong bytes. */
  ghost predicate WalksTo(msg: seq<byte>, pad: seq<byte>, prev: nat, ks: seq<nat>, w: Walked)
    requires Segmented(msg) && Survivors(msg, ks) && prev <= FrameCount(msg)
  {
    RunFacts(msg, prev, ks);
    var run, after := RunLength(prev, ks), FirstAfterGap(prev, ks);
    if Noticed(prev, ks) then w == Walked(Arrived(msg, pad, run), GapNote(prev, ks))
    else Arrived(msg, pad, run) + Added(msg, pad, after.value) <= w.data
  }

  lemma {:induction false} WalkOfSurvivors(msg: seq<byte>, pad: seq<byte>, prev: nat, ks: seq<nat>)
    requires Segmented(msg) && prev <= FrameCount(msg) && Survivors(msg, ks)
    requires ks != [] ==> prev < ks[0]
    ensures WalksTo(msg, pad, prev, ks, Walk(Cfs(msg, pad, ks), Arrived(msg, pad, prev), (prev + 1) % 16, |msg|))
    decreases |ks|
  {
    if ks != [] {
      CfsSplit(msg, pad, ks);
      if ks[0] == prev + 1 {
        WalkOne(msg, pad, prev, Cfs(msg, pad, ks[1..]));
        WalkOfSurvivors(msg, pad, prev + 1, ks[1..]);
        OneMoreInRun(msg, pad, prev, ks,
                     Walk(Cfs(msg, pad, ks[1..]), Arrived(msg, pad, prev + 1), (prev + 2) % 16, |msg|));
      } else {
        WalkOverGap(msg, pad, prev, ks);
      }
    }
  }

  lemma OneMoreInRun(msg: seq<byte>, pad: seq<byte>, prev: nat, ks: seq<nat>, w: Walked)
    requires Segmented(msg) && Survivors(msg, ks) && ks != [] && ks[0] == prev + 1
    requires Survivors(msg, ks[1..]) && WalksTo(msg, pad, prev + 1, ks[1..], w)
    ensures WalksTo(msg, pad, prev, ks, w)
  {
  }

  /** The first frame after a gap is taken exactly when the gap is a multiple of sixteen. */
  lemma WalkOverGap(msg: seq<byte>, pad: seq<byte>, prev: nat, ks: seq<nat>)
    requires Segmented(msg) && Survivors(msg, ks) && ks != [] && prev + 1 < ks[0]
    ensures WalksTo(msg, pad, prev, ks, Walk(Cfs(msg, pad, ks), Arrived(msg, pad, prev), (prev + 1) % 16, |msg|))
  {
    var k, cfs := ks[0], Cfs(msg, pad, ks);
    CfsSplit(msg, pad, ks);
    SameNumber(prev + 1, k);
    if k % 16 == (prev + 1) % 16 {
      var data := Arrived(msg, pad, prev);
      assert cfs[0] == ConsecutiveFrame(msg, pad, k);
      WalkGrows(cfs[1..], data + cfs[0][1..], ((prev + 1) % 16 + 1) % 16, |msg|);
    }
  }

  lemma SameNumber(a: nat, b: nat)
    ensures a % 16 == b % 16 <==> (b - a) % 16 == 0
  {
  }

  lemma CfsSplit(msg: seq<byte>, pad: seq<byte>, ks: seq<nat>)
    requires Segmented(msg) && Survivors(msg, ks) && ks != []
    ensures Survivors(msg, ks[1..])
    ensures Cfs(msg, pad, ks) == [ConsecutiveFrame(msg, pad, ks[0])] + Cfs(msg, pad, ks[1..])
    ensures Decode(ConsecutiveFrame(msg, pad, ks[0])) == Consecutive(ks[0] % 16)
  {
  }

  /** The answer after a loss that is noticed. */
  function Broken(msg: seq<byte>, ks: seq<nat>): Reassembly
    requires Segmented(msg) && RunLength(0, ks) < FrameCount(msg)
  {
    var note := GapNote(0, ks);
    Partial(msg, RunLength(0, ks), if note.Some? then note.value else MoreExpected)
  }

  /**
   * Whatever was lost: the data is exactly the message up to the first lost frame, with the first
   * frame after the loss named, if and only if the length of that first loss is no multiple of
   * sixteen.  Later losses do not matter.  Otherwise the bytes of a later frame follow those before
   * the loss.
   */
  lemma LossIsNoticed(stale: Trace, msg: seq<byte>, pad: seq<byte>, ks: seq<nat>)
    requires Segmented(msg) && Survivors(msg, ks) && |ks| < FrameCount(msg)
    ensures RunLength(0, ks) < FrameCount(msg)
    ensures var r, run := Reassembled(Transmission(stale, msg, Cfs(msg, pad, ks))), RunLength(0, ks);
      && (r == Broken(msg, ks) <==> Noticed(0, ks))
      && (!Noticed(0, ks) ==> |r.data| > 6 + 7 * run && r.data[..6 + 7 * run] == msg[..6 + 7 * run])
  {
    CfsContinue(msg, pad, ks);
    AnswersFirst(stale, msg, Cfs(msg, pad, ks));
    RunFacts(msg, 0, ks);
    SurvivorsFinish(msg, pad, ks);
  }

  lemma SurvivorsFinish(msg: seq<byte>, pad: seq<byte>, ks: seq<nat>)
    requires Segmented(msg) && Survivors(msg, ks) && RunLength(0, ks) < FrameCount(msg)
    ensures var r, run := Finish(|msg|, Walk(Cfs(msg, pad, ks), msg[..6], 1, |msg|)), RunLength(0, ks);
      && (r == Broken(msg, ks) <==> Noticed(0, ks))
      && (!Noticed(0, ks) ==> |r.data| > 6 + 7 * run && r.data[..6 + 7 * run] == msg[..6 + 7 * run])
  {
    var w := Walk(Cfs(msg, pad, ks), msg[..6], 1, |msg|);
    NothingArrived(msg, pad);
    WalkOfSurvivors(msg, pad, 0, ks);
    assert (0 + 1) % 16 == 1;
    assert WalksTo(msg, pad, 0, ks, w);
    FinishSurvivors(msg, pad, ks, w);
  }

  lemma FinishSurvivors(msg: seq<byte>, pad: seq<byte>, ks: seq<nat>, w: Walked)
    requires Segmented(msg) && Survivors(msg, ks) && RunLength(0, ks) < FrameCount(msg)
    requires WalksTo(msg, pad, 0, ks, w)
    ensures var r, run := Finish(|msg|, w), RunLength(0, ks);
      && (r == Broken(msg, ks) <==> Noticed(0, ks))
      && (!Noticed(0, ks) ==> |r.data| > 6 + 7 * run && r.data[..6 + 7 * run] == msg[..6 + 7 * run])
  {
    var run := RunLength(0, ks);
    if Noticed(0, ks) {
      FinishShort(msg, pad, run, GapNote(0, ks));
    } else {
      LongerPrefix(msg[..6 + 7 * run], Added(msg, pad, FirstAfterGap(0, ks).value), w.data, |msg|);
    }
  }

  /** Cutting what is longer than a prefix leaves more than the prefix. */
  lemma LongerPrefix(p: seq<byte>, more: seq<byte>, data: seq<byte>, total: nat)
    requires p + more <= data && |more| > 0 && |p| < total
    ensures |Take(data, total)| > |p| && Take(data, total)[..|p|] == p
  {
    assert data[..|p + more|] == p + more;
    assert data[..|p|] == p;
  }

  /** Sixteen frames lost in a row go unnoticed: the next ones are taken in place of the lost ones. */
  lemma SixteenLostUnnoticed(stale: Trace, msg: seq<byte>, pad: seq<byte>, m: nat)
    requires Segmented(msg) && m + 17 < FrameCount(msg)
    ensures var rest := [ConsecutiveFrame(msg, pad, m + 17)];
      var r := Reassembled(Transmission(stale, msg, Cfs(msg, pad, UpTo(0, m)) + rest));
      && r.data == msg[..6 + 7 * m] + msg[118 + 7 * m..125 + 7 * m]
      && !r.complete && r.expected == |msg| - 13 - 7 * m && r.note == Some(MoreExpected)
  {
    var cf := ConsecutiveFrame(msg, pad, m + 17);
    var rest: Trace := [cf];
    assert (m + 17) % 16 == (m + 1) % 16;
    assert Decode(cf) == Consecutive((m + 1) % 16);
    AnswersRun(stale, msg, pad, m, rest);
    assert rest[1..] == [];
    assert cf[1..] == msg[118 + 7 * m..125 + 7 * m];
    assert Walk(rest, Arrived(msg, pad, m), (m + 1) % 16, |msg|)
        == Walked(msg[..6 + 7 * m] + msg[118 + 7 * m..125 + 7 * m], None);
  }

  /** A single frame that carries its announced bytes comes back as they are. */
  lemma SingleFrame(stale: Trace, msg: seq<byte>, pad: seq<byte>)
    requires |msg| < 16
    ensures Reassembled(stale + [[|msg| as byte] + msg + pad]) == Reassembly(true, |msg|, msg, true, 0, None)
  {
    var f := [|msg| as byte] + msg + pad;
    assert Drop(f, 1) == msg + pad && Take(msg + pad, |msg|) == msg;
    AnswersFrom(stale, f, []);
    assert stale + [f] + [] == stale + [f];
  }
}
