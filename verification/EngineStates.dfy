/**
 * The capture pipeline as a value: reader thread, batcher task, client queues and stop as
 * interleaved steps, and what every interleaving keeps.
 */
module EngineStates {
  import opened Common
  import opened Seqs
  import opened Frames
  import opened Wire

  const CLIENT_QUEUE_MAX: nat := 64
  const FRAME_QUEUE_MAX: nat := 100000

  type Payload = seq<byte>

  datatype Phase = Idle | Running | Stopping

  /** What an adapter hands to the reader. */
  datatype Message = Message(
    stampUs: Option<int>, arbitrationId: int, dlc: int, data: seq<byte>, isExtended: bool, isError: bool, isRtr: bool)

  /** One subscriber: its queue, and what became of every broadcast since it joined. */
  datatype ClientState = ClientState(queue: seq<Payload>, delivered: seq<Payload>, joined: nat, missed: nat)

  /** What happened, beyond what the program keeps.  The first four and the replay flag are of this session. */
  datatype History = History(
    accepted: seq<BusFrame>, batches: seq<seq<BusFrame>>, lost: seq<BusFrame>, discarded: seq<BusFrame>,
    sentFrom: nat, doneFrom: nat,
    sent: seq<Payload>,       // every broadcast
    done: seq<BusFrame>,      // every frame taken out of the queue by the batcher
    recordFrom: nat,          // how many were done when the recording started
    overflows: nat, departed: nat)

  datatype EngineState<K> = EngineState(
    phase: Phase, replay: bool, readerAlive: bool, batcherAlive: bool, midDrain: bool,
    drained: seq<BusFrame>, queue: seq<BusFrame>, clients: map<K, ClientState>, dropped: nat,
    recording: Option<seq<BusFrame>>, h: History)

  const EMPTY: History := History([], [], [], [], 0, 0, [], [], 0, 0, 0)

  function Fresh<K>(): EngineState<K> {
    EngineState(Idle, false, false, false, false, [], [], map[], 0, None, EMPTY)
  }

  /* ---- steps ------------------------------------------------------------------------------------ */

  /** The frame the reader builds from a message, stamped on arrival when it carries no time. */
  function FrameOf(m: Message, nowUs: int): Result<BusFrame> {
    MakeFrame(if m.stampUs.Some? then m.stampUs.value else nowUs, m.arbitrationId % ID_LIMIT, m.dlc, m.data,
              m.isExtended, m.isError, m.isRtr)
  }

  /** An unbuildable frame ends the reader; a full queue drops the frame and counts it. */
  function Received<K>(s: EngineState<K>, m: Message, nowUs: int): EngineState<K> {
    var f := FrameOf(m, nowUs);
    if f.Err? then s.(readerAlive := false)
    else if |s.queue| < FRAME_QUEUE_MAX then
      s.(queue := s.queue + [f.value], h := s.h.(accepted := s.h.accepted + [f.value]))
    else s.(dropped := s.dropped + 1, h := s.h.(overflows := s.h.overflows + 1))
  }

  /** Queue the batch, or miss it when the queue is full. */
  function Offer(c: ClientState, p: Payload): ClientState {
    if |c.queue| < CLIENT_QUEUE_MAX then c.(queue := c.queue + [p]) else c.(missed := c.missed + 1)
  }

  function Offered<K>(clients: map<K, ClientState>, p: Payload): map<K, ClientState> {
    map k | k in clients :: Offer(clients[k], p)
  }

  function Full<K>(clients: map<K, ClientState>): set<K> {
    set k | k in clients && |clients[k].queue| >= CLIENT_QUEUE_MAX
  }

  function Broadcast<K>(s: EngineState<K>, p: Payload): EngineState<K> {
    s.(clients := Offered(s.clients, p), dropped := s.dropped + |Full(s.clients)|, h := s.h.(sent := s.h.sent + [p]))
  }

  /** Write the drained frames to an active recording. */
  function Recorded<K>(s: EngineState<K>): EngineState<K> {
    s.(recording := if s.recording.Some? then Some(s.recording.value + s.drained) else None,
       drained := [], midDrain := false, h := s.h.(done := s.h.done + s.drained))
  }

  /** Record the drained frames and broadcast their encoding. */
  function Sent<K>(s: EngineState<K>, p: Payload): EngineState<K> {
    var s2 := Broadcast(Recorded(s), p);
    s2.(h := s2.h.(batches := s2.h.batches + [s.drained]))
  }

  /** Record the drained frames and lose them: the batcher ends. */
  function Lost<K>(s: EngineState<K>): EngineState<K> {
    var s1 := Recorded(s);
    s1.(batcherAlive := false, h := s1.h.(lost := s.drained))
  }

  /** The queue was seen empty: record, encode and broadcast what was drained.  A batch that cannot
      be encoded ends the batcher with its frames. */
  function Flushed<K>(s: EngineState<K>): EngineState<K> {
    if s.drained == [] then s.(midDrain := false)
    else
      var payload := EncodeBatch(s.drained, s.drained[0].tUs, s.replay);
      if payload.Err? then Lost(s) else Sent(s, payload.value)
  }

  function Started<K>(s: EngineState<K>, replay: bool): EngineState<K> {
    s.(phase := Running, replay := replay, readerAlive := true, batcherAlive := true,
       h := s.h.(accepted := [], batches := [], lost := [], discarded := [], sentFrom := |s.h.sent|,
                 doneFrom := |s.h.done|))
  }

  /** The stop flag is set and the batcher cancelled; the reader may still finish its call. */
  function StopRequested<K>(s: EngineState<K>): EngineState<K> {
    s.(phase := Stopping, batcherAlive := false)
  }

  /** The reader has ended: what is left in the queue is discarded. */
  function Stopped<K>(s: EngineState<K>): EngineState<K> {
    s.(phase := Idle, readerAlive := false, queue := [], h := s.h.(discarded := s.queue))
  }

  function Joined<K>(s: EngineState<K>, k: K): EngineState<K> {
    s.(clients := s.clients[k := ClientState([], [], |s.h.sent|, 0)])
  }

  function Left<K>(s: EngineState<K>, k: K): EngineState<K>
    requires k in s.clients
  {
    s.(clients := s.clients - {k}, h := s.h.(departed := s.h.departed + s.clients[k].missed))
  }

  /** A client's writer takes the oldest batch of its queue. */
  function Delivered<K>(s: EngineState<K>, k: K): EngineState<K>
    requires k in s.clients && s.clients[k].queue != []
  {
    var c := s.clients[k];
    s.(clients := s.clients[k := c.(queue := c.queue[1..], delivered := c.delivered + [c.queue[0]])])
  }

  datatype Op<K> =
    | Start(replay: bool) | RequestStop | FinishStop
    | Receive(m: Message, nowUs: int)
    | BeginDrain | DrainOne | Flush
    | Join(k: K) | Leave(k: K) | Deliver(k: K)
    | RecordStart | RecordStop

  /**
   * When a step can happen.  The tasks of the event loop give way only while they wait: no stop,
   * recording or subscription change falls between the first and the last step of a drain, nor
   * while stop waits for the reader.  The reader runs at any time.
   */
  predicate Enabled<K>(s: EngineState<K>, op: Op<K>) {
    match op
    case Start(_) => s.phase == Idle
    case RequestStop => s.phase == Running && !s.midDrain
    case FinishStop => s.phase == Stopping
    case Receive(_, _) => s.phase != Idle && s.readerAlive
    case BeginDrain => s.phase == Running && s.batcherAlive && !s.midDrain
    case DrainOne => s.midDrain && s.queue != []
    case Flush => s.midDrain && s.queue == []
    case Join(k) => s.phase != Stopping && !s.midDrain && k !in s.clients
    case Leave(k) => s.phase != Stopping && !s.midDrain && k in s.clients
    case Deliver(k) => s.phase != Stopping && !s.midDrain && k in s.clients && s.clients[k].queue != []
    case RecordStart => s.phase != Stopping && !s.midDrain
    case RecordStop => s.phase != Stopping && !s.midDrain
  }

  function Step<K>(s: EngineState<K>, op: Op<K>): EngineState<K>
    requires Enabled(s, op)
  {
    match op
    case Start(replay) => Started(s, replay)
    case RequestStop => StopRequested(s)
    case FinishStop => Stopped(s)
    case Receive(m, now) => Received(s, m, now)
    case BeginDrain => s.(midDrain := true)
    case DrainOne => s.(drained := s.drained + [s.queue[0]], queue := s.queue[1..])
    case Flush => Flushed(s)
    case Join(k) => Joined(s, k)
    case Leave(k) => Left(s, k)
    case Deliver(k) => Delivered(s, k)
    case RecordStart => s.(recording := Some([]), h := s.h.(recordFrom := |s.h.done|))
    case RecordStop => s.(recording := None)
  }

  /** A run takes the steps that are enabled when their turn comes. */
  function Run<K>(s: EngineState<K>, ops: seq<Op<K>>): EngineState<K>
    decreases |ops|
  {
    if ops == [] then s
    else
      var p := Run(s, ops[..|ops| - 1]);
      if Enabled(p, ops[|ops| - 1]) then Step(p, ops[|ops| - 1]) else p
  }

  /* ---- invariants --------------------------------------------------------------------------------- */

  function Concat<T>(ss: seq<seq<T>>): seq<T> {
    if ss == [] then [] else Concat(ss[..|ss| - 1]) + ss[|ss| - 1]
  }

  /** Every accepted frame is, in order: broadcast, or lost with the batcher, or drained, or queued, or discarded. */
  ghost predicate Conserved<K>(s: EngineState<K>) {
    s.h.accepted == Concat(s.h.batches) + s.h.lost + s.drained + s.queue + s.h.discarded
  }

  ghost predicate Phased<K>(s: EngineState<K>) {
    && |s.queue| <= FRAME_QUEUE_MAX
    && (s.phase == Idle ==> s.queue == []) && (s.phase != Idle ==> s.h.discarded == [])
    && (!s.midDrain ==> s.drained == []) && (s.midDrain ==> s.phase == Running && s.batcherAlive)
    && (s.batcherAlive ==> s.phase == Running && s.h.lost == [])
  }

  /** The broadcasts of this session are the encodings of its batches, one each. */
  ghost predicate SentBatches<K>(s: EngineState<K>) {
    && s.h.sentFrom + |s.h.batches| == |s.h.sent|
    && AllCarried(s.h.sent, s.h.sentFrom, s.h.batches, s.replay)
  }

  /** From position `n` on, the payloads carry the batches. */
  ghost predicate AllCarried(sent: seq<Payload>, n: nat, batches: seq<seq<BusFrame>>, replay: bool)
    requires n + |batches| <= |sent|
  {
    forall i :: 0 <= i < |batches| ==> Carries(sent[n + i], batches[i], replay)
  }

  ghost predicate Carries(p: Payload, batch: seq<BusFrame>, replay: bool) {
    batch != [] && EncodeBatch(batch, batch[0].tUs, replay) == Ok(p)
  }

  /** An active recording holds exactly what was drained since it started. */
  ghost predicate Recording<K>(s: EngineState<K>) {
    && s.h.doneFrom <= |s.h.done| && s.h.done[s.h.doneFrom..] == Concat(s.h.batches) + s.h.lost
    && (s.recording.Some? ==> s.h.recordFrom <= |s.h.done| && s.recording.value == s.h.done[s.h.recordFrom..])
  }

  /** `a` is `b` with some elements left out. */
  ghost predicate Subsequence<T>(a: seq<T>, b: seq<T>)
    decreases |b|
  {
    if b == [] then a == []
    else
      || (a != [] && a[|a| - 1] == b[|b| - 1] && Subsequence(a[..|a| - 1], b[..|b| - 1]))
      || Subsequence(a, b[..|b| - 1])
  }

  /** What a client has got or will get is a selection of the broadcasts since it joined, and the
      rest is what it missed. */
  ghost predicate Served(c: ClientState, sent: seq<Payload>) {
    && |c.queue| <= CLIENT_QUEUE_MAX && c.joined <= |sent|
    && Subsequence(c.delivered + c.queue, sent[c.joined..])
    && |c.delivered| + |c.queue| + c.missed == |sent| - c.joined
  }

  ghost predicate AllServed<K>(s: EngineState<K>) {
    forall k :: k in s.clients ==> Served(s.clients[k], s.h.sent)
  }

  ghost function Missed<K>(clients: map<K, ClientState>): nat
    decreases |clients|
  {
    if clients == map[] then 0
    else
      var k :| k in clients;
      clients[k].missed + Missed(clients - {k})
  }

  /** The drop counter is the overflows of the reader and the misses of every client, gone or not. */
  ghost predicate Counted<K>(s: EngineState<K>) {
    s.dropped == s.h.overflows + Missed(s.clients) + s.h.departed
  }

  ghost predicate Inv<K>(s: EngineState<K>) {
    Phased(s) && Conserved(s) && SentBatches(s) && Recording(s) && AllServed(s) && Counted(s)
  }

  lemma {:induction false} MissedOf<K>(clients: map<K, ClientState>, k: K)
    requires k in clients
    ensures Missed(clients) == clients[k].missed + Missed(clients - {k})
    decreases |clients|
  {
    var j :| j in clients && Missed(clients) == clients[j].missed + Missed(clients - {j});
    if j != k {
      MissedOf(clients - {j}, k);
      MissedOf(clients - {k}, j);
      assert clients - {j} - {k} == clients - {k} - {j};
    }
  }

  lemma MissedAfter<K>(clients: map<K, ClientState>, k: K, c: ClientState)
    ensures Missed(clients[k := c]) == c.missed + Missed(clients - {k})
  {
    MissedOf(clients[k := c], k);
    assert clients[k := c] - {k} == clients - {k};
  }

  lemma {:induction false} MissedOffered<K>(clients: map<K, ClientState>, p: Payload)
    ensures Missed(Offered(clients, p)) == Missed(clients) + |Full(clients)|
    decreases |clients|
  {
    if clients == map[] {
      assert Offered(clients, p) == map[] && Full(clients) == {};
    } else {
      var k :| k in clients;
      var rest := clients - {k};
      MissedOf(clients, k);
      MissedOf(Offered(clients, p), k);
      MissedOffered(rest, p);
      FullWithout(clients, k, p);
    }
  }

  lemma FullWithout<K>(clients: map<K, ClientState>, k: K, p: Payload)
    requires k in clients
    ensures Offered(clients, p) - {k} == Offered(clients - {k}, p)
    ensures |Full(clients)| == |Full(clients - {k})| + (if |clients[k].queue| >= CLIENT_QUEUE_MAX then 1 else 0)
  {
    var extra := if |clients[k].queue| >= CLIENT_QUEUE_MAX then {k} else {};
    assert Full(clients) == Full(clients - {k}) + extra;
  }

  lemma OfferServes(c: ClientState, sent: seq<Payload>, p: Payload)
    requires Served(c, sent)
    ensures Served(Offer(c, p), sent + [p])
  {
    var b := (sent + [p])[c.joined..];
    assert b[..|b| - 1] == sent[c.joined..] && b[|b| - 1] == p;
    var a := c.delivered + (c.queue + [p]);
    assert a[..|a| - 1] == c.delivered + c.queue && a[|a| - 1] == p;
  }

  lemma BroadcastKeeps<K>(s: EngineState<K>, p: Payload)
    requires AllServed(s) && Counted(s)
    ensures AllServed(Broadcast(s, p)) && Counted(Broadcast(s, p))
  {
    MissedOffered(s.clients, p);
    forall k | k in s.clients ensures Served(Offer(s.clients[k], p), s.h.sent + [p]) {
      OfferServes(s.clients[k], s.h.sent, p);
    }
  }

  /** A tail grows with its sequence. */
  lemma TailGrows<T>(s: seq<T>, t: seq<T>, n: nat)
    requires n <= |s|
    ensures (s + t)[n..] == s[n..] + t
  {
  }

  lemma ConcatSnoc<T>(ss: seq<seq<T>>, s: seq<T>)
    ensures Concat(ss + [s]) == Concat(ss) + s
  {
    assert (ss + [s])[..|ss|] == ss;
  }

  /** The recording and the frames done grow by what was drained. */
  lemma RecordedKeeps<K>(s: EngineState<K>)
    requires Recording(s) && s.h.lost == []
    ensures var s1 := Recorded(s);
      && s1.h.doneFrom <= |s1.h.done| && s1.h.done[s1.h.doneFrom..] == Concat(s.h.batches) + s.drained
      && (s1.recording.Some? ==> s1.h.recordFrom <= |s1.h.done| && s1.recording.value == s1.h.done[s1.h.recordFrom..])
  {
    TailGrows(s.h.done, s.drained, s.h.doneFrom);
    if s.recording.Some? {
      TailGrows(s.h.done, s.drained, s.h.recordFrom);
    }
  }

  lemma AllCarriedSnoc(sent: seq<Payload>, n: nat, batches: seq<seq<BusFrame>>, replay: bool,
                       p: Payload, batch: seq<BusFrame>)
    requires n + |batches| == |sent| && AllCarried(sent, n, batches, replay) && Carries(p, batch, replay)
    ensures AllCarried(sent + [p], n, batches + [batch], replay)
  {
    forall i | 0 <= i <= |batches| ensures Carries((sent + [p])[n + i], (batches + [batch])[i], replay) {
      assert i < |batches| ==> Carries(sent[n + i], batches[i], replay);
    }
  }

  lemma LostKeeps<K>(s: EngineState<K>)
    requires Inv(s) && s.midDrain && s.queue == []
    ensures Inv(Lost(s))
  {
    RecordedKeeps(s);
    Empties(Concat(s.h.batches), s.drained);
  }

  /** Sending keeps the frames accounted for. */
  lemma SentConserves<K>(s: EngineState<K>, p: Payload)
    requires Phased(s) && Conserved(s) && Recording(s) && s.midDrain && s.queue == []
    ensures Phased(Sent(s, p)) && Conserved(Sent(s, p)) && Recording(Sent(s, p))
  {
    RecordedKeeps(s);
    ConcatSnoc(s.h.batches, s.drained);
    Empties(Concat(s.h.batches), s.drained);
    Empties(Concat(s.h.batches) + s.drained, []);
  }

  lemma SentKeeps<K>(s: EngineState<K>, p: Payload)
    requires Inv(s) && s.midDrain && s.queue == [] && Carries(p, s.drained, s.replay)
    ensures Inv(Sent(s, p))
  {
    SentConserves(s, p);
    BroadcastKeeps(Recorded(s), p);
    AllCarriedSnoc(s.h.sent, s.h.sentFrom, s.h.batches, s.replay, p, s.drained);
  }

  lemma Empties<T>(a: seq<T>, b: seq<T>)
    ensures a + [] + b + [] + [] == a + b && a + b + [] + [] + [] == a + b && a + b + [] == a + b
  {
  }

  lemma FlushKeeps<K>(s: EngineState<K>)
    requires Inv(s) && s.midDrain && s.queue == []
    ensures Inv(Flushed(s))
  {
    if s.drained != [] {
      var payload := EncodeBatch(s.drained, s.drained[0].tUs, s.replay);
      if payload.Ok? {
        SentKeeps(s, payload.value);
      } else {
        LostKeeps(s);
      }
    }
  }

  lemma Append<T>(front: seq<T>, queue: seq<T>, x: T)
    ensures front + queue + [] + [x] == front + (queue + [x]) + []
  {
  }

  lemma ReceiveKeeps<K>(s: EngineState<K>, m: Message, nowUs: int)
    requires Inv(s) && Enabled(s, Receive(m, nowUs))
    ensures Inv(Received(s, m, nowUs))
  {
    var f := FrameOf(m, nowUs);
    if f.Ok? && |s.queue| < FRAME_QUEUE_MAX {
      Append(Concat(s.h.batches) + s.h.lost + s.drained, s.queue, f.value);
    }
  }

  lemma JoinKeeps<K>(s: EngineState<K>, k: K)
    requires AllServed(s) && Counted(s) && k !in s.clients
    ensures AllServed(Joined(s, k)) && Counted(Joined(s, k))
  {
    MissedAfter(s.clients, k, ClientState([], [], |s.h.sent|, 0));
    assert s.clients - {k} == s.clients;
    assert s.h.sent[|s.h.sent|..] == [];
  }

  lemma LeaveKeeps<K>(s: EngineState<K>, k: K)
    requires AllServed(s) && Counted(s) && k in s.clients
    ensures AllServed(Left(s, k)) && Counted(Left(s, k))
  {
    MissedOf(s.clients, k);
  }

  lemma DeliverKeeps<K>(s: EngineState<K>, k: K)
    requires AllServed(s) && Counted(s) && k in s.clients && s.clients[k].queue != []
    ensures AllServed(Delivered(s, k)) && Counted(Delivered(s, k))
  {
    var c := s.clients[k];
    var c' := c.(queue := c.queue[1..], delivered := c.delivered + [c.queue[0]]);
    MissedOf(s.clients, k);
    MissedAfter(s.clients, k, c');
    assert Served(c, s.h.sent);
    assert c'.delivered + c'.queue == c.delivered + c.queue;
    assert Served(c', s.h.sent);
  }

  lemma DrainKeeps<K>(s: EngineState<K>)
    requires Inv(s) && s.midDrain && s.queue != []
    ensures Inv(Step(s, DrainOne))
  {
    OneMoved(Concat(s.h.batches) + s.h.lost, s.drained, s.queue);
  }

  lemma OneMoved<T>(front: seq<T>, drained: seq<T>, queue: seq<T>)
    requires queue != []
    ensures front + (drained + [queue[0]]) + queue[1..] == front + drained + queue
  {
  }

  lemma SessionKeeps<K>(s: EngineState<K>, op: Op<K>)
    requires Inv(s) && Enabled(s, op) && (op.Start? || op.RequestStop? || op.FinishStop?)
    ensures Inv(Step(s, op))
  {
    if op.Start? {
      assert s.h.done[|s.h.done|..] == [];
    } else if op.FinishStop? {
      assert s.h.accepted == Concat(s.h.batches) + s.h.lost + s.drained + [] + s.queue;
    }
  }

  lemma RecordKeeps<K>(s: EngineState<K>, op: Op<K>)
    requires Recording(s) && (op.RecordStart? || op.RecordStop?) && Enabled(s, op)
    ensures Recording(Step(s, op))
  {
    assert s.h.done[|s.h.done|..] == [];
  }

  lemma StepKeeps<K>(s: EngineState<K>, op: Op<K>)
    requires Inv(s) && Enabled(s, op)
    ensures Inv(Step(s, op))
  {
    match op
    case Receive(m, now) => ReceiveKeeps(s, m, now);
    case Flush => FlushKeeps(s);
    case Join(k) => JoinKeeps(s, k);
    case Leave(k) => LeaveKeeps(s, k);
    case Deliver(k) => DeliverKeeps(s, k);
    case DrainOne => DrainKeeps(s);
    case BeginDrain =>
    case RecordStart => RecordKeeps(s, op);
    case RecordStop => RecordKeeps(s, op);
    case _ => SessionKeeps(s, op);
  }

  /** Main theorem: every reachable state, over every interleaving, conserves frames, broadcasts and drops. */
  lemma {:induction false} AlwaysInv<K>(ops: seq<Op<K>>)
    ensures Inv(Run(Fresh<K>(), ops))
    decreases |ops|
  {
    if ops != [] {
      var p := Run(Fresh<K>(), ops[..|ops| - 1]);
      AlwaysInv(ops[..|ops| - 1]);
      if Enabled(p, ops[|ops| - 1]) {
        StepKeeps(p, ops[|ops| - 1]);
      }
    }
  }

  /* ---- what a client reads --------------------------------------------------------------------------- */

  /** The frames in a run of payloads, as a decoder reads them. */
  function FramesIn(ps: seq<Payload>): seq<Frame> {
    if ps == [] then []
    else
      var d := DecodeBatch(ps[|ps| - 1]);
      FramesIn(ps[..|ps| - 1]) + (if d.Ok? then d.value.frames else [])
  }

  lemma CarriesFrames(p: Payload, batch: seq<BusFrame>, replay: bool)
    requires Carries(p, batch, replay)
    ensures DecodeBatch(p) == Ok(Batch(VERSION, replay, batch[0].tUs, ShownAll(batch)))
  {
    EncodesExactly(batch, batch[0].tUs, replay);
    DecodeOfEncode(batch, batch[0].tUs, replay);
  }

  lemma {:induction false} FramesOfBatches(ps: seq<Payload>, batches: seq<seq<BusFrame>>, replay: bool)
    requires |ps| == |batches| && forall i :: 0 <= i < |ps| ==> Carries(ps[i], batches[i], replay)
    ensures FramesIn(ps) == ShownAll(Concat(batches))
  {
    if ps != [] {
      var n := |ps| - 1;
      FramesOfBatches(ps[..n], batches[..n], replay);
      CarriesFrames(ps[n], batches[n], replay);
      ShownConcat(Concat(batches[..n]), batches[n]);
    }
  }

  lemma {:induction false} WholeSubsequence<T>(a: seq<T>, b: seq<T>)
    requires Subsequence(a, b)
    ensures |a| <= |b|
    ensures |a| == |b| ==> a == b
    decreases |b|
  {
    if b != [] {
      if a != [] && a[|a| - 1] == b[|b| - 1] && Subsequence(a[..|a| - 1], b[..|b| - 1]) {
        WholeSubsequence(a[..|a| - 1], b[..|b| - 1]);
      } else {
        WholeSubsequence(a, b[..|b| - 1]);
      }
    }
  }

  /** The broadcasts of this session are the last a client that missed none has got or will get. */
  lemma GotLast(c: ClientState, h: History)
    requires Served(c, h.sent) && c.missed == 0 && c.joined <= h.sentFrom && h.sentFrom + |h.batches| == |h.sent|
    ensures var got := c.delivered + c.queue;
            |h.batches| <= |got| && got[|got| - |h.batches|..] == h.sent[h.sentFrom..]
  {
    WholeSubsequence(c.delivered + c.queue, h.sent[c.joined..]);
  }

  /** What in this session has not been broadcast. */
  function Unsent<K>(s: EngineState<K>): seq<BusFrame> {
    s.h.lost + s.drained + s.queue + s.h.discarded
  }

  /** The frames of the session's broadcasts, followed by the unsent ones, are the accepted ones. */
  lemma BroadcastFrames<K>(s: EngineState<K>)
    requires Conserved(s) && SentBatches(s)
    ensures FramesIn(s.h.sent[s.h.sentFrom..]) + ShownAll(Unsent(s)) == ShownAll(s.h.accepted)
  {
    FramesOfBatches(s.h.sent[s.h.sentFrom..], s.h.batches, s.replay);
    Regroup(Concat(s.h.batches), s.h.lost, s.drained, s.queue, s.h.discarded);
    ShownConcat(Concat(s.h.batches), Unsent(s));
  }

  lemma Regroup<T>(a: seq<T>, b: seq<T>, c: seq<T>, d: seq<T>, e: seq<T>)
    ensures a + b + c + d + e == a + (b + c + d + e)
  {
  }

  lemma ShownConcat(a: seq<BusFrame>, b: seq<BusFrame>)
    ensures ShownAll(a + b) == ShownAll(a) + ShownAll(b)
  {
  }

  /**
   * End to end, in every reachable state: a client that was there when the session started and
   * missed nothing since it joined has got or will get, in its last batches, exactly the frames
   * broadcast so far: all those accepted but the ones lost, drained, queued or discarded.
   */
  lemma EndToEnd<K>(ops: seq<Op<K>>, k: K)
    requires k in Run(Fresh<K>(), ops).clients
    ensures NothingMissing(Run(Fresh<K>(), ops), k)
  {
    AlwaysInv(ops);
    var s := Run(Fresh<K>(), ops);
    assert Served(s.clients[k], s.h.sent);
    BroadcastFrames(s);
    NothingMissingIn(s, k);
  }

  ghost predicate NothingMissing<K>(s: EngineState<K>, k: K)
    requires k in s.clients
  {
    var c := s.clients[k];
    var got := c.delivered + c.queue;
    c.missed == 0 && c.joined <= s.h.sentFrom ==>
      && |s.h.batches| <= |got|
      && FramesIn(got[|got| - |s.h.batches|..]) + ShownAll(Unsent(s)) == ShownAll(s.h.accepted)
  }

  lemma NothingMissingIn<K>(s: EngineState<K>, k: K)
    requires k in s.clients && Served(s.clients[k], s.h.sent) && s.h.sentFrom + |s.h.batches| == |s.h.sent|
    requires FramesIn(s.h.sent[s.h.sentFrom..]) + ShownAll(Unsent(s)) == ShownAll(s.h.accepted)
    ensures NothingMissing(s, k)
  {
    var c := s.clients[k];
    if c.missed == 0 && c.joined <= s.h.sentFrom {
      GotLast(c, s.h);
    }
  }

  /* ---- the batcher can die ----------------------------------------------------------------------------- */

  /** A drain survives exactly when the wire can carry it from its first frame on. */
  lemma FlushSurvives<K>(s: EngineState<K>)
    requires s.midDrain && s.queue == [] && s.batcherAlive && s.drained != []
    ensures Flushed(s).batcherAlive <==> Encodable(s.drained, s.drained[0].tUs)
  {
    EncodesExactly(s.drained, s.drained[0].tUs, s.replay);
  }

  /** Frames in time order within 2^32 us, not more than 65535 and stamped from 0 on, always survive. */
  lemma OrderlyDrainSurvives(drained: seq<BusFrame>)
    requires drained != [] && |drained| <= MAX_COUNT && 0 <= drained[0].tUs < U64
    requires forall i, j :: 0 <= i <= j < |drained| ==> drained[i].tUs <= drained[j].tUs
    requires drained[|drained| - 1].tUs - drained[0].tUs < U32
    ensures Encodable(drained, drained[0].tUs)
  {
  }

  /** What a dead batcher leaves as it is. */
  ghost predicate Dead<K>(s: EngineState<K>, t: EngineState<K>) {
    !t.batcherAlive && t.h.sent == s.h.sent && t.h.done == s.h.done && t.h.lost == s.h.lost
  }

  lemma DeadStep<K>(s: EngineState<K>, op: Op<K>)
    requires Phased(s) && !s.batcherAlive && Enabled(s, op) && !op.Start?
    ensures Dead(s, Step(s, op))
  {
  }

  /** Once it has died, nothing is broadcast or recorded until the next start. */
  lemma {:induction false} DeadBatcher<K>(s: EngineState<K>, ops: seq<Op<K>>)
    requires Inv(s) && !s.batcherAlive && forall i :: 0 <= i < |ops| ==> !ops[i].Start?
    ensures Inv(Run(s, ops)) && Dead(s, Run(s, ops))
    decreases |ops|
  {
    if ops != [] {
      var p := Run(s, ops[..|ops| - 1]);
      DeadBatcher(s, ops[..|ops| - 1]);
      if Enabled(p, ops[|ops| - 1]) {
        StepKeeps(p, ops[|ops| - 1]);
        DeadStep(p, ops[|ops| - 1]);
      }
    }
  }

  /** A remote request of identifier 1 carrying a time. */
  function Request(tUs: int): Message {
    Message(Some(tUs), 1, 0, [], false, false, true)
  }

  /** Two frames whose times run backwards, drained together. */
  function Backwards<K>(): seq<Op<K>> {
    [Start(true), Receive(Request(5), 0), Receive(Request(3), 0), BeginDrain, DrainOne, DrainOne, Flush]
  }

  /** One more step of a run. */
  lemma RunSnoc<K>(s: EngineState<K>, ops: seq<Op<K>>, op: Op<K>)
    requires Enabled(Run(s, ops), op)
    ensures Run(s, ops + [op]) == Step(Run(s, ops), op)
  {
    assert (ops + [op])[..|ops|] == ops;
  }

  /** Two frames received in a session, and a drain of both. */
  lemma TwoDrained<K>()
    ensures var s := Run(Fresh<K>(), Backwards<K>()[..6]);
      && s.phase == Running && s.midDrain && s.queue == [] && s.h.sent == []
      && s.drained == [FrameOf(Request(5), 0).value, FrameOf(Request(3), 0).value] == s.h.accepted
  {
    var ops := Backwards<K>();
    assert Run(Fresh<K>(), ops[..0]) == Fresh<K>();
    forall i | 0 <= i < 6 ensures ops[..i + 1] == ops[..i] + [ops[i]] {
    }
    RunSnoc(Fresh<K>(), ops[..0], ops[0]);
    RunSnoc(Fresh<K>(), ops[..1], ops[1]);
    RunSnoc(Fresh<K>(), ops[..2], ops[2]);
    RunSnoc(Fresh<K>(), ops[..3], ops[3]);
    RunSnoc(Fresh<K>(), ops[..4], ops[4]);
    RunSnoc(Fresh<K>(), ops[..5], ops[5]);
  }

  /** The batcher does die: a drain whose second frame is earlier than its first ends it mid-session. */
  lemma BackwardsKills<K>()
    ensures var s := Run(Fresh<K>(), Backwards<K>());
      s.phase == Running && !s.batcherAlive && |s.h.lost| == 2 && s.h.lost == s.h.accepted && s.h.sent == []
  {
    TwoDrained<K>();
    var s := Run(Fresh<K>(), Backwards<K>()[..6]);
    assert Backwards<K>() == Backwards<K>()[..6] + [Flush];
    RunSnoc(Fresh<K>(), Backwards<K>()[..6], Flush);
    EncodesExactly(s.drained, 5, true);
    assert !Encodable(s.drained, 5);
  }
}
