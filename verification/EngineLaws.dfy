/** What becomes of a message, from the adapter to a client's decoder, and what each step of the pipeline does. */
module EngineLaws {
  import opened Common
  import opened Frames
  import opened Wire
  import opened EngineStates

  /* ---- the reader ------------------------------------------------------------------------- */

  /** When the message happened: its own time, or that of its arrival when it carries none. */
  function HappenedAt(m: Message, nowUs: int): int {
    match m.stampUs
    case Some(t) => t
    case None => nowUs
  }

  /** The frame says what the message says. */
  predicate Tells(f: BusFrame, m: Message, nowUs: int) {
    && f.tUs == HappenedAt(m, nowUs) && f.canId == m.arbitrationId % 0x2000_0000
    && f.dlc == m.dlc && f.data == m.data
    && f.isExtended == m.isExtended && f.isError == m.isError && f.isRtr == m.isRtr
  }

  /** Classic CAN: a length code of at most eight, and at most eight bytes. */
  predicate Buildable(m: Message) {
    0 <= m.dlc <= 8 && |m.data| <= 8
  }

  /** A message becomes one frame at the end of the queue, while there is room for 100000; else it is
      counted as dropped.  One that is no classic CAN frame ends the reader. */
  lemma ReaderTakes<K>(s: EngineState<K>, m: Message, nowUs: int) returns (f: BusFrame)
    ensures var s' := Received(s, m, nowUs);
      && s' == s.(readerAlive := s'.readerAlive, queue := s'.queue, dropped := s'.dropped, h := s'.h)
      && (Buildable(m) && |s.queue| < 100000 ==>
            Tells(f, m, nowUs) && s'.queue == s.queue + [f] && s'.h.accepted == s.h.accepted + [f]
            && s'.dropped == s.dropped && s'.readerAlive == s.readerAlive)
      && (Buildable(m) && |s.queue| >= 100000 ==>
            s'.queue == s.queue && s'.h.accepted == s.h.accepted
            && s'.dropped == s.dropped + 1 && s'.readerAlive == s.readerAlive)
      && (!Buildable(m) ==>
            s'.queue == s.queue && s'.h.accepted == s.h.accepted && s'.dropped == s.dropped && !s'.readerAlive)
  {
    var r := FrameOf(m, nowUs);
    if r.Ok? {
      f := r.value;
    } else {
      f := BusFrame(0, 0, 0, [], false, false, false);
    }
  }

  /** Frame `i` tells the message received by step `ks[i]`. */
  ghost predicate TellReceived<K>(accepted: seq<BusFrame>, ops: seq<Op<K>>, ks: seq<nat>) {
    && |ks| == |accepted|
    && (forall i :: 0 <= i < |ks| ==> TellsStep(accepted[i], ops, ks[i]))
    && (forall i, j :: 0 <= i < j < |ks| ==> ks[i] < ks[j])
  }

  ghost predicate TellsStep<K>(f: BusFrame, ops: seq<Op<K>>, k: nat) {
    k < |ops| && ops[k].Receive? && Tells(f, ops[k].m, ops[k].nowUs)
  }

  /** Over every run, the frames accepted in a session tell messages received, in their order. */
  lemma {:induction false} AcceptedTell<K>(ops: seq<Op<K>>) returns (ks: seq<nat>)
    ensures TellReceived(Run(Fresh<K>(), ops).h.accepted, ops, ks)
    decreases |ops|
  {
    ks := [];
    if ops != [] {
      var n := |ops| - 1;
      var p := Run(Fresh<K>(), ops[..n]);
      var init := AcceptedTell(ops[..n]);
      TellOneLonger(p.h.accepted, ops, init);
      if Enabled(p, ops[n]) {
        if ops[n].Receive? {
          var f := ReaderTakes(p, ops[n].m, ops[n].nowUs);
          ks := if Received(p, ops[n].m, ops[n].nowUs).h.accepted == p.h.accepted then init else init + [n];
        } else if !ops[n].Start? {
          OthersAccept(p, ops[n]);
          ks := init;
        }
      } else {
        ks := init;
      }
    }
  }

  lemma OthersAccept<K>(s: EngineState<K>, op: Op<K>)
    requires Enabled(s, op) && !op.Receive? && !op.Start?
    ensures Step(s, op).h.accepted == s.h.accepted
  {
  }

  lemma TellOneLonger<K>(accepted: seq<BusFrame>, ops: seq<Op<K>>, ks: seq<nat>)
    requires ops != [] && TellReceived(accepted, ops[..|ops| - 1], ks)
    ensures TellReceived(accepted, ops, ks) && forall i :: 0 <= i < |ks| ==> ks[i] < |ops| - 1
  {
    forall i | 0 <= i < |ks| ensures TellsStep(accepted[i], ops, ks[i]) && ks[i] < |ops| - 1 {
      assert TellsStep(accepted[i], ops[..|ops| - 1], ks[i]);
    }
  }

  /* ---- to the client ------------------------------------------------------------------------ */

  /** The decoded frame shows the message: as many payload bytes as its length code says, zeros for
      those it did not carry. */
  predicate Shows(f: Frame, m: Message, nowUs: int) {
    && f.tUs == HappenedAt(m, nowUs) && f.id == m.arbitrationId % 0x2000_0000
    && f.isExtended == m.isExtended && f.isError == m.isError && f.isRtr == m.isRtr
    && f.dlc == m.dlc && |f.data| == m.dlc
    && forall b :: 0 <= b < |f.data| ==> f.data[b] == if b < |m.data| then m.data[b] else 0
  }

  lemma ShownTells(f: BusFrame, m: Message, nowUs: int)
    requires Tells(f, m, nowUs)
    ensures Shows(Shown(f), m, nowUs)
  {
    assert (m.arbitrationId % 0x2000_0000) % 0x2000_0000 == m.arbitrationId % 0x2000_0000;
  }

  ghost predicate ShowsStep<K>(f: Frame, ops: seq<Op<K>>, k: nat) {
    k < |ops| && ops[k].Receive? && Shows(f, ops[k].m, ops[k].nowUs)
  }

  /** The payloads of this session that a client has got or will get. */
  function SessionPayloads<K>(s: EngineState<K>, k: K): seq<Payload>
    requires k in s.clients
  {
    var c := s.clients[k];
    var got := c.delivered + c.queue;
    if |s.h.batches| <= |got| then got[|got| - |s.h.batches|..] else got
  }

  /**
   * From the adapter to the client, over every run: a client that was there when the session started
   * and missed nothing decodes, frame by frame and in order, messages the reader received.
   */
  lemma ClientReadsMessages<K>(ops: seq<Op<K>>, k: K) returns (ks: seq<nat>)
    requires k in Run(Fresh<K>(), ops).clients
    requires var s := Run(Fresh<K>(), ops); s.clients[k].missed == 0 && s.clients[k].joined <= s.h.sentFrom
    ensures var read := FramesIn(SessionPayloads(Run(Fresh<K>(), ops), k));
      && |read| <= |ks|
      && (forall i :: 0 <= i < |read| ==> ShowsStep(read[i], ops, ks[i]))
      && (forall i, j :: 0 <= i < j < |ks| ==> ks[i] < ks[j])
  {
    var s := Run(Fresh<K>(), ops);
    EndToEnd(ops, k);
    ks := AcceptedTell(ops);
    var read, rest := FramesIn(SessionPayloads(s, k)), ShownAll(Unsent(s));
    assert read + rest == ShownAll(s.h.accepted);
    ReadShows(read, rest, s.h.accepted, ops, ks);
  }

  lemma ReadShows<K>(read: seq<Frame>, rest: seq<Frame>, accepted: seq<BusFrame>, ops: seq<Op<K>>, ks: seq<nat>)
    requires read + rest == ShownAll(accepted) && TellReceived(accepted, ops, ks)
    ensures |read| <= |ks| && forall i :: 0 <= i < |read| ==> ShowsStep(read[i], ops, ks[i])
  {
    forall i | 0 <= i < |read| ensures ShowsStep(read[i], ops, ks[i]) {
      assert (read + rest)[i] == read[i];
      assert TellsStep(accepted[i], ops, ks[i]);
      ShownTells(accepted[i], ops[ks[i]].m, ops[ks[i]].nowUs);
    }
  }

  /* ---- what each step does -------------------------------------------------------------------- */

  /** A broadcast reaches every client that waits with fewer than 64 batches, and every other misses it. */
  lemma BroadcastReaches<K>(s: EngineState<K>, p: Payload)
    ensures var s' := Broadcast(s, p);
      && s'.clients.Keys == s.clients.Keys && s'.h.sent == s.h.sent + [p]
      && s'.dropped == s.dropped + |set k | k in s.clients && |s.clients[k].queue| >= 64|
      && forall k :: k in s.clients ==> Reached(s.clients[k], s'.clients[k], p)
  {
    assert Full(s.clients) == (set k | k in s.clients && |s.clients[k].queue| >= 64);
  }

  predicate Reached(c: ClientState, c': ClientState, p: Payload) {
    && c'.delivered == c.delivered && c'.joined == c.joined
    && (|c.queue| < 64 ==> c'.queue == c.queue + [p] && c'.missed == c.missed)
    && (|c.queue| >= 64 ==> c'.queue == c.queue && c'.missed == c.missed + 1)
  }

  /** A session begins with its flag and both tasks alive; a requested stop ends the batcher at once and
      the reader at last. */
  lemma SessionSteps<K>(s: EngineState<K>, replay: bool)
    ensures var s' := Started(s, replay);
      s'.phase == Running && s'.replay == replay && s'.readerAlive && s'.batcherAlive
    ensures var s' := StopRequested(s); s'.phase == Stopping && !s'.batcherAlive && s'.readerAlive == s.readerAlive
    ensures var s' := Stopped(s); s'.phase == Idle && !s'.readerAlive && s'.queue == [] && s'.h.discarded == s.queue
  {
  }

  /** Every drain ends: what was drained is in the session's batches or lost, and nothing is under way. */
  lemma FlushSettles<K>(s: EngineState<K>)
    ensures var s' := Flushed(s);
      && s'.drained == [] && !s'.midDrain && s'.queue == s.queue
      && (s.drained != [] ==>
            || (s'.h.batches == s.h.batches + [s.drained] && s'.h.lost == s.h.lost && s'.batcherAlive == s.batcherAlive)
            || (s'.h.batches == s.h.batches && s'.h.lost == s.drained && !s'.batcherAlive))
  {
    if s.drained != [] {
      var p := EncodeBatch(s.drained, s.drained[0].tUs, s.replay);
      if p.Ok? {
        SentSettles(s, p.value);
      }
    }
  }

  lemma SentSettles<K>(s: EngineState<K>, p: Payload)
    ensures var s' := Sent(s, p);
      && s'.drained == [] && !s'.midDrain && s'.queue == s.queue && s'.h.batches == s.h.batches + [s.drained]
      && s'.h.lost == s.h.lost && s'.batcherAlive == s.batcherAlive
  {
  }

  /** In every state that keeps the invariants some step of each task can happen: nothing waits for ever. */
  lemma NothingIsStuck<K>(s: EngineState<K>, m: Message, nowUs: int, k: K)
    requires Inv(s)
    ensures s.phase == Idle ==> Enabled(s, Start(false)) && Enabled(s, Start(true))
    ensures s.phase != Idle && s.readerAlive ==> Enabled(s, Receive(m, nowUs))
    ensures s.midDrain ==> Enabled(s, if s.queue == [] then Flush else DrainOne)
    ensures s.phase == Running && !s.midDrain ==> Enabled(s, RequestStop) && (s.batcherAlive ==> Enabled(s, BeginDrain))
    ensures s.phase == Stopping ==> Enabled(s, FinishStop)
    ensures s.phase != Stopping && !s.midDrain ==>
              && Enabled(s, RecordStart) && Enabled(s, RecordStop)
              && Enabled(s, if k in s.clients then Leave(k) else Join(k))
              && (k in s.clients && s.clients[k].queue != [] ==> Enabled(s, Deliver(k)))
  {
  }
}
