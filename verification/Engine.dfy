/** The stream engine as its tasks update it, one step of a task per method. */
module Engine {
  import opened Common
  import opened Seqs
  import opened Frames
  import opened Wire
  import opened EngineStates

  /** One subscribed client's outgoing queue. */
  class Client {
    var queue: seq<Payload>
    ghost var delivered: seq<Payload>
    ghost var joined: nat
    ghost var missed: nat

    ghost function View(): ClientState
      reads this
    {
      ClientState(queue, delivered, joined, missed)
    }

    constructor (ghost sent: nat)
      ensures View() == ClientState([], [], sent, 0)
    {
      queue, delivered, joined, missed := [], [], sent, 0;
    }

    /** Queue a batch unless the queue is full. */
    method PutNowait(p: Payload) returns (ok: bool)
      modifies this
      ensures View() == Offer(old(View()), p)
      ensures ok == (|old(queue)| < CLIENT_QUEUE_MAX)
    {
      ok := |queue| < CLIENT_QUEUE_MAX;
      if ok {
        queue := queue + [p];
      } else {
        missed := missed + 1;
      }
    }
  }

  class Engine {
    var phase: Phase
    var replay: bool
    var readerAlive: bool
    var batcherAlive: bool
    var midDrain: bool
    /** The local list of the drain in progress. */
    var drained: seq<BusFrame>
    var queue: seq<BusFrame>
    var clients: set<Client>
    var dropped: nat
    var recording: Option<seq<BusFrame>>
    ghost var h: History

    ghost function Views(): map<Client, ClientState>
      reads this`clients, clients
    {
      map c | c in clients :: c.View()
    }

    ghost function State(): EngineState<Client>
      reads this, clients
    {
      EngineState(phase, replay, readerAlive, batcherAlive, midDrain, drained, queue, Views(), dropped, recording, h)
    }

    constructor ()
      ensures State() == Fresh()
    {
      phase, replay, readerAlive, batcherAlive, midDrain := Idle, false, false, false, false;
      drained, queue, clients, dropped, recording, h := [], [], {}, 0, None, EMPTY;
      new;
      assert Views() == map[];
    }

    method AddClient() returns (c: Client)
      requires phase != Stopping && !midDrain
      modifies this`clients
      ensures fresh(c) && State() == Joined(old(State()), c)
    {
      c := new Client(|h.sent|);
      ghost var s := State();
      clients := clients + {c};
      assert Views() == s.clients[c := c.View()];
    }

    method RemoveClient(c: Client)
      requires phase != Stopping && !midDrain && c in clients
      modifies this`clients, this`h
      ensures State() == Left(old(State()), c)
    {
      ghost var s := State();
      clients := clients - {c};
      h := h.(departed := h.departed + c.missed);
      assert Views() == s.clients - {c};
    }

    /** A client's writer takes the oldest batch. */
    method Take(c: Client) returns (p: Payload)
      requires phase != Stopping && !midDrain && c in clients && c.queue != []
      modifies c
      ensures p == old(c.queue[0]) && State() == Delivered(old(State()), c)
    {
      ghost var s := State();
      p := c.queue[0];
      c.queue := c.queue[1..];
      c.delivered := c.delivered + [p];
      assert Views() == s.clients[c := c.View()];
    }

    method Stop()
      requires phase == Running && !midDrain
      modifies this`phase, this`batcherAlive, this`readerAlive, this`queue, this`h
      ensures State() == Stopped(StopRequested(old(State())))
    {
      RequestStop();
      FinishStop();
    }

    /** Stop any current source, then begin streaming. */
    method Start(isReplay: bool)
      requires phase != Stopping && !midDrain
      modifies this
      ensures clients == old(clients)
      ensures var s := old(State());
              State() == Started(if s.phase == Running then Stopped(StopRequested(s)) else s, isReplay)
    {
      if phase == Running {
        Stop();
      }
      replay := isReplay;
      phase := Running;
      readerAlive, batcherAlive := true, true;
      h := h.(accepted := [], batches := [], lost := [], discarded := [], sentFrom := |h.sent|, doneFrom := |h.done|);
    }

    method RequestStop()
      requires phase == Running && !midDrain
      modifies this`phase, this`batcherAlive
      ensures State() == StopRequested(old(State()))
    {
      phase, batcherAlive := Stopping, false;
    }

    /** The reader has ended: drain the leftovers. */
    method FinishStop()
      requires phase == Stopping
      modifies this`phase, this`readerAlive, this`queue, this`h
      ensures State() == Stopped(old(State()))
    {
      h := h.(discarded := queue);
      while queue != []
        modifies this`queue
        decreases |queue|
      {
        queue := queue[1..];
      }
      phase, readerAlive := Idle, false;
    }

    /** The reader stamps and queues one message. */
    method ReadOne(m: Message, nowUs: int)
      requires phase != Idle && readerAlive
      modifies this`readerAlive, this`queue, this`dropped, this`h
      ensures State() == Received(old(State()), m, nowUs)
    {
      var tUs := if m.stampUs.Some? then m.stampUs.value else nowUs;
      var f := MakeFrame(tUs, m.arbitrationId % ID_LIMIT, m.dlc, m.data, m.isExtended, m.isError, m.isRtr);
      if f.Err? {
        readerAlive := false;
      } else if |queue| < FRAME_QUEUE_MAX {
        queue := queue + [f.value];
        h := h.(accepted := h.accepted + [f.value]);
      } else {
        dropped := dropped + 1;
        h := h.(overflows := h.overflows + 1);
      }
    }

    method BeginDrain()
      requires phase == Running && batcherAlive && !midDrain
      modifies this`midDrain
      ensures State() == Step(old(State()), Op.BeginDrain)
    {
      midDrain := true;
    }

    method DrainOne()
      requires midDrain && queue != []
      modifies this`drained, this`queue
      ensures State() == Step(old(State()), Op.DrainOne)
    {
      drained := drained + [queue[0]];
      queue := queue[1..];
    }

    /** Write the drained frames to an active recording. */
    method Record()
      modifies this`recording, this`h
      ensures recording == (if old(recording).Some? then Some(old(recording).value + drained) else None)
      ensures h == old(h).(done := old(h).done + drained)
    {
      assert recording.Some? ==> recording.value + drained[..0] == recording.value;
      for i := 0 to |drained|
        invariant recording == if old(recording).Some? then Some(old(recording).value + drained[..i]) else None
        invariant h == old(h)
      {
        if recording.Some? {
          TakeNext(drained, i);
          ghost var before := old(recording).value;
          assert before + drained[..i + 1] == before + drained[..i] + [drained[i]];
          recording := Some(recording.value + [drained[i]]);
        }
      }
      assert drained[..|drained|] == drained;
      h := h.(done := h.done + drained);
    }

    /** The drain is over: record what it took and hand it on. */
    method EndDrain() returns (frames: seq<BusFrame>)
      modifies this`midDrain, this`drained, this`recording, this`h
      ensures frames == old(drained) && State() == Recorded(old(State()))
    {
      Record();
      frames := drained;
      midDrain, drained := false, [];
    }

    /** The encoded batch goes out. */
    method Send(frames: seq<BusFrame>, p: Payload)
      modifies this`dropped, this`h, clients
      ensures clients == old(clients)
      ensures var s := EngineStates.Broadcast(old(State()), p);
              State() == s.(h := s.h.(batches := s.h.batches + [frames]))
    {
      Broadcast(p);
      h := h.(batches := h.batches + [frames]);
    }

    /** Record, encode and broadcast what was drained; an unencodable batch ends the task. */
    method Flush()
      requires midDrain && queue == []
      modifies this`batcherAlive, this`midDrain, this`drained, this`dropped, this`recording, this`h, clients
      ensures clients == old(clients) && State() == Flushed(old(State()))
    {
      if drained == [] {
        midDrain := false;
        return;
      }
      var frames := EndDrain();
      var payload := EncodeBatch(frames, frames[0].tUs, replay);
      if payload.Err? {
        batcherAlive := false;
        h := h.(lost := frames);
      } else {
        Send(frames, payload.value);
      }
    }

    method Broadcast(p: Payload)
      modifies this`dropped, this`h, clients
      ensures clients == old(clients) && State() == EngineStates.Broadcast(old(State()), p)
    {
      OfferAll(p);
      h := h.(sent := h.sent + [p]);
    }

    /** Queue the payload for every client; a full queue drops it for that client only. */
    method OfferAll(p: Payload)
      modifies this`dropped, clients
      ensures clients == old(clients) && Views() == Offered(old(Views()), p)
      ensures dropped == old(dropped) + |Full(old(Views()))|
    {
      ghost var was := Views();
      var rest := clients;
      FullOutsideNone(was);
      while rest != {}
        invariant rest <= was.Keys && PartWay(was, rest, p)
        invariant dropped == old(dropped) + FullOutside(was, rest)
        decreases rest
      {
        var c := AnyOf(rest);
        OfferOne(c, p, was, rest);
        rest := rest - {c};
      }
      ViewsAre(was, p);
      FullOutsideAll(was);
    }

    /** The clients not in `rest` have been offered the batch. */
    ghost predicate PartWay(was: map<Client, ClientState>, rest: set<Client>, p: Payload)
      reads this`clients, clients
    {
      was.Keys == clients && forall c :: c in clients ==> c.View() == if c in rest then was[c] else Offer(was[c], p)
    }

    /** Queue the payload for one client, or count the drop. */
    method OfferOne(c: Client, p: Payload, ghost was: map<Client, ClientState>, ghost rest: set<Client>)
      requires c in rest && rest <= clients && PartWay(was, rest, p)
      modifies c, this`dropped
      ensures PartWay(was, rest - {c}, p)
      ensures dropped - old(dropped) == FullOutside(was, rest - {c}) - FullOutside(was, rest)
    {
      assert c.View() == was[c];
      FullOneMore(was, rest, c);
      var ok := c.PutNowait(p);
      if !ok {
        dropped := dropped + 1;
      }
    }

    lemma ViewsAre(was: map<Client, ClientState>, p: Payload)
      requires PartWay(was, {}, p)
      ensures Views() == Offered(was, p)
    {
    }

    method RecordStart()
      requires phase != Stopping && !midDrain
      modifies this`recording, this`h
      ensures State() == Step(old(State()), Op.RecordStart)
    {
      recording := Some([]);
      h := h.(recordFrom := |h.done|);
    }

    method RecordStop() returns (file: Option<seq<BusFrame>>)
      requires phase != Stopping && !midDrain && Recording(State())
      modifies this`recording
      ensures State() == Step(old(State()), Op.RecordStop)
      ensures file.Some? ==> h.recordFrom <= |h.done| && file.value == h.done[h.recordFrom..]
    {
      file := recording;
      recording := None;
    }
  }

  /** How many clients already offered the batch had a full queue. */
  ghost function FullOutside(was: map<Client, ClientState>, rest: set<Client>): nat {
    |Full(was) - rest|
  }

  lemma FullOutsideNone(was: map<Client, ClientState>)
    ensures FullOutside(was, was.Keys) == 0
  {
    assert Full(was) - was.Keys == {};
  }

  lemma FullOutsideAll(was: map<Client, ClientState>)
    ensures FullOutside(was, {}) == |Full(was)|
  {
    assert Full(was) - {} == Full(was);
  }

  lemma FullOneMore(was: map<Client, ClientState>, rest: set<Client>, c: Client)
    requires c in rest && c in was
    ensures FullOutside(was, rest - {c})
            == FullOutside(was, rest) + (if |was[c].queue| >= CLIENT_QUEUE_MAX then 1 else 0)
  {
    assert Full(was) - (rest - {c}) == (Full(was) - rest) + (if |was[c].queue| >= CLIENT_QUEUE_MAX then {c} else {});
  }

  method AnyOf(s: set<Client>) returns (c: Client)
    requires s != {}
    ensures c in s
  {
    c :| c in s;
  }
}
