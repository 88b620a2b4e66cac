/** The storyboard executor: phases run out on their own or wait for the operator, and every one is stamped. */
module RunStates {
  import opened Seqs

  datatype Kind = Baseline | Noise | Wait | Stimulus | Observe | Recover

  /** A scenario step; an input step ignores its duration (microseconds). */
  datatype Step = Step(kind: Kind, name: string, durationUs: int, onInput: bool)

  datatype Phase = Phase(step: Step, rep: nat)

  datatype Scenario = Scenario(baseline: Step, noise: Step, wait: Step, steps: seq<Step>, count: int, recover: Step)

  datatype Window = Window(kind: Kind, startTUs: int, endTUs: int, rep: nat)

  datatype Status = Idle | Running | Done | Stopped

  datatype RunState = RunState(status: Status, index: int, startTUs: int, last: int, windows: seq<Window>)

  const IDLE: RunState := RunState(Idle, -1, 0, 0, [])

  /* ---- unrolling a scenario ------------------------------------------------------------------- */

  function Rep(steps: seq<Step>, rep: nat): (ps: seq<Phase>)
    ensures |ps| == |steps|
  {
    seq(|steps|, i requires 0 <= i < |steps| => Phase(steps[i], rep))
  }

  /** Repetitions 1 to `n` of the loop. */
  function Unrolled(steps: seq<Step>, n: nat): seq<Phase> {
    if n == 0 then [] else Unrolled(steps, n - 1) + Rep(steps, n)
  }

  function PhasesOf(s: Scenario): seq<Phase> {
    [Phase(s.baseline, 0), Phase(s.noise, 0), Phase(s.wait, 0)]
    + Unrolled(s.steps, if s.count < 0 then 0 else s.count) + [Phase(s.recover, 0)]
  }

  method ScenarioPhases(s: Scenario) returns (phases: seq<Phase>)
    ensures phases == PhasesOf(s)
  {
    phases := [Phase(s.baseline, 0), Phase(s.noise, 0), Phase(s.wait, 0)];
    ghost var head := phases;
    var r := 1;
    while r <= s.count
      invariant 1 <= r && (r <= s.count + 1 || r == 1)
      invariant phases == head + Unrolled(s.steps, r - 1)
    {
      ghost var before := phases;
      for j := 0 to |s.steps|
        invariant phases == before + Rep(s.steps, r)[..j]
      {
        TakeNext(Rep(s.steps, r), j);
        phases := phases + [Phase(s.steps[j], r)];
      }
      assert before + Rep(s.steps, r) == head + (Unrolled(s.steps, r - 1) + Rep(s.steps, r));
      r := r + 1;
    }
    phases := phases + [Phase(s.recover, 0)];
  }

  /** Step `j` of repetition `r` is where a reader expects it. */
  lemma {:induction false} UnrolledAt(steps: seq<Step>, n: nat, r: nat, j: nat, at: nat)
    requires 1 <= r <= n && j < |steps| && at == (r - 1) * |steps| + j
    ensures |Unrolled(steps, n)| == n * |steps|
    ensures at < |Unrolled(steps, n)| && Unrolled(steps, n)[at] == Phase(steps[j], r)
    decreases n
  {
    UnrolledLength(steps, n);
    UnrolledLength(steps, n - 1);
    if r < n {
      UnrolledAt(steps, n - 1, r, j, at);
    }
  }

  lemma {:induction false} UnrolledLength(steps: seq<Step>, n: nat)
    ensures |Unrolled(steps, n)| == n * |steps|
  {
    if n > 0 {
      UnrolledLength(steps, n - 1);
    }
  }

  /* ---- the executor ------------------------------------------------------------------------------ */

  /** The running phase, when there is one. */
  predicate Current(ps: seq<Phase>, s: RunState) {
    s.status == Running && 0 <= s.index < |ps|
  }

  /** A timer phase whose duration has passed. */
  predicate Due(ps: seq<Phase>, s: RunState, now: int) {
    Current(ps, s) && !ps[s.index].step.onInput && now >= s.startTUs + ps[s.index].step.durationUs
  }

  function Stamped(ps: seq<Phase>, s: RunState, endTUs: int): seq<Window>
    requires Current(ps, s)
  {
    s.windows + [Window(ps[s.index].step.kind, s.startTUs, endTUs, ps[s.index].rep)]
  }

  function Advanced(ps: seq<Phase>, s: RunState, endTUs: int): RunState
    requires Current(ps, s)
  {
    var next := s.(windows := Stamped(ps, s, endTUs), startTUs := endTUs, index := s.index + 1);
    if next.index >= |ps| then next.(status := Done, index := -1) else next
  }

  /** Advance through every phase that is due, each at its scheduled end. */
  function Settled(ps: seq<Phase>, s: RunState, now: int): RunState
    decreases if Current(ps, s) then |ps| - s.index else 0
  {
    if !Due(ps, s, now) then s else Settled(ps, Advanced(ps, s, s.startTUs + ps[s.index].step.durationUs), now)
  }

  datatype Op = Start(now: int) | Tick(now: int) | Confirm(now: int) | Stop(now: int)

  function Next(ps: seq<Phase>, s: RunState, op: Op): RunState {
    match op
    case Start(now) => RunState(Running, 0, now, now, [])
    case Tick(now) => Settled(ps, s.(last := now), now)
    case Confirm(now) =>
      var s1 := s.(last := now);
      if Current(ps, s) && ps[s.index].step.onInput then Advanced(ps, s1, now) else s1
    case Stop(now) =>
      var s1 := s.(last := now);
      if s.status != Running then s1
      else s1.(status := Stopped, index := -1, windows := if Current(ps, s) then Stamped(ps, s, now) else s.windows)
  }

  function Run(ps: seq<Phase>, s: RunState, ops: seq<Op>): RunState
    decreases |ops|
  {
    if ops == [] then s else Next(ps, Run(ps, s, ops[..|ops| - 1]), ops[|ops| - 1])
  }

  /* ---- ticking -------------------------------------------------------------------------------------- */

  /** Settling later continues where settling earlier stopped. */
  lemma {:induction false} SettleTwice(ps: seq<Phase>, s: RunState, a: int, b: int)
    requires a <= b
    ensures Settled(ps, Settled(ps, s, a), b) == Settled(ps, s, b)
    decreases if Current(ps, s) then |ps| - s.index else 0
  {
    if Due(ps, s, a) {
      SettleTwice(ps, Advanced(ps, s, s.startTUs + ps[s.index].step.durationUs), a, b);
    }
  }

  /** The clock reading is carried along. */
  lemma {:induction false} SettleLast(ps: seq<Phase>, s: RunState, now: int, last: int)
    ensures Settled(ps, s.(last := last), now) == Settled(ps, s, now).(last := last)
    decreases if Current(ps, s) then |ps| - s.index else 0
  {
    if Due(ps, s, now) {
      var e := s.startTUs + ps[s.index].step.durationUs;
      SettleLast(ps, Advanced(ps, s, e), now, last);
      assert Advanced(ps, s.(last := last), e) == Advanced(ps, s, e).(last := last);
    }
  }

  /** However often the clock is looked at in between, the state is the one of the last look. */
  lemma TickTick(ps: seq<Phase>, s: RunState, a: int, b: int)
    requires a <= b
    ensures Next(ps, Next(ps, s, Tick(a)), Tick(b)) == Next(ps, s, Tick(b))
  {
    SettleLast(ps, Settled(ps, s.(last := a), a), b, b);
    SettleLast(ps, s, a, a);
    SettleLast(ps, s, a, b);
    SettleTwice(ps, s.(last := b), a, b);
    SettleLast(ps, s.(last := b), b, b);
  }

  lemma {:induction false} ManyTicks(ps: seq<Phase>, s: RunState, ops: seq<Op>, b: int)
    requires forall i :: 0 <= i < |ops| ==> ops[i].Tick? && ops[i].now <= b
    ensures Next(ps, Run(ps, s, ops), Tick(b)) == Next(ps, s, Tick(b))
    decreases |ops|
  {
    if ops != [] {
      var n := |ops| - 1;
      var p := Run(ps, s, ops[..n]);
      ManyTicks(ps, s, ops[..n], b);
      TickTick(ps, p, ops[n].now, b);
    }
  }

  /* ---- the stamped windows ------------------------------------------------------------------------------ */

  /** Where the window after the first `n` begins. */
  function Edge(t0: int, ws: seq<Window>, n: nat): int
    requires n <= |ws|
  {
    if n == 0 then t0 else ws[n - 1].endTUs
  }

  /** Window `i` carries phase `i` and begins where its predecessor ended, the first at the start. */
  ghost predicate Carries(ps: seq<Phase>, t0: int, ws: seq<Window>, i: nat)
    requires i < |ws|
  {
    i < |ps| && ws[i].kind == ps[i].step.kind && ws[i].rep == ps[i].rep && ws[i].startTUs == Edge(t0, ws, i)
  }

  /** A phase the clock closed lasted exactly its duration; only stopping cuts a timer phase short. */
  ghost predicate Timed(ps: seq<Phase>, s: RunState, i: nat)
    requires i < |s.windows|
  {
    i < |ps| && (!ps[i].step.onInput && !(s.status == Stopped && i == |s.windows| - 1) ==>
      s.windows[i].endTUs - s.windows[i].startTUs == ps[i].step.durationUs)
  }

  ghost predicate Inv(ps: seq<Phase>, t0: int, s: RunState) {
    && (forall i :: 0 <= i < |s.windows| ==> Carries(ps, t0, s.windows, i))
    && (forall i :: 0 <= i < |s.windows| ==> Timed(ps, s, i))
    && s.status != Idle
    && (s.status == Running ==> s.index == |s.windows| < |ps| && s.startTUs == Edge(t0, s.windows, |s.windows|))
    && (s.status == Done ==> |s.windows| == |ps|)
  }

  lemma StampKeeps(ps: seq<Phase>, t0: int, s: RunState, w: Window, status: Status)
    requires Inv(ps, t0, s) && s.status == Running
    requires w.kind == ps[s.index].step.kind && w.rep == ps[s.index].rep && w.startTUs == s.startTUs
    ensures var s' := s.(status := status, windows := s.windows + [w]);
      && (forall i :: 0 <= i < |s'.windows| ==> Carries(ps, t0, s'.windows, i))
      && (forall i :: 0 <= i < |s.windows| ==> Timed(ps, s', i))
  {
    var s' := s.(status := status, windows := s.windows + [w]);
    forall i | 0 <= i < |s'.windows|
      ensures Carries(ps, t0, s'.windows, i) && (i < |s.windows| ==> Timed(ps, s', i))
    {
      if i < |s.windows| {
        assert Carries(ps, t0, s.windows, i) && Timed(ps, s, i);
      }
    }
  }

  lemma AdvanceKeeps(ps: seq<Phase>, t0: int, s: RunState, endTUs: int)
    requires Inv(ps, t0, s) && s.status == Running
    requires ps[s.index].step.onInput || endTUs == s.startTUs + ps[s.index].step.durationUs
    ensures Inv(ps, t0, Advanced(ps, s, endTUs))
  {
    var s' := Advanced(ps, s, endTUs);
    StampKeeps(ps, t0, s, Window(ps[s.index].step.kind, s.startTUs, endTUs, ps[s.index].rep), s'.status);
    forall i | 0 <= i < |s'.windows| ensures Timed(ps, s', i) {
      if i < |s.windows| {
        assert Timed(ps, s.(status := s'.status, windows := s'.windows), i);
      }
    }
  }

  lemma {:induction false} SettleKeeps(ps: seq<Phase>, t0: int, s: RunState, now: int)
    requires Inv(ps, t0, s)
    ensures Inv(ps, t0, Settled(ps, s, now))
    decreases if Current(ps, s) then |ps| - s.index else 0
  {
    if Due(ps, s, now) {
      var endTUs := s.startTUs + ps[s.index].step.durationUs;
      AdvanceKeeps(ps, t0, s, endTUs);
      SettleKeeps(ps, t0, Advanced(ps, s, endTUs), now);
    }
  }

  lemma NextKeeps(ps: seq<Phase>, t0: int, s: RunState, op: Op)
    requires Inv(ps, t0, s) && !op.Start?
    ensures Inv(ps, t0, Next(ps, s, op))
  {
    match op
    case Tick(now) =>
      LastIsFree(ps, t0, s, now);
      SettleKeeps(ps, t0, s.(last := now), now);
    case Confirm(now) =>
      LastIsFree(ps, t0, s, now);
      if s.status == Running && ps[s.index].step.onInput {
        AdvanceKeeps(ps, t0, s.(last := now), now);
      }
    case Stop(now) =>
      LastIsFree(ps, t0, s, now);
      if s.status == Running {
        var w := Window(ps[s.index].step.kind, s.startTUs, now, ps[s.index].rep);
        StampKeeps(ps, t0, s.(last := now), w, Stopped);
        var s' := Next(ps, s, op);
        forall i | 0 <= i < |s'.windows| ensures Timed(ps, s', i) {
          if i < |s.windows| {
            assert Timed(ps, s.(last := now, status := Stopped, windows := s'.windows), i);
          }
        }
      }
  }

  lemma LastIsFree(ps: seq<Phase>, t0: int, s: RunState, now: int)
    requires Inv(ps, t0, s)
    ensures Inv(ps, t0, s.(last := now))
  {
    forall i | 0 <= i < |s.windows| ensures Timed(ps, s.(last := now), i) {
      assert Timed(ps, s, i);
    }
  }

  /**
   * Over every run from a start at `t0`: the windows carry a prefix of the phase list in order (all
   * of it when done), abut without gap from `t0`, and give each phase the clock closed exactly its
   * duration.
   */
  lemma {:induction false} WindowsAlwaysAbut(ps: seq<Phase>, s: RunState, t0: int, ops: seq<Op>)
    requires ps != [] && forall i :: 0 <= i < |ops| ==> !ops[i].Start?
    ensures Inv(ps, t0, Run(ps, Next(ps, s, Start(t0)), ops))
    decreases |ops|
  {
    if ops != [] {
      var n := |ops| - 1;
      WindowsAlwaysAbut(ps, s, t0, ops[..n]);
      NextKeeps(ps, t0, Run(ps, Next(ps, s, Start(t0)), ops[..n]), ops[n]);
    }
  }

  /* ---- on a clock that does not go back --------------------------------------------------------------------- */

  ghost predicate Forward(s: RunState) {
    && (s.status == Running ==> s.startTUs <= s.last)
    && forall i :: 0 <= i < |s.windows| ==> s.windows[i].startTUs <= s.windows[i].endTUs <= s.last
  }

  lemma {:induction false} SettleForward(ps: seq<Phase>, s: RunState)
    requires Forward(s) && forall i :: 0 <= i < |ps| ==> ps[i].step.durationUs >= 0
    ensures Forward(Settled(ps, s, s.last)) && Settled(ps, s, s.last).last == s.last
    decreases if Current(ps, s) then |ps| - s.index else 0
  {
    if Due(ps, s, s.last) {
      SettleForward(ps, Advanced(ps, s, s.startTUs + ps[s.index].step.durationUs));
    }
  }

  /** With nonnegative durations and a clock that does not go back, no window ends before it begins
      or after the present. */
  lemma {:induction false} AlwaysForward(ps: seq<Phase>, s: RunState, t0: int, ops: seq<Op>)
    requires forall i :: 0 <= i < |ps| ==> ps[i].step.durationUs >= 0
    requires forall i :: 0 <= i < |ops| ==> !ops[i].Start? && t0 <= ops[i].now
    requires forall i, j :: 0 <= i <= j < |ops| ==> ops[i].now <= ops[j].now
    ensures var r := Run(ps, Next(ps, s, Start(t0)), ops);
            Forward(r) && r.last == if ops == [] then t0 else ops[|ops| - 1].now
    decreases |ops|
  {
    if ops != [] {
      var n := |ops| - 1;
      AlwaysForward(ps, s, t0, ops[..n]);
      var p := Run(ps, Next(ps, s, Start(t0)), ops[..n]);
      assert p.last <= ops[n].now;
      if ops[n].Tick? {
        SettleForward(ps, p.(last := ops[n].now));
      }
    }
  }
}

/** What each operation of the executor does, told by the phase it finds running. */
module RunLaws {
  import opened RunStates

  /** How often the loop of a scenario is gone through: a negative count counts as none. */
  function Rounds(s: Scenario): nat {
    if s.count > 0 then s.count else 0
  }

  /** A scenario opens with its baseline, noise and wait steps, goes through its loop as often as it says,
      and closes with the recovery; only the steps of the loop carry a repetition number. */
  lemma PhasesInOrder(s: Scenario, r: nat, j: nat, at: nat)
    requires 1 <= r <= Rounds(s) && j < |s.steps| && at == (r - 1) * |s.steps| + j
    ensures var ps := PhasesOf(s);
      |ps| == 4 + Rounds(s) * |s.steps| && 3 + at < |ps| - 1 && ps[3 + at] == Phase(s.steps[j], r)
  {
    UnrolledAt(s.steps, Rounds(s), r, j, at);
  }

  lemma PhasesAround(s: Scenario)
    ensures var ps := PhasesOf(s);
      && |ps| == 4 + Rounds(s) * |s.steps|
      && ps[0] == Phase(s.baseline, 0) && ps[1] == Phase(s.noise, 0) && ps[2] == Phase(s.wait, 0)
      && ps[|ps| - 1] == Phase(s.recover, 0)
  {
    UnrolledLength(s.steps, Rounds(s));
  }

  /** Phase `ps[s.index]` is running. */
  predicate AtPhase(ps: seq<Phase>, s: RunState) {
    s.status == Running && 0 <= s.index < |ps|
  }

  /** A start begins with the first phase, at its own time and with nothing stamped. */
  lemma StartBegins(ps: seq<Phase>, s: RunState, now: int)
    ensures var s' := Next(ps, s, Start(now));
      s'.status == Running && s'.index == 0 && s'.startTUs == now && s'.last == now && s'.windows == []
  {
  }

  /** The running phase is stamped from its start to `end`, and the next one starts there; after the
      last one the run is done. */
  ghost predicate Closes(ps: seq<Phase>, s: RunState, end: int, s': RunState)
    requires AtPhase(ps, s)
  {
    && s'.windows == s.windows + [Window(ps[s.index].step.kind, s.startTUs, end, ps[s.index].rep)]
    && s'.startTUs == end
    && (if s.index + 1 < |ps| then s'.status == Running && s'.index == s.index + 1
        else s'.status == Done && s'.index == -1)
  }

  /** A confirmation ends an input phase at the moment it comes, and is noted without effect otherwise. */
  lemma ConfirmEnds(ps: seq<Phase>, s: RunState, now: int)
    ensures var s' := Next(ps, s, Confirm(now));
      && s'.last == now
      && (AtPhase(ps, s) && ps[s.index].step.onInput ==> Closes(ps, s, now, s'))
      && (!(AtPhase(ps, s) && ps[s.index].step.onInput) ==> s' == s.(last := now))
  {
  }

  /** A stop stamps the part of the running phase that has passed. */
  lemma StopStamps(ps: seq<Phase>, s: RunState, now: int)
    ensures var s' := Next(ps, s, Stop(now));
      && s'.last == now
      && (s.status != Running ==> s' == s.(last := now))
      && (s.status == Running ==> s'.status == Stopped && s'.index == -1)
      && (AtPhase(ps, s) ==>
            s'.windows == s.windows + [Window(ps[s.index].step.kind, s.startTUs, now, ps[s.index].rep)])
  {
  }

  /** The duration of the running phase has passed, and nobody has to confirm it. */
  predicate RunsOut(ps: seq<Phase>, s: RunState, now: int)
    requires AtPhase(ps, s)
  {
    !ps[s.index].step.onInput && s.startTUs + ps[s.index].step.durationUs <= now
  }

  /**
   * A tick closes phases one after another, each at the end of its duration, as long as one has run
   * out; afterwards none has.
   */
  lemma {:induction false} TickSettles(ps: seq<Phase>, s: RunState, now: int)
    ensures var s' := Next(ps, s, Tick(now));
      && s'.last == now && s.windows <= s'.windows
      && (AtPhase(ps, s') ==> !RunsOut(ps, s', now))
      && (!(AtPhase(ps, s) && RunsOut(ps, s, now)) ==> s' == s.(last := now))
      && (AtPhase(ps, s) && RunsOut(ps, s, now) ==>
            exists s1 :: Closes(ps, s, s.startTUs + ps[s.index].step.durationUs, s1)
                         && s1.last == now && s' == Next(ps, s1, Tick(now)))
  {
    SettleRunsOut(ps, s.(last := now), now);
    if AtPhase(ps, s) && RunsOut(ps, s, now) {
      var end := s.startTUs + ps[s.index].step.durationUs;
      var s1 := Advanced(ps, s.(last := now), end);
      assert s1.(last := now) == s1;
      assert Closes(ps, s, end, s1) && Next(ps, s, Tick(now)) == Next(ps, s1, Tick(now));
    }
  }

  lemma {:induction false} SettleRunsOut(ps: seq<Phase>, s: RunState, now: int)
    ensures var s' := Settled(ps, s, now);
      s'.last == s.last && s.windows <= s'.windows && (AtPhase(ps, s') ==> !RunsOut(ps, s', now))
    decreases if Current(ps, s) then |ps| - s.index else 0
  {
    if Due(ps, s, now) {
      SettleRunsOut(ps, Advanced(ps, s, s.startTUs + ps[s.index].step.durationUs), now);
    }
  }
}

module RunEngines {
  import opened RunStates

  class RunEngine {
    const phases: seq<Phase>
    var status: Status
    var phaseIndex: int
    var phaseStartTUs: int
    var nowTUsLast: int
    var windows: seq<Window>

    function View(): RunState
      reads this
    {
      RunState(status, phaseIndex, phaseStartTUs, nowTUsLast, windows)
    }

    predicate Valid()
      reads this
    {
      status == Running ==> phaseIndex >= 0
    }

    constructor (scenario: Scenario)
      ensures Valid() && View() == IDLE && phases == PhasesOf(scenario) && phases != []
    {
      var ps := ScenarioPhases(scenario);
      phases := ps;
      status, phaseIndex, phaseStartTUs, nowTUsLast, windows := Idle, -1, 0, 0, [];
    }

    method Stamp(endTUs: int)
      requires Current(phases, View())
      modifies this`windows
      ensures windows == Stamped(phases, old(View()), endTUs)
    {
      var p := phases[phaseIndex];
      windows := windows + [Window(p.step.kind, phaseStartTUs, endTUs, p.rep)];
    }

    method Advance(endTUs: int)
      requires Current(phases, View())
      modifies this
      ensures View() == Advanced(phases, old(View()), endTUs) && Valid()
    {
      Stamp(endTUs);
      phaseIndex := phaseIndex + 1;
      phaseStartTUs := endTUs;
      if phaseIndex >= |phases| {
        status := Done;
        phaseIndex := -1;
      }
    }

    method Start(nowTUs: int)
      modifies this
      ensures View() == Next(phases, old(View()), Op.Start(nowTUs)) && Valid()
    {
      windows := [];
      status := Running;
      phaseIndex := 0;
      phaseStartTUs := nowTUs;
      nowTUsLast := nowTUs;
    }

    /** The loop guard never cuts a due advance short: the result is the unguarded one. */
    method Tick(nowTUs: int)
      requires Valid()
      modifies this
      ensures View() == Next(phases, old(View()), Op.Tick(nowTUs)) && Valid()
    {
      nowTUsLast := nowTUs;
      if status != Running {
        return;
      }
      var guard := |phases| + 1;
      while status == Running && guard > 0
        invariant Valid()
        invariant Settled(phases, View(), nowTUs) == Next(phases, old(View()), Op.Tick(nowTUs))
        invariant status == Running && phaseIndex < |phases| ==> guard > |phases| - phaseIndex
        decreases guard
      {
        guard := guard - 1;
        if phaseIndex >= |phases| || phases[phaseIndex].step.onInput {
          break;
        }
        var endTUs := phaseStartTUs + phases[phaseIndex].step.durationUs;
        if nowTUs < endTUs {
          break;
        }
        Advance(endTUs);
      }
    }

    method Confirm(nowTUs: int)
      requires Valid()
      modifies this
      ensures View() == Next(phases, old(View()), Op.Confirm(nowTUs)) && Valid()
    {
      nowTUsLast := nowTUs;
      if status == Running && phaseIndex < |phases| && phases[phaseIndex].step.onInput {
        Advance(nowTUs);
      }
    }

    method Stop(nowTUs: int)
      requires Valid()
      modifies this
      ensures View() == Next(phases, old(View()), Op.Stop(nowTUs)) && Valid()
    {
      nowTUsLast := nowTUs;
      if status == Running {
        if phaseIndex < |phases| {
          Stamp(nowTUs);
        }
        status := Stopped;
        phaseIndex := -1;
      }
    }
  }
}
