/** The per-trial feedback loop: a pure reducer that decides, and a host that owns its timers and ledger. */
module WizardFsm {
  datatype Phase = Idle | Cueing | Feedback | RetryPrompt | Done | Abandoned

  datatype Event = Start | CueDone | Success | Fail | FeedbackTimeout | RetryTimeout | Abandon | Skip

  datatype Outcome = Good | Failed | Skipped

  datatype Effect =
    | PlayCue | StartFeedback | StartRetry
    | RecordTrial(outcome: Outcome)
    | Advance | ReplayCurrent | AbandonSeries | Finish

  datatype Config = Config(repetitions: int, silenceGuard: int)

  datatype State = State(phase: Phase, repIndex: nat, good: nat, silence: nat)

  datatype StepResult = StepResult(state: State, effects: seq<Effect>)

  const INITIAL: State := State(Idle, 0, 0, 0)

  function Step(s: State, e: Event, c: Config): StepResult {
    match s.phase
    case Idle =>
      if e != Start then Noop(s)
      else if c.repetitions <= 0 then StepResult(s.(phase := Done), [Finish])
      else StepResult(s.(phase := Cueing), [PlayCue])
    case Cueing =>
      if e == CueDone then StepResult(s.(phase := Feedback), [StartFeedback])
      else if e == Abandon then GiveUp(s)
      else Noop(s)
    case Feedback => (
      match e
      case Success => AdvanceAfterGood(s, c)
      case Fail => ReplaySameTest(s, [RecordTrial(Failed)])
      case FeedbackTimeout => StepResult(s.(phase := RetryPrompt), [StartRetry])
      case Abandon => GiveUp(s)
      case _ => Noop(s))
    case RetryPrompt => (
      match e
      case Abandon => GiveUp(s)
      case Skip => AdvanceAfterSkip(s)
      case RetryTimeout =>
        var silence := s.silence + 1;
        if silence >= c.silenceGuard then StepResult(s.(phase := Abandoned, silence := silence), [AbandonSeries])
        else StepResult(s.(phase := Cueing, silence := silence), [ReplayCurrent, PlayCue])
      case _ => Noop(s))
    case Done => Noop(s)
    case Abandoned => Noop(s)
  }

  function Noop(s: State): StepResult {
    StepResult(s, [])
  }

  function GiveUp(s: State): StepResult {
    StepResult(s.(phase := Abandoned, silence := 0), [AbandonSeries])
  }

  function AdvanceAfterGood(s: State, c: Config): StepResult {
    var good := s.good + 1;
    if good >= c.repetitions then
      StepResult(s.(phase := Done, good := good, silence := 0), [RecordTrial(Good), Finish])
    else
      StepResult(s.(phase := Cueing, good := good, repIndex := s.repIndex + 1, silence := 0),
                 [RecordTrial(Good), Advance, PlayCue])
  }

  function AdvanceAfterSkip(s: State): StepResult {
    StepResult(s.(phase := Cueing, repIndex := s.repIndex + 1, silence := 0), [RecordTrial(Skipped), Advance, PlayCue])
  }

  function ReplaySameTest(s: State, prefix: seq<Effect>): StepResult {
    StepResult(s.(phase := Cueing, silence := 0), prefix + [ReplayCurrent, PlayCue])
  }

  predicate Terminal(p: Phase) {
    p == Done || p == Abandoned
  }

  /** A started series that has not ended. */
  predicate Live(p: Phase) {
    p == Cueing || p == Feedback || p == RetryPrompt
  }

  function Run(s: State, events: seq<Event>, c: Config): State
    decreases |events|
  {
    if events == [] then s else Step(Run(s, events[..|events| - 1], c), events[|events| - 1], c).state
  }

  /** With positive targets: a live series is short of both of them, `done` means the target was met
      exactly, and an abandoned one has a silence at the guard or none. */
  ghost predicate InBounds(s: State, c: Config) {
    && (s.phase == Idle ==> s == INITIAL)
    && (Live(s.phase) ==> s.good < c.repetitions && s.silence < c.silenceGuard)
    && (s.phase == Done ==> s.good == c.repetitions && s.silence == 0)
    && (s.phase == Abandoned ==> s.good < c.repetitions && s.silence in {0, c.silenceGuard})
    && s.good <= s.repIndex + (if s.phase == Done then 1 else 0)
  }

  lemma {:induction false} AlwaysInBounds(events: seq<Event>, c: Config)
    requires c.repetitions > 0 && c.silenceGuard > 0
    ensures InBounds(Run(INITIAL, events, c), c)
    decreases |events|
  {
    if events != [] {
      AlwaysInBounds(events[..|events| - 1], c);
    }
  }

  /** Once ended, nothing happens any more; before that, `abandon` ends a started series for good. */
  lemma {:induction false} EndsForGood(s: State, events: seq<Event>, c: Config)
    ensures Terminal(s.phase) ==> Run(s, events, c) == s
    ensures Live(s.phase) ==> Run(s, [Abandon] + events, c) == s.(phase := Abandoned, silence := 0)
    decreases |events|
  {
    var all := [Abandon] + events;
    if events == [] {
      assert all[..0] == [];
    } else {
      EndsForGood(s, events[..|events| - 1], c);
      assert all[..|all| - 1] == [Abandon] + events[..|events| - 1];
    }
  }
}

module WizardStates {
  import opened Common
  import opened WizardFsm

  datatype Trial = Trial(repIndex: nat, outcome: Outcome)

  datatype Reason = Guard | Explicit

  /** The host: reducer state, ledger, and which timers are armed for which event. */
  datatype HostState = HostState(
    fsm: State, config: Config, ledger: seq<Trial>, reason: Option<Reason>, active: bool,
    timer: Option<Event>, cueWatchdog: bool)

  function Fresh(c: Config): HostState {
    HostState(INITIAL, c, [], None, false, None, false)
  }

  function Applied(h: HostState, e: Effect): HostState {
    match e
    case PlayCue => h.(cueWatchdog := true)
    case StartFeedback => h.(timer := Some(FeedbackTimeout))
    case StartRetry => h.(timer := Some(RetryTimeout))
    case RecordTrial(outcome) => h.(ledger := h.ledger + [Trial(h.fsm.repIndex, outcome)])
    case _ => h
  }

  function AppliedAll(h: HostState, es: seq<Effect>): HostState
    decreases |es|
  {
    if es == [] then h else AppliedAll(Applied(h, es[0]), es[1..])
  }

  /** Every event but the two timeouts and the end of the cue cancels the generic timer, even a
      press the reducer ignores. */
  predicate Cancels(e: Event) {
    e != FeedbackTimeout && e != RetryTimeout && e != CueDone
  }

  function Concluded(h: HostState): HostState {
    var reason := if h.fsm.phase != Abandoned then h.reason
                  else if h.fsm.silence >= h.config.silenceGuard then Some(Guard) else Some(Explicit);
    if Terminal(h.fsm.phase) then h.(reason := reason, timer := None, cueWatchdog := false) else h
  }

  function Dispatched(h: HostState, e: Event): HostState {
    var r := Step(h.fsm, e, h.config);
    var h1 := h.(fsm := r.state, timer := if Cancels(e) then None else h.timer);
    Concluded(AppliedAll(h1, r.effects))
  }

  function Begun(h: HostState, config: Option<Config>): HostState {
    var c := if config.Some? then config.value else h.config;
    Dispatched(HostState(INITIAL, c, [], None, true, None, false), Start)
  }

  datatype Op =
    | Begin(config: Option<Config>)
    | Press(e: Event)
    | Reset
    | FireTimer
    | FireCue

  predicate Enabled(h: HostState, op: Op) {
    match op
    case Press(e) => e in {Success, Fail, Abandon, Skip}
    case FireTimer => h.timer.Some?
    case FireCue => h.cueWatchdog
    case _ => true
  }

  function HostStep(h: HostState, op: Op): HostState
    requires Enabled(h, op)
  {
    match op
    case Begin(config) => Begun(h, config)
    case Press(e) => Dispatched(h, e)
    case Reset => Fresh(h.config)
    case FireTimer => Dispatched(h.(timer := None), h.timer.value)
    case FireCue => Dispatched(h.(cueWatchdog := false), CueDone)
  }

  /** A run of operator actions and firings; a firing without its timer does not happen. */
  function HostRun(h: HostState, ops: seq<Op>): HostState
    decreases |ops|
  {
    if ops == [] then h
    else
      var p := HostRun(h, ops[..|ops| - 1]);
      if Enabled(p, ops[|ops| - 1]) then HostStep(p, ops[|ops| - 1]) else p
  }

  function Count(ledger: seq<Trial>, outcome: Outcome): nat {
    if ledger == [] then 0
    else Count(ledger[..|ledger| - 1], outcome) + (if ledger[|ledger| - 1].outcome == outcome then 1 else 0)
  }

  lemma CountSnoc(ledger: seq<Trial>, t: Trial, outcome: Outcome)
    ensures Count(ledger + [t], outcome) == Count(ledger, outcome) + (if t.outcome == outcome then 1 else 0)
  {
    assert (ledger + [t])[..|ledger|] == ledger;
  }

  /** The cue watchdog runs exactly while cueing; the generic timer only where its event is awaited. */
  ghost predicate TimersFit(h: HostState) {
    && (h.cueWatchdog <==> h.fsm.phase == Cueing)
    && (h.timer.Some? ==> Awaits(h.fsm.phase, h.timer.value))
  }

  ghost predicate Awaits(p: Phase, e: Event) {
    (p == Feedback && e == FeedbackTimeout) || (p == RetryPrompt && e == RetryTimeout)
  }

  /** The ledger counts what the reducer counts: good trials, and tests left behind. */
  ghost predicate LedgerFits(h: HostState) {
    && (Live(h.fsm.phase) ==> h.config.repetitions > 0)
    && Count(h.ledger, Good) == h.fsm.good
    && (h.fsm.phase == Idle ==> h.fsm == INITIAL && h.ledger == [])
    && Count(h.ledger, Good) + Count(h.ledger, Skipped)
       == h.fsm.repIndex + (if h.fsm.phase == Done && h.config.repetitions > 0 then 1 else 0)
  }

  ghost predicate BoundsFit(h: HostState) {
    h.config.repetitions > 0 && h.config.silenceGuard > 0 ==>
      && InBounds(h.fsm, h.config)
      && (h.fsm.phase == Abandoned ==>
            h.reason == Some(if h.fsm.silence == h.config.silenceGuard then Guard else Explicit))
      && (h.fsm.phase != Abandoned ==> h.reason == None)
  }

  ghost predicate Inv(h: HostState) {
    TimersFit(h) && LedgerFits(h) && BoundsFit(h)
  }

  lemma EffectsUnfold(h: HostState, es: seq<Effect>)
    requires |es| <= 3
    ensures AppliedAll(h, es) ==
      if |es| == 0 then h
      else if |es| == 1 then Applied(h, es[0])
      else if |es| == 2 then Applied(Applied(h, es[0]), es[1])
      else Applied(Applied(Applied(h, es[0]), es[1]), es[2])
  {
    if |es| > 1 {
      var h1, t := Applied(h, es[0]), es[1..];
      assert AppliedAll(h, es) == AppliedAll(h1, t) == AppliedAll(Applied(h1, t[0]), t[1..]);
      if |es| > 2 {
        var h2, u := Applied(h1, t[0]), t[1..];
        assert u[0] == es[2] && u[1..] == [];
        assert AppliedAll(h2, u) == AppliedAll(Applied(h2, u[0]), []);
      } else {
        assert t[1..] == [];
      }
    }
  }

  /** Effects act on the timers and the ledger only. */
  lemma EffectsTouch(h: HostState, es: seq<Effect>)
    ensures var h' := AppliedAll(h, es);
            h'.fsm == h.fsm && h'.config == h.config && h'.reason == h.reason && h'.active == h.active
    decreases |es|
  {
    if es != [] {
      EffectsTouch(Applied(h, es[0]), es[1..]);
    }
  }

  /** An event the host can dispatch: a start from idle, a press, or a timer that has just elapsed. */
  ghost predicate Arrives(h: HostState, e: Event) {
    && (h.fsm.phase == Idle ==> e == Start && h.ledger == [] && h.reason == None)
    && (e == CueDone ==> h.fsm.phase == Cueing)
    && (h.cueWatchdog <==> h.fsm.phase == Cueing && e != CueDone)
    && (h.timer.Some? ==> Awaits(h.fsm.phase, h.timer.value) && Cancels(e))
  }

  /** The generic timer and the cue watchdog after an event: armed by an effect, cancelled, or as before. */
  lemma DispatchArms(h: HostState, e: Event)
    ensures var r := Step(h.fsm, e, h.config);
      && Dispatched(h, e).fsm == r.state
      && Dispatched(h, e).timer ==
         (if Terminal(r.state.phase) then None
          else if r.effects == [StartFeedback] then Some(FeedbackTimeout)
          else if r.effects == [StartRetry] then Some(RetryTimeout)
          else if Cancels(e) then None else h.timer)
      && (Dispatched(h, e).cueWatchdog <==>
            !Terminal(r.state.phase) && (h.cueWatchdog || (r.effects != [] && r.effects[|r.effects| - 1] == PlayCue)))
  {
    var r := Step(h.fsm, e, h.config);
    var h1 := h.(fsm := r.state, timer := if Cancels(e) then None else h.timer);
    EffectsUnfold(h1, r.effects);
    EffectsTouch(h1, r.effects);
  }

  lemma DispatchTimers(h: HostState, e: Event)
    requires Arrives(h, e)
    ensures TimersFit(Dispatched(h, e))
  {
    DispatchArms(h, e);
  }

  /** The trial an event records, if any. */
  function Recorded(h: HostState, e: Event): Option<Trial> {
    var r := Step(h.fsm, e, h.config);
    if r.effects != [] && r.effects[0].RecordTrial? then Some(Trial(r.state.repIndex, r.effects[0].outcome)) else None
  }

  lemma LedgerGrows(h: HostState, e: Event)
    ensures Dispatched(h, e).fsm == Step(h.fsm, e, h.config).state && Dispatched(h, e).config == h.config
    ensures Dispatched(h, e).ledger == if Recorded(h, e).Some? then h.ledger + [Recorded(h, e).value] else h.ledger
  {
    var r := Step(h.fsm, e, h.config);
    var h1 := h.(fsm := r.state, timer := if Cancels(e) then None else h.timer);
    EffectsUnfold(h1, r.effects);
    EffectsTouch(h1, r.effects);
  }

  /** A trial is stamped after the index moved on: with the index of the next test, unless it repeats
      the test or ends the series. */
  lemma StampedAfterAdvance(h: HostState, e: Event)
    requires Recorded(h, e).Some?
    ensures var t := Recorded(h, e).value;
      t.repIndex == h.fsm.repIndex + 1 <==>
        t.outcome == Skipped || (t.outcome == Good && h.fsm.good + 1 < h.config.repetitions)
    ensures Recorded(h, e).value.repIndex in {h.fsm.repIndex, h.fsm.repIndex + 1}
  {
  }

  lemma DispatchLedger(h: HostState, e: Event)
    requires Arrives(h, e) && LedgerFits(h)
    ensures LedgerFits(Dispatched(h, e))
  {
    LedgerGrows(h, e);
    if Recorded(h, e).Some? {
      CountSnoc(h.ledger, Recorded(h, e).value, Good);
      CountSnoc(h.ledger, Recorded(h, e).value, Skipped);
    }
  }

  lemma DispatchBounds(h: HostState, e: Event)
    requires Arrives(h, e) && BoundsFit(h)
    ensures BoundsFit(Dispatched(h, e))
  {
    var r := Step(h.fsm, e, h.config);
    EffectsTouch(h.(fsm := r.state, timer := if Cancels(e) then None else h.timer), r.effects);
  }

  lemma DispatchKeeps(h: HostState, e: Event)
    requires Arrives(h, e) && LedgerFits(h) && BoundsFit(h)
    ensures Inv(Dispatched(h, e))
  {
    DispatchTimers(h, e);
    DispatchLedger(h, e);
    DispatchBounds(h, e);
  }

  lemma IdleIgnores(h: HostState, e: Event)
    requires h.fsm.phase == Idle && e != Start && Inv(h)
    ensures Inv(Dispatched(h, e))
  {
  }

  lemma HostStepKeeps(h: HostState, op: Op)
    requires Inv(h) && Enabled(h, op)
    ensures Inv(HostStep(h, op))
  {
    match op
    case Begin(config) =>
      var c := if config.Some? then config.value else h.config;
      DispatchKeeps(HostState(INITIAL, c, [], None, true, None, false), Start);
    case Press(e) =>
      if h.fsm.phase == Idle {
        IdleIgnores(h, e);
      } else {
        DispatchKeeps(h, e);
      }
    case Reset =>
    case FireTimer => DispatchKeeps(h.(timer := None), h.timer.value);
    case FireCue => DispatchKeeps(h.(cueWatchdog := false), CueDone);
  }

  /** Over every run of operator actions and timer firings. */
  lemma {:induction false} AlwaysInv(c: Config, ops: seq<Op>)
    ensures Inv(HostRun(Fresh(c), ops))
    decreases |ops|
  {
    if ops != [] {
      var p := HostRun(Fresh(c), ops[..|ops| - 1]);
      AlwaysInv(c, ops[..|ops| - 1]);
      if Enabled(p, ops[|ops| - 1]) {
        HostStepKeeps(p, ops[|ops| - 1]);
      }
    }
  }

  /* ---- a stale press ------------------------------------------------------------------------ */

  /** A press the phase has no use for. */
  predicate Stale(p: Phase, e: Event) {
    (p == Feedback && e == Skip) || (p == RetryPrompt && (e == Success || e == Fail))
  }

  /** A press that leaves the reducer in a timed phase is stale, and it leaves no timer behind:
      only another press can get the series out of that phase. */
  lemma StalePressDisarms(h: HostState, e: Event)
    requires Inv(h) && Enabled(h, Press(e)) && (h.fsm.phase == Feedback || h.fsm.phase == RetryPrompt)
    ensures Dispatched(h, e).fsm.phase == h.fsm.phase <==> Stale(h.fsm.phase, e)
    ensures Stale(h.fsm.phase, e) ==>
              Dispatched(h, e) == h.(timer := None) &&
              forall op :: op == FireTimer || op == FireCue ==> !Enabled(Dispatched(h, e), op)
  {
    var r := Step(h.fsm, e, h.config);
    EffectsUnfold(h.(fsm := r.state, timer := None), r.effects);
  }

  /** The timer of a timed phase is armed exactly when no stale press has come since the phase was
      entered. */
  ghost predicate Armed(h: HostState, stale: bool) {
    h.fsm.phase == Feedback || h.fsm.phase == RetryPrompt ==> (h.timer.Some? <==> !stale)
  }

  /** Whether a stale press has come since the last change of phase. */
  function StaleSince(c: Config, ops: seq<Op>): bool
    decreases |ops|
  {
    if ops == [] then false
    else
      var n := |ops| - 1;
      var p := HostRun(Fresh(c), ops[..n]);
      if !Enabled(p, ops[n]) then StaleSince(c, ops[..n])
      else if HostStep(p, ops[n]).fsm.phase != p.fsm.phase then false
      else StaleSince(c, ops[..n]) || (ops[n].Press? && Stale(p.fsm.phase, ops[n].e))
  }

  lemma StepArms(h: HostState, op: Op, stale: bool)
    requires Inv(h) && Enabled(h, op) && Armed(h, stale)
    ensures var h' := HostStep(h, op);
      Armed(h', if h'.fsm.phase != h.fsm.phase then false else stale || (op.Press? && Stale(h.fsm.phase, op.e)))
  {
    match op
    case Begin(config) =>
      var c := if config.Some? then config.value else h.config;
      DispatchArms(HostState(INITIAL, c, [], None, true, None, false), Start);
    case Press(e) => DispatchArms(h, e);
    case Reset =>
    case FireTimer => DispatchArms(h.(timer := None), h.timer.value);
    case FireCue => DispatchArms(h.(cueWatchdog := false), CueDone);
  }

  lemma {:induction false} ArmedUnlessStale(c: Config, ops: seq<Op>)
    ensures Armed(HostRun(Fresh(c), ops), StaleSince(c, ops))
    decreases |ops|
  {
    if ops != [] {
      var n := |ops| - 1;
      var p := HostRun(Fresh(c), ops[..n]);
      ArmedUnlessStale(c, ops[..n]);
      AlwaysInv(c, ops[..n]);
      if Enabled(p, ops[n]) {
        StepArms(p, ops[n], StaleSince(c, ops[..n]));
      }
    }
  }

  /** One more step of a run. */
  lemma RunSnoc(h: HostState, ops: seq<Op>, op: Op)
    requires Enabled(HostRun(h, ops), op)
    ensures HostRun(h, ops + [op]) == HostStep(HostRun(h, ops), op)
  {
    assert (ops + [op])[..|ops|] == ops;
  }

  /** A begun series of at least one test, waiting for feedback on the first. */
  lemma FirstFeedback(c: Config)
    requires c.repetitions > 0
    ensures HostRun(Fresh(c), [Begin(None), FireCue])
            == HostState(INITIAL.(phase := Feedback), c, [], None, true, Some(FeedbackTimeout), false)
  {
    RunSnoc(Fresh(c), [], Begin(None));
    var h := HostState(INITIAL.(phase := Cueing), c, [], None, true, None, false);
    EffectsUnfold(h, [PlayCue]);
    assert [] + [Begin(None)] == [Begin(None)];
    RunSnoc(Fresh(c), [Begin(None)], FireCue);
    EffectsUnfold(h.(fsm := h.fsm.(phase := Feedback)), [StartFeedback]);
    assert [Begin(None)] + [FireCue] == [Begin(None), FireCue];
  }

  lemma {:induction false} NothingFires(h: HostState, firings: seq<Op>)
    requires h.timer.None? && !h.cueWatchdog && forall i :: 0 <= i < |firings| ==> firings[i] in {FireTimer, FireCue}
    ensures HostRun(h, firings) == h
    decreases |firings|
  {
    if firings != [] {
      NothingFires(h, firings[..|firings| - 1]);
    }
  }

  /** It does happen, in every series: pressing skip while the first feedback is awaited leaves a live
      series that no timer will ever end. */
  lemma SkipStrands(c: Config, firings: seq<Op>)
    requires c.repetitions > 0 && forall i :: 0 <= i < |firings| ==> firings[i] in {FireTimer, FireCue}
    ensures var h := HostRun(Fresh(c), [Begin(None), FireCue, Press(Skip)]);
      h.fsm.phase == Feedback && h.timer.None? && HostRun(h, firings) == h
  {
    FirstFeedback(c);
    assert [Begin(None), FireCue] + [Press(Skip)] == [Begin(None), FireCue, Press(Skip)];
    RunSnoc(Fresh(c), [Begin(None), FireCue], Press(Skip));
    NothingFires(HostRun(Fresh(c), [Begin(None), FireCue, Press(Skip)]), firings);
  }

  /** The stamp is shifted in every series: the skipped first test, of index 0, is entered as test 1. */
  lemma SkippedIsStampedNext(c: Config)
    requires c.repetitions > 0
    ensures HostRun(Fresh(c), [Begin(None), FireCue]).fsm.repIndex == 0
    ensures HostRun(Fresh(c), [Begin(None), FireCue, FireTimer, Press(Skip)]).ledger == [Trial(1, Skipped)]
  {
    FirstFeedback(c);
    var ops := [Begin(None), FireCue];
    assert ops + [FireTimer] == [Begin(None), FireCue, FireTimer];
    RunSnoc(Fresh(c), ops, FireTimer);
    var h := HostRun(Fresh(c), ops);
    EffectsUnfold(h.(timer := None, fsm := h.fsm.(phase := RetryPrompt)), [StartRetry]);
    var h1 := HostRun(Fresh(c), ops + [FireTimer]);
    assert ops + [FireTimer] + [Press(Skip)] == [Begin(None), FireCue, FireTimer, Press(Skip)];
    RunSnoc(Fresh(c), ops + [FireTimer], Press(Skip));
    LedgerGrows(h1, Skip);
  }

  /* ---- an unattended series ------------------------------------------------------------------- */

  /** Let the one armed timer fire, `n` times. */
  function Unattended(h: HostState, n: nat): HostState
    decreases n
  {
    if n == 0 then h
    else if h.cueWatchdog then Unattended(HostStep(h, FireCue), n - 1)
    else if h.timer.Some? then Unattended(HostStep(h, FireTimer), n - 1)
    else h
  }

  /** Abandoned by the guard. */
  function GuardEnds(h: HostState): HostState
    requires h.fsm.silence < h.config.silenceGuard
  {
    h.(fsm := h.fsm.(phase := Abandoned, silence := h.config.silenceGuard), cueWatchdog := false,
       timer := None, reason := Some(Guard))
  }

  /** One more silent round: abandoned when the silence reaches the guard, else cueing again. */
  function AfterRound(h: HostState): HostState
    requires h.fsm.silence < h.config.silenceGuard
  {
    if h.fsm.silence + 1 == h.config.silenceGuard then GuardEnds(h)
    else h.(fsm := h.fsm.(silence := h.fsm.silence + 1))
  }

  /** Three firings from the start of a cue: cue, feedback and retry prompt time out in turn, and the
      silence grows by one. */
  lemma Round(h: HostState)
    requires Inv(h) && h.fsm.phase == Cueing && h.timer.None? && h.fsm.silence < h.config.silenceGuard
    ensures var h1 := HostStep(h, FireCue);
      && h1 == h.(fsm := h.fsm.(phase := Feedback), cueWatchdog := false, timer := Some(FeedbackTimeout))
      && var h2 := HostStep(h1, FireTimer);
         && h2 == h1.(fsm := h.fsm.(phase := RetryPrompt), timer := Some(RetryTimeout))
         && HostStep(h2, FireTimer) == AfterRound(h)
  {
    var h0 := h.(cueWatchdog := false, fsm := h.fsm.(phase := Feedback));
    EffectsUnfold(h0, [StartFeedback]);
    var h1 := HostStep(h, FireCue);
    EffectsUnfold(h1.(timer := None, fsm := h.fsm.(phase := RetryPrompt)), [StartRetry]);
    var h2 := HostStep(h1, FireTimer);
    var r := Step(h2.fsm, RetryTimeout, h.config);
    EffectsUnfold(h2.(timer := None, fsm := r.state), r.effects);
  }

  /**
   * Without any input, a series that is cueing with silence `k` is abandoned by the guard after
   * exactly 3 * (guard - k) firings: not one earlier, and the counts do not change.
   */
  lemma {:induction false} UnattendedAbandons(h: HostState, n: nat)
    requires Inv(h) && h.fsm.phase == Cueing && h.timer.None? && h.fsm.silence < h.config.silenceGuard
    ensures var left := 3 * (h.config.silenceGuard - h.fsm.silence);
      && (n < left ==> Live(Unattended(h, n).fsm.phase))
      && (n >= left ==> Unattended(h, n) == GuardEnds(h))
    decreases h.config.silenceGuard - h.fsm.silence
  {
    ThreeFirings(h, n);
    if n >= 3 && h.fsm.silence + 1 < h.config.silenceGuard {
      UnattendedAbandons(AfterRound(h), n - 3);
    }
  }

  lemma ThreeFirings(h: HostState, n: nat)
    requires Inv(h) && h.fsm.phase == Cueing && h.timer.None? && h.fsm.silence < h.config.silenceGuard
    ensures Inv(AfterRound(h))
    ensures if n < 3 then Live(Unattended(h, n).fsm.phase) else Unattended(h, n) == Unattended(AfterRound(h), n - 3)
  {
    Round(h);
    var h1 := HostStep(h, FireCue);
    var h2 := HostStep(h1, FireTimer);
    HostStepKeeps(h, FireCue);
    HostStepKeeps(h1, FireTimer);
    HostStepKeeps(h2, FireTimer);
    if n > 0 {
      assert Unattended(h, n) == Unattended(h1, n - 1);
    }
    if n > 1 {
      assert Unattended(h1, n - 1) == Unattended(h2, n - 2);
    }
  }
}

module WizardHosts {
  import opened Common
  import opened WizardFsm
  import opened WizardStates

  class WizardHost {
    var state: State
    var config: Config
    var ledger: seq<Trial>
    var abandonReason: Option<Reason>
    var active: bool
    /** The event the generic timer is armed for. */
    var timer: Option<Event>
    var cueWatchdog: bool

    function View(): HostState
      reads this
    {
      HostState(state, config, ledger, abandonReason, active, timer, cueWatchdog)
    }

    constructor (config: Config)
      ensures View() == Fresh(config)
    {
      state, this.config, ledger := INITIAL, config, [];
      abandonReason, active, timer, cueWatchdog := None, false, None, false;
    }

    /** Begin a fresh series. */
    method Begin(config: Option<Config>)
      modifies this
      ensures View() == Begun(old(View()), config)
    {
      ClearTimers();
      state := INITIAL;
      if config.Some? {
        this.config := config.value;
      }
      ledger := [];
      abandonReason := None;
      active := true;
      Dispatch(Start);
    }

    method Press(e: Event)
      requires e in {Success, Fail, Abandon, Skip}
      modifies this
      ensures View() == HostStep(old(View()), Op.Press(e))
    {
      Dispatch(e);
    }

    method Reset()
      modifies this
      ensures View() == HostStep(old(View()), Op.Reset)
    {
      ClearTimers();
      state := INITIAL;
      ledger := [];
      abandonReason := None;
      active := false;
    }

    /** The generic timer elapses. */
    method OnTimer()
      requires timer.Some?
      modifies this
      ensures View() == HostStep(old(View()), FireTimer)
    {
      var e := timer.value;
      timer := None;
      Dispatch(e);
    }

    /** The cue watchdog elapses. */
    method OnCueWatchdog()
      requires cueWatchdog
      modifies this
      ensures View() == HostStep(old(View()), FireCue)
    {
      cueWatchdog := false;
      Dispatch(CueDone);
    }

    method Dispatch(e: Event)
      modifies this
      ensures View() == Dispatched(old(View()), e)
    {
      var r := Step(state, e, config);
      state := r.state;
      if e != FeedbackTimeout && e != RetryTimeout && e != CueDone {
        ClearTimer();
      }
      ApplyEffects(r.effects);
      Conclude();
    }

    /** A series that has ended keeps its reason and no timer. */
    method Conclude()
      modifies this
      ensures View() == Concluded(old(View()))
    {
      if state.phase == Abandoned {
        abandonReason := if state.silence >= config.silenceGuard then Some(Guard) else Some(Explicit);
      }
      if state.phase == Done || state.phase == Abandoned {
        ClearTimers();
      }
    }

    method ApplyEffects(effects: seq<Effect>)
      modifies this
      ensures View() == AppliedAll(old(View()), effects)
      ensures state == old(state) && config == old(config)
    {
      ghost var h := View();
      for i := 0 to |effects|
        invariant AppliedAll(View(), effects[i..]) == AppliedAll(h, effects)
      {
        assert effects[i..][1..] == effects[i + 1..];
        ApplyEffect(effects[i]);
      }
      EffectsTouch(h, effects);
    }

    method ApplyEffect(eff: Effect)
      modifies this
      ensures View() == Applied(old(View()), eff)
    {
      match eff
      case PlayCue =>
        ArmCue();
      case StartFeedback =>
        ArmTimer(FeedbackTimeout);
      case StartRetry =>
        ArmTimer(RetryTimeout);
      case RecordTrial(outcome) =>
        ledger := ledger + [Trial(state.repIndex, outcome)];
      case _ =>
    }

    method ArmCue()
      modifies this`cueWatchdog
      ensures cueWatchdog
    {
      ClearCueWatchdog();
      cueWatchdog := true;
    }

    method ArmTimer(e: Event)
      modifies this`timer
      ensures timer == Some(e)
    {
      ClearTimer();
      timer := Some(e);
    }

    method ClearTimer()
      modifies this`timer
      ensures timer.None?
    {
      if timer.Some? {
        timer := None;
      }
    }

    method ClearCueWatchdog()
      modifies this`cueWatchdog
      ensures !cueWatchdog
    {
      if cueWatchdog {
        cueWatchdog := false;
      }
    }

    method ClearTimers()
      modifies this`timer, this`cueWatchdog
      ensures timer.None? && !cueWatchdog
    {
      ClearTimer();
      ClearCueWatchdog();
    }

    /** The failed and skipped counts of a snapshot, in one pass over the ledger. */
    method Tally() returns (failed: nat, skipped: nat)
      ensures failed == Count(ledger, Failed) && skipped == Count(ledger, Skipped)
    {
      failed, skipped := 0, 0;
      for i := 0 to |ledger|
        invariant failed == Count(ledger[..i], Failed) && skipped == Count(ledger[..i], Skipped)
      {
        assert ledger[..i + 1] == ledger[..i] + [ledger[i]];
        CountSnoc(ledger[..i], ledger[i], Failed);
        CountSnoc(ledger[..i], ledger[i], Skipped);
        if ledger[i].outcome == Failed {
          failed := failed + 1;
        } else if ledger[i].outcome == Skipped {
          skipped := skipped + 1;
        }
      }
      assert ledger[..|ledger|] == ledger;
    }
  }
}
