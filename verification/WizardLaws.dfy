/** What the wizard does with each press and each silence, and what its counts say over a whole run. */
module WizardLaws {
  import opened Common
  import opened WizardFsm
  import opened WizardStates

  /* ---- the reducer's to-do list ------------------------------------------------------------- */

  /** The effects say what happened to the state: what is to be played, which timer is to run, whether
      the test was repeated or left behind, and how the series ended. */
  lemma EffectsTell(s: State, e: Event, c: Config)
    ensures var s', es := Step(s, e, c).state, Step(s, e, c).effects;
      && (es == [] <==> s' == s)
      && (PlayCue in es <==> es != [] && s'.phase == Cueing)
      && (StartFeedback in es <==> es != [] && s'.phase == Feedback)
      && (StartRetry in es <==> es != [] && s'.phase == RetryPrompt)
      && (Finish in es <==> es != [] && s'.phase == Done)
      && (AbandonSeries in es <==> es != [] && s'.phase == Abandoned)
      && (Advance in es <==> s'.repIndex != s.repIndex)
      && (ReplayCurrent in es <==> s.phase != Idle && es != [] && s'.phase == Cueing && s'.repIndex == s.repIndex)
      && (RecordTrial(Good) in es <==> s'.good != s.good)
      && (RecordTrial(Skipped) in es <==> s.phase == RetryPrompt && s'.repIndex != s.repIndex)
      && (RecordTrial(Failed) in es <==> s.phase == Feedback && ReplayCurrent in es)
      && forall i :: 0 <= i < |es| && es[i].RecordTrial? ==> i == 0
  {
  }

  /* ---- one press ---------------------------------------------------------------------------- */

  /** What a press records and where it leads. */
  datatype Answer =
    | Ignored
    | Answered(outcome: Option<Outcome>, leads: Phase, moves: bool)

  /** The answer a press gives in a phase: a success or a fail to the question for feedback, a skip to
      the retry prompt, and an abandon anywhere in a live series. */
  function AnswerOf(p: Phase, e: Event, last: bool): Answer {
    if p == Feedback && e == Success then Answered(Some(Good), if last then Done else Cueing, !last)
    else if p == Feedback && e == Fail then Answered(Some(Failed), Cueing, false)
    else if p == RetryPrompt && e == Skip then Answered(Some(Skipped), Cueing, true)
    else if Live(p) && e == Abandon then Answered(None, Abandoned, false)
    else Ignored
  }

  /** The success that reaches the target is the last one. */
  predicate IsLast(h: HostState) {
    h.fsm.good + 1 >= h.config.repetitions
  }

  /**
   * A press the phase has no use for changes at most the timer.  Any other resets the silence, enters
   * its outcome in the ledger, moves to the next test only on a skip or a success short of the
   * target, and has the cue played unless the series ends.
   */
  lemma PressDoes(h: HostState, e: Event)
    requires Enabled(h, Press(e))
    ensures var h', a := HostStep(h, Press(e)), AnswerOf(h.fsm.phase, e, IsLast(h));
      && h'.config == h.config && h'.active == h.active
      && (a.Ignored? ==> h'.fsm == h.fsm && h'.ledger == h.ledger)
      && (a.Answered? ==>
            && h'.fsm.phase == a.leads && h'.fsm.silence == 0
            && h'.fsm.repIndex == h.fsm.repIndex + (if a.moves then 1 else 0)
            && h'.fsm.good == h.fsm.good + (if a.outcome == Some(Good) then 1 else 0)
            && h'.ledger == h.ledger + (if a.outcome.Some? then [Trial(h'.fsm.repIndex, a.outcome.value)] else [])
            && (h'.cueWatchdog <==> a.leads == Cueing))
  {
    LedgerGrows(h, e);
    DispatchArms(h, e);
    var r := Step(h.fsm, e, h.config);
    EffectsTouch(h.(fsm := r.state, timer := None), r.effects);
  }

  /** A begun series stands before its first test, or is done when there is none to do. */
  lemma BeginDoes(h: HostState, config: Option<Config>)
    ensures var h', c := HostStep(h, Begin(config)), if config.Some? then config.value else h.config;
      && h'.config == c && h'.active && h'.ledger == [] && h'.reason == None && h'.timer == None
      && h'.fsm == State(if c.repetitions > 0 then Cueing else Done, 0, 0, 0)
      && (h'.cueWatchdog <==> c.repetitions > 0)
  {
    var c := if config.Some? then config.value else h.config;
    var h0 := HostState(INITIAL, c, [], None, true, None, false);
    LedgerGrows(h0, Start);
    DispatchArms(h0, Start);
    var r := Step(INITIAL, Start, c);
    EffectsTouch(h0.(fsm := r.state), r.effects);
  }

  /* ---- counting over a run ----------------------------------------------------------------------- */

  /** How often `e` was pressed in phase `p` since the series began. */
  ghost function Presses(c: Config, ops: seq<Op>, p: Phase, e: Event): nat
    decreases |ops|
  {
    if ops == [] then 0
    else
      var n := |ops| - 1;
      match ops[n]
      case Begin(_) => 0
      case Reset => 0
      case Press(e') =>
        var h := HostRun(Fresh(c), ops[..n]);
        Presses(c, ops[..n], p, e) + (if e' == e && Enabled(h, ops[n]) && h.fsm.phase == p then 1 else 0)
      case _ => Presses(c, ops[..n], p, e)
  }

  /** How many retry prompts ran out since the series began or a press was last answered. */
  ghost function Silences(c: Config, ops: seq<Op>): nat
    decreases |ops|
  {
    if ops == [] then 0
    else
      var n := |ops| - 1;
      var h := HostRun(Fresh(c), ops[..n]);
      match ops[n]
      case Begin(_) => 0
      case Reset => 0
      case Press(e) =>
        if Enabled(h, ops[n]) && AnswerOf(h.fsm.phase, e, IsLast(h)).Answered? then 0 else Silences(c, ops[..n])
      case FireTimer => Silences(c, ops[..n]) + (if h.timer.Some? && h.fsm.phase == RetryPrompt then 1 else 0)
      case FireCue => Silences(c, ops[..n])
  }

  /** The counts of a state are those of the presses and silences that led to it. */
  ghost predicate Tells(c: Config, ops: seq<Op>, h: HostState) {
    && Count(h.ledger, Good) == h.fsm.good == Presses(c, ops, Feedback, Success)
    && Count(h.ledger, Failed) == Presses(c, ops, Feedback, Fail)
    && Count(h.ledger, Skipped) == Presses(c, ops, RetryPrompt, Skip)
    && h.fsm.silence == Silences(c, ops)
  }

  /** The test a series stands at: one further for every good or skipped one, but not beyond the last. */
  ghost predicate StandsAtTest(h: HostState) {
    h.fsm.repIndex == Count(h.ledger, Good) + Count(h.ledger, Skipped)
                      - (if h.fsm.phase == Done && h.config.repetitions > 0 then 1 else 0)
  }

  lemma FiringDoes(h: HostState, op: Op)
    requires Inv(h) && (op == FireTimer || op == FireCue) && Enabled(h, op)
    ensures var h' := HostStep(h, op);
      && h'.ledger == h.ledger && h'.fsm.good == h.fsm.good && h'.config == h.config && h'.active == h.active
      && h'.fsm.silence == h.fsm.silence + (if op == FireTimer && h.fsm.phase == RetryPrompt then 1 else 0)
      && h'.fsm.phase ==
         (match h.fsm.phase
          case Cueing => Feedback
          case Feedback => RetryPrompt
          case _ => if h'.fsm.silence >= h.config.silenceGuard then Abandoned else Cueing)
  {
    var e := if op == FireTimer then h.timer.value else CueDone;
    var h0 := if op == FireTimer then h.(timer := None) else h.(cueWatchdog := false);
    LedgerGrows(h0, e);
    var r := Step(h0.fsm, e, h0.config);
    EffectsTouch(h0.(fsm := r.state, timer := if Cancels(e) then None else h0.timer), r.effects);
  }

  /**
   * Over every run: the ledger counts exactly the presses answered in their phase, the silence is the
   * number of retry prompts that ran out since the last answer, and the test is the one the good and
   * skipped trials lead to.
   */
  lemma {:induction false} CountsTell(c: Config, ops: seq<Op>)
    ensures Tells(c, ops, HostRun(Fresh(c), ops)) && StandsAtTest(HostRun(Fresh(c), ops))
    decreases |ops|
  {
    AlwaysInv(c, ops);
    if ops != [] {
      var n := |ops| - 1;
      var h := HostRun(Fresh(c), ops[..n]);
      AlwaysInv(c, ops[..n]);
      CountsTell(c, ops[..n]);
      if Enabled(h, ops[n]) {
        match ops[n]
        case Begin(config) => BeginDoes(h, config);
        case Press(e) => PressTells(c, ops, h, e);
        case Reset =>
        case FireTimer => FiringDoes(h, FireTimer);
        case FireCue => FiringDoes(h, FireCue);
      }
    }
  }

  lemma PressTells(c: Config, ops: seq<Op>, h: HostState, e: Event)
    requires ops != [] && ops[|ops| - 1] == Press(e) && h == HostRun(Fresh(c), ops[..|ops| - 1]) && Enabled(h, Press(e))
    requires Tells(c, ops[..|ops| - 1], h)
    ensures Tells(c, ops, HostStep(h, Press(e)))
  {
    PressAddsUp(h, e);
    PressesNext(c, ops, h, e, Feedback, Success);
    PressesNext(c, ops, h, e, Feedback, Fail);
    PressesNext(c, ops, h, e, RetryPrompt, Skip);
  }

  lemma PressAddsUp(h: HostState, e: Event)
    requires Enabled(h, Press(e))
    ensures var h', p := HostStep(h, Press(e)), h.fsm.phase;
      && Count(h'.ledger, Good) == Count(h.ledger, Good) + (if p == Feedback && e == Success then 1 else 0)
      && Count(h'.ledger, Failed) == Count(h.ledger, Failed) + (if p == Feedback && e == Fail then 1 else 0)
      && Count(h'.ledger, Skipped) == Count(h.ledger, Skipped) + (if p == RetryPrompt && e == Skip then 1 else 0)
      && h'.fsm.good == h.fsm.good + (if p == Feedback && e == Success then 1 else 0)
      && h'.fsm.silence == (if AnswerOf(p, e, IsLast(h)).Answered? then 0 else h.fsm.silence)
  {
    PressDoes(h, e);
    AnswerCounts(h.fsm.phase, e, IsLast(h));
    var h', a := HostStep(h, Press(e)), AnswerOf(h.fsm.phase, e, IsLast(h));
    LedgerAdds(h.ledger, h'.ledger, if a.Answered? then a.outcome else None, h'.fsm.repIndex);
  }

  /** Which presses are answered with which outcome. */
  lemma AnswerCounts(p: Phase, e: Event, last: bool)
    ensures var a := AnswerOf(p, e, last);
      && (a.Answered? && a.outcome == Some(Good) <==> p == Feedback && e == Success)
      && (a.Answered? && a.outcome == Some(Failed) <==> p == Feedback && e == Fail)
      && (a.Answered? && a.outcome == Some(Skipped) <==> p == RetryPrompt && e == Skip)
  {
  }

  lemma LedgerAdds(was: seq<Trial>, now: seq<Trial>, outcome: Option<Outcome>, at: nat)
    requires now == was + (if outcome.Some? then [Trial(at, outcome.value)] else [])
    ensures forall o :: Count(now, o) == Count(was, o) + (if outcome == Some(o) then 1 else 0)
  {
    if outcome.Some? {
      CountsSnoc(was, Trial(at, outcome.value));
    } else {
      assert now == was;
    }
  }

  lemma PressesNext(c: Config, ops: seq<Op>, h: HostState, e: Event, p: Phase, asked: Event)
    requires ops != [] && ops[|ops| - 1] == Press(e) && h == HostRun(Fresh(c), ops[..|ops| - 1]) && Enabled(h, Press(e))
    ensures Presses(c, ops, p, asked)
            == Presses(c, ops[..|ops| - 1], p, asked) + (if e == asked && h.fsm.phase == p then 1 else 0)
  {
  }

  lemma CountsSnoc(ledger: seq<Trial>, t: Trial)
    ensures forall o :: Count(ledger + [t], o) == Count(ledger, o) + (if t.outcome == o then 1 else 0)
  {
    forall o ensures Count(ledger + [t], o) == Count(ledger, o) + (if t.outcome == o then 1 else 0) {
      CountSnoc(ledger, t, o);
    }
  }

  /** A series was begun, and the host has not been reset since. */
  predicate BegunSinceReset(ops: seq<Op>) {
    ops != [] && (ops[|ops| - 1].Begin? || (!ops[|ops| - 1].Reset? && BegunSinceReset(ops[..|ops| - 1])))
  }

  /** A host that has not begun is as it was made, but for its configuration; one that has is active. */
  lemma {:induction false} ActiveOnceBegun(c: Config, ops: seq<Op>)
    ensures var h := HostRun(Fresh(c), ops);
      && (h.active <==> BegunSinceReset(ops))
      && (!BegunSinceReset(ops) ==>
            h == HostState(State(Idle, 0, 0, 0), h.config, [], None, false, None, false))
    decreases |ops|
  {
    if ops != [] {
      var n := |ops| - 1;
      var h := HostRun(Fresh(c), ops[..n]);
      ActiveOnceBegun(c, ops[..n]);
      if Enabled(h, ops[n]) {
        StepActive(h, ops[n]);
      }
    }
  }

  lemma StepActive(h: HostState, op: Op)
    requires Enabled(h, op)
    ensures var h' := HostStep(h, op);
      && h'.active == (op.Begin? || (!op.Reset? && h.active))
      && (op.Press? && h.fsm.phase == Idle && h.timer.None? ==> h' == h)
      && (op.Reset? ==> h' == HostState(State(Idle, 0, 0, 0), h.config, [], None, false, None, false))
  {
    match op
    case Begin(config) => BeginDoes(h, config);
    case Press(e) =>
      var r := Step(h.fsm, e, h.config);
      EffectsTouch(h.(fsm := r.state, timer := None), r.effects);
    case Reset =>
    case FireTimer =>
      var r := Step(h.fsm, h.timer.value, h.config);
      EffectsTouch(h.(fsm := r.state, timer := None), r.effects);
    case FireCue =>
      var r := Step(h.fsm, CueDone, h.config);
      EffectsTouch(h.(fsm := r.state, cueWatchdog := false), r.effects);
  }
}
