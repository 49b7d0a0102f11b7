/** What decides that a run of the engine ends, and that it goes on until then: the termination
    test is obeyed, every tick is left after finitely many steps, and the activities take turns. */
module EngineProgress {
  import opened Store
  import opened Engine

  ghost predicate Reached(driven: bool, start: Time, steps: seq<Step>, s: State) {
    start >= 1 && Exec(driven, start, steps) == Some(s)
  }

  lemma Extended(driven: bool, start: Time, steps: seq<Step>, s: State, a: Step) returns (s': State)
    requires Reached(driven, start, steps, s) && Enabled(s, a)
    ensures s' == Do(s, a) && Reached(driven, start, steps + [a], s')
  {
    var q;
    q, s' := Extend(driven, start, steps, s, a);
  }

  lemma BeforeLast(driven: bool, start: Time, steps: seq<Step>, a: Step, s': State) returns (s: State)
    requires Reached(driven, start, steps + [a], s')
    ensures Reached(driven, start, steps, s) && Enabled(s, a) && s' == Do(s, a) && LockStep(s)
  {
    assert (steps + [a])[..|steps|] == steps;
    s := Exec(driven, start, steps).value;
    Reachable(driven, start, steps);
  }

  /* ---------- the termination test ---------- */

  // On the way out since a test at time c.
  ghost predicate Leaving(s: State, c: Time) {
    && s.stop
    && (((s.engine.ESync? || s.engine.ETickWait?) && s.clock == c)
        || ((s.engine.EClock? || s.engine.StopManager? || s.engine.StopTimer? || s.engine.Ended?) && s.clock == c + 1))
  }

  // Going on to the next iteration.
  ghost predicate Continuing(s: State) {
    && !s.stop
    && (s.engine.ESync? || s.engine.ETickWait? || s.engine.EClock? || s.engine.UserStep? || s.engine.EventWait? || s.engine.EventBlocked?)
  }

  lemma LeavingStep(s: State, a: Step, c: Time)
    requires LockStep(s) && Leaving(s, c) && Enabled(s, a)
    ensures Leaving(Do(s, a), c)
  {
  }

  lemma ContinuingStep(s: State, a: Step)
    requires LockStep(s) && Continuing(s) && Enabled(s, a)
    ensures Continuing(Do(s, a)) || Do(s, a).engine.AfterStep?
  {
  }

  lemma {:induction false} LeavingRun(driven: bool, start: Time, steps: seq<Step>, more: seq<Step>, s: State, s': State, c: Time)
    requires Reached(driven, start, steps, s) && Reached(driven, start, steps + more, s') && Leaving(s, c)
    ensures Leaving(s', c)
    decreases |more|
  {
    if more == [] {
      assert steps + more == steps;
    } else {
      var k := |more| - 1;
      assert steps + more == (steps + more[..k]) + [more[k]];
      var s1 := BeforeLast(driven, start, steps + more[..k], more[k], s');
      LeavingRun(driven, start, steps, more[..k], s, s1, c);
      LeavingStep(s1, more[k], c);
    }
  }

  // No iteration has begun after any of the steps of more.
  ghost predicate NoIteration(driven: bool, start: Time, steps: seq<Step>, more: seq<Step>) {
    forall k :: 0 <= k <= |more| ==> NotAfterStep(Exec(driven, start, steps + more[..k]))
  }

  predicate NotAfterStep(s: Option<State>) { s.Some? ==> !s.value.engine.AfterStep? }

  lemma {:induction false} ContinuingRun(driven: bool, start: Time, steps: seq<Step>, more: seq<Step>, s: State, s': State)
    requires Reached(driven, start, steps, s) && Reached(driven, start, steps + more, s') && Continuing(s)
    requires NoIteration(driven, start, steps, more)
    ensures Continuing(s')
    decreases |more|
  {
    if more == [] {
      assert steps + more == steps;
    } else {
      var k := |more| - 1;
      assert steps + more == (steps + more[..k]) + [more[k]];
      var s1 := BeforeLast(driven, start, steps + more[..k], more[k], s');
      forall i | 0 <= i <= k ensures NotAfterStep(Exec(driven, start, steps + more[..k][..i])) {
        assert more[..k][..i] == more[..i];
        assert NotAfterStep(Exec(driven, start, steps + more[..i]));
      }
      ContinuingRun(driven, start, steps, more[..k], s, s1);
      ContinuingStep(s1, more[k]);
      assert more[..|more|] == more;
      assert NotAfterStep(Exec(driven, start, steps + more[..|more|]));
    }
  }

  // If the test finds no event left in an EVENT_DRIVEN run, or the criterion of the user true in
  // another, no continuation begins another iteration, and in every one
  // that reaches the end the clock has advanced exactly once.
  lemma StopsWhenTrue(driven: bool, start: Time, steps: seq<Step>, s: State, user: bool, more: seq<Step>, s': State)
    requires Reached(driven, start, steps, s) && s.engine.Terminate? && (if s.driven then s.pending == map[] else user)
    requires Reached(driven, start, steps + [ETerminate(user)] + more, s')
    ensures !s'.engine.AfterStep? && (s'.engine.Ended? ==> s'.clock == s.clock + 1)
  {
    var s1 := Extended(driven, start, steps, s, ETerminate(user));
    LeavingRun(driven, start, steps + [ETerminate(user)], more, s1, s', s.clock);
  }

  // If the test finds it false, every continuation begins another iteration before it can end.
  lemma GoesOnWhenFalse(driven: bool, start: Time, steps: seq<Step>, s: State, user: bool, more: seq<Step>, s': State)
    requires Reached(driven, start, steps, s) && s.engine.Terminate? && !(if s.driven then s.pending == map[] else user)
    requires Reached(driven, start, steps + [ETerminate(user)] + more, s')
    ensures s'.engine.Ended? ==> !NoIteration(driven, start, steps + [ETerminate(user)], more)
  {
    var s1 := Extended(driven, start, steps, s, ETerminate(user));
    if NoIteration(driven, start, steps + [ETerminate(user)], more) {
      ContinuingRun(driven, start, steps + [ETerminate(user)], more, s1, s');
    }
  }

  // And if the test finds it true, the end can be reached.
  lemma CanEnd(driven: bool, start: Time, steps: seq<Step>, s: State, user: bool) returns (more: seq<Step>, s': State)
    requires Reached(driven, start, steps, s) && s.engine.Terminate? && (if s.driven then s.pending == map[] else user)
    ensures Exec(driven, start, steps + [ETerminate(user)] + more) == Some(s') && s'.engine.Ended? && s'.clock == s.clock + 1
  {
    Reachable(driven, start, steps);
    var q, s1 := Extend(driven, start, steps, s, ETerminate(user));
    q, s1 := Extend(driven, start, q, s1, EArrive);
    more := [EArrive];
    if s.ctl.CSync? {
      q, s1 := Extend(driven, start, q, s1, CArrive);
      more := [EArrive, CArrive];
    }
    q, s1 := Extend(driven, start, q, s1, EReadClock);
    q, s1 := Extend(driven, start, q, s1, EStopManager);
    q, s' := Extend(driven, start, q, s1, EStopTimer);
    more := more + [EReadClock, EStopManager, EStopTimer];
    assert steps + [ETerminate(user)] + more == q;
  }

  /* ---------- every tick is left ---------- */

  function EngineLoad(pc: EnginePc): nat {
    match pc
    case EClock => 29
    case UserStep => 28
    case EventWait => 27
    case EventBlocked => 26
    case Setup => 25
    case AfterStep => 24
    case Terminate => 23
    case ESync => 22
    case ETickWait => 21
    case StopManager => 11
    case StopTimer => 10
    case Ended => 0
  }

  function CtlLoad(pc: CtlPc): nat {
    match pc
    case CClock => 8
    case CCheck => 7
    case CPop => 6
    case CHandlers => 5
    case CSignal => 4
    case CSync => 3
    case CTickWait => 2
    case Over => 0
  }

  function Due(s: State): seq<Event> { if s.clock in s.pending then s.pending[s.clock] else [] }

  // A bound on the steps left in this tick, unless more events are scheduled for it.
  function Measure(s: State): nat {
    EngineLoad(s.engine) + CtlLoad(s.ctl) + 2 * |Due(s)| + 2 * |s.todo| + |s.running|
  }

  lemma {:induction false} BatchSize(q: seq<Event>, batch: set<Event>)
    requires forall e :: e in batch <==> e in q
    ensures |batch| <= |q|
  {
    if q != [] {
      var n := |q| - 1;
      var front := set e | e in q[..n];
      BatchSize(q[..n], front);
      assert batch == front + {q[n]};
    }
  }

  lemma PopDown(s: State)
    requires LockStep(s) && Enabled(s, CPopEvents)
    ensures Measure(Do(s, CPopEvents)) < Measure(s)
  {
    var s' := Do(s, CPopEvents);
    BatchSize(Due(s), s'.todo);
    assert s.todo == {} && s'.running == s.running && Due(s') == [];
  }

  lemma HandlerDown(s: State, a: Step)
    requires s.todo !! s.running && Enabled(s, a) && (a.HandlerBegin? || a.HandlerEnd?)
    ensures Measure(Do(s, a)) < Measure(s)
  {
    if a.HandlerBegin? {
      assert |s.todo - {a.e}| == |s.todo| - 1;
      assert |s.running + {a.e}| == |s.running| + 1;
    } else {
      assert |s.running - {a.e}| == |s.running| - 1;
    }
  }

  lemma ThreadDown(s: State, a: Step)
    requires LockStep(s) && Enabled(s, a) && !a.Schedule? && !a.CPopEvents? && !a.HandlerBegin? && !a.HandlerEnd?
    ensures Do(s, a).clock == s.clock + 1 || (Do(s, a).clock == s.clock && Measure(Do(s, a)) < Measure(s))
  {
    var s' := Do(s, a);
    assert s'.pending == s.pending && s'.todo == s.todo && s'.running == s.running;
    if s'.clock == s.clock {
      assert Due(s') == Due(s);
      LoadsDown(s, a);
    }
  }

  lemma LoadsDown(s: State, a: Step)
    requires LockStep(s) && Enabled(s, a) && !a.Schedule? && !a.CPopEvents? && !a.HandlerBegin? && !a.HandlerEnd?
    requires Do(s, a).clock == s.clock
    ensures EngineLoad(Do(s, a).engine) + CtlLoad(Do(s, a).ctl) < EngineLoad(s.engine) + CtlLoad(s.ctl)
  {
    if ByController(a) {
      LoadsDownByController(s, a);
    } else {
      LoadsDownByEngine(s, a);
    }
  }

  lemma LoadsDownByController(s: State, a: Step)
    requires Enabled(s, a) && ByController(a) && !a.CPopEvents? && Do(s, a).clock == s.clock
    ensures EngineLoad(Do(s, a).engine) + CtlLoad(Do(s, a).ctl) < EngineLoad(s.engine) + CtlLoad(s.ctl)
  {
    if a.CArrive? || a.CSignalDone? {
      LoadsDownBySignal(s, a);
    } else {
      assert Do(s, a).engine == s.engine;
    }
  }

  lemma LoadsDownBySignal(s: State, a: Step)
    requires Enabled(s, a) && (a.CArrive? || a.CSignalDone?) && Do(s, a).clock == s.clock
    ensures EngineLoad(Do(s, a).engine) + CtlLoad(Do(s, a).ctl) < EngineLoad(s.engine) + CtlLoad(s.ctl)
  {
  }

  lemma LoadsDownByEngine(s: State, a: Step)
    requires LockStep(s) && Enabled(s, a) && !ByController(a) && !a.Schedule? && !a.HandlerBegin? && !a.HandlerEnd?
    requires Do(s, a).clock == s.clock
    ensures EngineLoad(Do(s, a).engine) + CtlLoad(Do(s, a).ctl) < EngineLoad(s.engine) + CtlLoad(s.ctl)
  {
  }

  // Every step of a thread either advances the clock or uses up part of the tick.
  lemma StepDown(driven: bool, start: Time, steps: seq<Step>, s: State, a: Step)
    requires Reached(driven, start, steps, s) && Enabled(s, a) && !a.Schedule?
    ensures Do(s, a).clock == s.clock + 1 || (Do(s, a).clock == s.clock && Measure(Do(s, a)) < Measure(s))
  {
    Reachable(driven, start, steps);
    if a.CPopEvents? {
      PopDown(s);
    } else if a.HandlerBegin? || a.HandlerEnd? {
      BatchApart(driven, start, steps, s);
      HandlerDown(s, a);
    } else {
      ThreadDown(s, a);
    }
  }

  lemma BatchApart(driven: bool, start: Time, steps: seq<Step>, s: State)
    requires Reached(driven, start, steps, s)
    ensures s.todo !! s.running
  {
    Reachable(driven, start, steps);
    forall e ensures e !in s.todo || e !in s.running {
      assert Conserved(s, e);
    }
  }

  ghost predicate NoSchedule(q: seq<Step>) { forall i :: 0 <= i < |q| ==> !q[i].Schedule? }

  // So a run in which nothing more is scheduled stays in a tick no longer than the measure says.
  lemma {:induction false} TickBounded(driven: bool, start: Time, steps: seq<Step>, more: seq<Step>, s: State, s': State)
    requires Reached(driven, start, steps, s) && Reached(driven, start, steps + more, s') && NoSchedule(more)
    ensures s.clock <= s'.clock && (s'.clock == s.clock ==> |more| + Measure(s') <= Measure(s))
    decreases |more|
  {
    if more == [] {
      assert steps + more == steps;
    } else {
      var k := |more| - 1;
      assert steps + more == (steps + more[..k]) + [more[k]];
      var s1 := BeforeLast(driven, start, steps + more[..k], more[k], s');
      TickBounded(driven, start, steps, more[..k], s, s1);
      StepDown(driven, start, steps + more[..k], s1, more[k]);
    }
  }

  lemma AnyStep(driven: bool, steps: seq<Step>, s: State) returns (a: Step, s': State)
    requires Reached(driven, 1, steps, s) && !(s.engine.Ended? && s.ctl.Over?)
    ensures !a.Schedule? && Reached(driven, 1, steps + [a], s')
    ensures s'.clock == s.clock + 1 || (s'.clock == s.clock && Measure(s') < Measure(s))
  {
    a := NeverStuck(driven, steps, s);
    StepDown(driven, 1, steps, s, a);
    s' := Extended(driven, 1, steps, s, a);
  }

  // And every run goes on, without anything more being scheduled, to the next tick or to its end.
  lemma {:induction false} ReachesNextTick(driven: bool, steps: seq<Step>, s: State) returns (more: seq<Step>, s': State)
    requires Reached(driven, 1, steps, s)
    ensures Reached(driven, 1, steps + more, s') && NoSchedule(more)
    ensures s'.clock == s.clock + 1 || (s'.clock == s.clock && s'.engine.Ended? && s'.ctl.Over?)
    decreases Measure(s)
  {
    if s.engine.Ended? && s.ctl.Over? {
      more, s' := [], s;
      assert steps + more == steps;
    } else {
      var a, s1 := AnyStep(driven, steps, s);
      if s1.clock == s.clock {
        var rest;
        rest, s' := ReachesNextTick(driven, steps + [a], s1);
        more := [a] + rest;
        assert steps + more == steps + [a] + rest;
      } else {
        more, s' := [a], s1;
      }
    }
  }

  /* ---------- who takes turns ---------- */

  lemma {:induction false} UserStepsOfScan(driven: bool, start: Time, steps: seq<Step>, s: State)
    requires Reached(driven, start, steps, s)
    ensures s.driven == driven && (s.engine.UserStep? ==> !driven)
  {
    if steps != [] {
      var k := |steps| - 1;
      assert steps == steps[..k] + [steps[k]];
      var s1 := BeforeLast(driven, start, steps[..k], steps[k], s);
      UserStepsOfScan(driven, start, steps[..k], s1);
      Turns(s1, steps[k]);
    }
  }

  lemma Turns(s: State, a: Step)
    requires LockStep(s) && Enabled(s, a)
    ensures var s' := Do(s, a);
            && s'.driven == s.driven
            && (s'.engine.UserStep? && !s.engine.UserStep? ==> a.EReadClock? && !s.driven && !s.stop)
            && (s'.engine.EventWait? && !s.engine.EventWait? ==> s.engine.UserStep? || (s.driven && a.EReadClock?))
            && (s'.engine.AfterStep? && !s.engine.AfterStep? ==> s.engine.Setup? || s.engine.EventWait? || s.engine.EventBlocked?)
            && (s'.engine.Terminate? && !s.engine.Terminate? ==> s.engine.AfterStep?)
            && (s'.engine.ESync? && !s.engine.ESync? ==> s.engine.Terminate?)
  {
    if ByController(a) {
      ControllerTurns(s, a);
    } else {
      EngineTurns(s, a);
    }
  }

  lemma ControllerTurns(s: State, a: Step)
    requires Enabled(s, a) && ByController(a)
    ensures var s' := Do(s, a);
            && s'.driven == s.driven
            && (s'.engine == s.engine || (s.engine.ETickWait? && s'.engine.EClock?) || (s.engine.EventBlocked? && s'.engine.AfterStep?))
  {
    var s' := Do(s, a);
    assert s'.driven == s.driven;
    if !a.CArrive? && !a.CSignalDone? {
      assert s'.engine == s.engine;
    }
  }

  lemma EngineTurns(s: State, a: Step)
    requires LockStep(s) && Enabled(s, a) && !ByController(a)
    ensures var s' := Do(s, a);
            && s'.driven == s.driven
            && (s'.engine.UserStep? && !s.engine.UserStep? ==> a.EReadClock? && !s.driven && !s.stop)
            && (s'.engine.EventWait? && !s.engine.EventWait? ==> s.engine.UserStep? || (s.driven && a.EReadClock?))
            && (s'.engine.AfterStep? && !s.engine.AfterStep? ==> s.engine.Setup? || s.engine.EventWait? || s.engine.EventBlocked?)
            && (s'.engine.Terminate? && !s.engine.Terminate? ==> s.engine.AfterStep?)
            && (s'.engine.ESync? && !s.engine.ESync? ==> s.engine.Terminate?)
  {
  }

  // USER activities are performed in every tick of a run that is not EVENT_DRIVEN, and in no other,
  // before the engine waits for the events; AFTER_STEP ones after that, and the termination test
  // after those.
  lemma ActivitiesTakeTurns(driven: bool, start: Time, steps: seq<Step>, s: State, a: Step)
    requires Reached(driven, start, steps, s) && Enabled(s, a)
    ensures var s' := Do(s, a);
            && (s'.engine.UserStep? && !s.engine.UserStep? ==> a.EReadClock? && !driven && !s.stop)
            && (s'.engine.EventWait? && !s.engine.EventWait? ==> if driven then a.EReadClock? else s.engine.UserStep?)
            && (s'.engine.AfterStep? && !s.engine.AfterStep? ==> s.engine.Setup? || s.engine.EventWait? || s.engine.EventBlocked?)
            && (s'.engine.Terminate? && !s.engine.Terminate? ==> s.engine.AfterStep?)
            && (s'.engine.ESync? && !s.engine.ESync? ==> s.engine.Terminate?)
  {
    Reachable(driven, start, steps);
    UserStepsOfScan(driven, start, steps, s);
    Turns(s, a);
  }

  // The controller pops the events of a tick once: when it does, it has not passed the tick, and
  // afterwards it has.  In particular a controller that the stop releases pops nothing.
  lemma PoppedOnce(driven: bool, start: Time, steps: seq<Step>, s: State)
    requires Reached(driven, start, steps, s) && Enabled(s, CPopEvents)
    ensures s.passed + 1 == s.clock == Do(s, CPopEvents).passed && start <= s.clock
  {
    Reachable(driven, start, steps);
  }
}
