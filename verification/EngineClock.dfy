/** The clock inside the lock-step of engine and event controller is the clock of src/cs_timer.c
    with two actors: every run of the one is a run of the other. */
module EngineClock {
  import opened Store
  import Timer
  import opened Engine

  // Actor 0 is the engine and actor 1 the controller.  In the lock-step a released actor has
  // already woken up.
  function View(s: State): Timer.State {
    var e, c := One(s.engine.ETickWait?), One(s.ctl.CTickWait?);
    var arrived := s.clock + if s.timerStop then s.sync else c;
    Timer.State(Timer.Fields(s.clock, s.sync, s.timerStop),
                [Timer.Actor(s.clock + e, s.clock, s.engine.ETickWait?, false),
                 Timer.Actor(arrived, if s.timerStop then arrived else s.clock, s.ctl.CTickWait?, false)], false)
  }

  // What a step of the lock-step is for the clock.
  function StepsOf(s: State, a: Step): seq<Timer.Step> {
    match a
    case EArrive => if s.ctl.CTickWait? then [Timer.Sync(0), Timer.Wake(1)] else [Timer.Sync(0)]
    case CArrive => if s.engine.ETickWait? && !s.timerStop then [Timer.Sync(1), Timer.Wake(0)] else [Timer.Sync(1)]
    case EStopTimer => if s.ctl.CTickWait? then [Timer.Stop, Timer.Wake(1)] else [Timer.Stop]
    case _ => []
  }

  lemma OneStep(t: Timer.State, a: Timer.Step, n: nat, before: seq<Timer.Step>)
    requires Timer.Exec(n, before) == Some(t) && Timer.Enabled(t, a)
    ensures Timer.Exec(n, before + [a]) == Some(Timer.Do(t, a))
  {
    assert (before + [a])[..|before|] == before;
  }

  lemma QuietView(s: State, a: Step)
    requires Enabled(s, a) && LockStep(s) && StepsOf(s, a) == []
    ensures View(Do(s, a)) == View(s)
  {
  }

  lemma EngineArrives(s: State)
    requires Enabled(s, EArrive) && LockStep(s)
    ensures var t := View(s);
            && Timer.Enabled(t, Timer.Sync(0))
            && var t1 := Timer.Do(t, Timer.Sync(0));
               if s.ctl.CTickWait? then Timer.Enabled(t1, Timer.Wake(1)) && Timer.Do(t1, Timer.Wake(1)) == View(Do(s, EArrive))
               else t1 == View(Do(s, EArrive))
  {
  }

  lemma ControllerArrives(s: State)
    requires Enabled(s, CArrive) && LockStep(s)
    ensures var t := View(s);
            && Timer.Enabled(t, Timer.Sync(1))
            && var t1 := Timer.Do(t, Timer.Sync(1));
               if s.engine.ETickWait? && !s.timerStop then Timer.Enabled(t1, Timer.Wake(0)) && Timer.Do(t1, Timer.Wake(0)) == View(Do(s, CArrive))
               else t1 == View(Do(s, CArrive))
  {
  }

  lemma EngineStops(s: State)
    requires Enabled(s, EStopTimer) && LockStep(s)
    ensures var t1 := Timer.Do(View(s), Timer.Stop);
            if s.ctl.CTickWait? then Timer.Enabled(t1, Timer.Wake(1)) && Timer.Do(t1, Timer.Wake(1)) == View(Do(s, EStopTimer))
            else t1 == View(Do(s, EStopTimer))
  {
  }

  // The clock's run, step by step of the lock-step's run.
  function ClockRun(driven: bool, start: Time, steps: seq<Step>): seq<Timer.Step> {
    if steps == [] then []
    else
      var k := |steps| - 1;
      var s := Exec(driven, start, steps[..k]);
      ClockRun(driven, start, steps[..k]) + (if s.Some? then StepsOf(s.value, steps[k]) else [])
  }

  lemma {:induction false} Refines(driven: bool, start: Time, steps: seq<Step>, s: State)
    requires start >= 1 && Exec(driven, start, steps) == Some(s)
    ensures Timer.Exec(2, ClockRun(driven, start, steps)) == Some(View(s))
  {
    if steps == [] {
      assert Timer.Init(2).actors == View(s).actors;
    } else {
      var k := |steps| - 1;
      var s0, a := Exec(driven, start, steps[..k]).value, steps[k];
      var run := ClockRun(driven, start, steps[..k]);
      Refines(driven, start, steps[..k], s0);
      Reachable(driven, start, steps[..k]);
      StepRefines(s0, a, run);
    }
  }

  lemma StepRefines(s: State, a: Step, run: seq<Timer.Step>)
    requires LockStep(s) && Enabled(s, a) && Timer.Exec(2, run) == Some(View(s))
    ensures Timer.Exec(2, run + StepsOf(s, a)) == Some(View(Do(s, a)))
  {
    var t, q := View(s), StepsOf(s, a);
    if q == [] {
      QuietView(s, a);
      assert run + q == run;
    } else {
      if a.EArrive? {
        EngineArrives(s);
      } else if a.CArrive? {
        ControllerArrives(s);
      } else {
        EngineStops(s);
      }
      OneStep(t, q[0], 2, run);
      if |q| == 2 {
        OneStep(Timer.Do(t, q[0]), q[1], 2, run + [q[0]]);
        assert run + [q[0]] + [q[1]] == run + q;
      } else {
        assert run + [q[0]] == run + q;
      }
    }
  }
}
