/** The lock-step of src/cs_engine.c, src/cs_events.c and src/cs_timer.c: the engine loop, the
    event controller and the handlers it starts, as a state machine with one step per lock
    section.  Two actors use the timer.  A thread that waits on a condition goes on exactly when
    the condition is broadcast. */
module Engine {
  import opened Store

  type Event = nat
  type Time = nat

  // The engine thread: before the run, in AFTER_STEP activities, before the termination test,
  // before cs_time_sync, waiting in it, before reading the clock, in USER activities, before and
  // inside the wait for the event handlers, before the two stop flags, after the loop.
  datatype EnginePc =
    | Setup | AfterStep | Terminate | ESync | ETickWait | EClock | UserStep | EventWait | EventBlocked
    | StopManager | StopTimer | Ended

  // The event controller: before cs_time_sync, waiting in it, before reading the clock, before
  // the stop test, before pop_events, waiting for the handlers, before the completion signal.
  datatype CtlPc = CSync | CTickWait | CClock | CCheck | CPop | CHandlers | CSignal | Over

  datatype State = State(
    driven: bool, start: Time,                  // EVENT_DRIVEN; first tick whose events are raised
    clock: Time, sync: nat, timerStop: bool,    // cs_timer_t
    managerStop: bool, completed: Time,         // stop and last_completion of the event manager
    engine: EnginePc, stop: bool, cur: Time,    // engine thread and its local variables
    ctl: CtlPc, ctlCur: Time, passed: Time,     // controller; passed: the last tick it popped or skipped
    pending: map<Time, seq<Event>>,             // the event tree
    todo: set<Event>, running: set<Event>,      // the current batch: not begun, in a handler
    finished: set<Event>,
    log: seq<(Event, Time)>,                    // handler calls in the order they begin, with their tick
    at: map<Event, Time>, next: Event,          // when each scheduled event is due; next identity
    late: set<Event>)                           // events whose tick could no longer come up

  function Init(driven: bool, start: Time): State {
    State(driven, start, 0, 0, false, false, 0, Setup, false, 0, CSync, 0, 0,
          map[], {}, {}, {}, [], map[], 0, {})
  }

  datatype Step =
    | EBegin | EActivitiesDone | ETerminate(user: bool) | EArrive | EReadClock | EUserDone | EWaitEvents
    | EStopManager | EStopTimer
    | CArrive | CReadClock | CTestStop | CPopEvents | CHandlersDone | CSignalDone
    | HandlerBegin(e: Event) | HandlerEnd(e: Event)
    | Schedule(due: Time)

  // Events are scheduled before the run, by activities and by handlers.
  predicate MaySchedule(s: State) {
    s.engine.Setup? || s.engine.AfterStep? || s.engine.UserStep? || s.running != {}
  }

  predicate Enabled(s: State, a: Step) {
    match a
    case EBegin => s.engine.Setup?
    case EActivitiesDone => s.engine.AfterStep?
    case ETerminate(user) => s.engine.Terminate?
    case EArrive => s.engine.ESync?
    case EReadClock => s.engine.EClock?
    case EUserDone => s.engine.UserStep?
    case EWaitEvents => s.engine.EventWait?
    case EStopManager => s.engine.StopManager?
    case EStopTimer => s.engine.StopTimer?
    case CArrive => s.ctl.CSync?
    case CReadClock => s.ctl.CClock?
    case CTestStop => s.ctl.CCheck?
    case CPopEvents => s.ctl.CPop?
    case CHandlersDone => s.ctl.CHandlers? && s.todo == {} && s.running == {}
    case CSignalDone => s.ctl.CSignal?
    case HandlerBegin(e) => s.ctl.CHandlers? && e in s.todo
    case HandlerEnd(e) => e in s.running
    case Schedule(due) => MaySchedule(s)
  }

  function Do(s: State, a: Step): State
    requires Enabled(s, a)
  {
    match a
    case EBegin => s.(engine := AfterStep, cur := s.clock)
    case EActivitiesDone => s.(engine := Terminate)
    case ETerminate(user) =>
      s.(engine := ESync, stop := if s.driven then s.pending == map[] else user)
    case EArrive =>
      if s.timerStop then s.(engine := EClock)
      else if s.sync + 1 == 2 then Tick(s).(engine := EClock)
      else s.(sync := s.sync + 1, engine := ETickWait)
    case EReadClock =>
      s.(cur := s.clock, engine := if s.stop then StopManager else if s.driven then EventWait else UserStep)
    case EUserDone => s.(engine := EventWait)
    case EWaitEvents => s.(engine := if s.completed < s.cur then EventBlocked else AfterStep)
    case EStopManager => s.(managerStop := true, engine := StopTimer)
    case EStopTimer =>
      s.(timerStop := true, engine := Ended, ctl := if s.ctl.CTickWait? then CClock else s.ctl)
    case CArrive =>
      if s.timerStop then s.(ctl := Over)
      else if s.sync + 1 == 2 then Tick(s).(ctl := CClock)
      else s.(sync := s.sync + 1, ctl := CTickWait)
    case CReadClock => s.(ctlCur := s.clock, ctl := CCheck)
    case CTestStop =>
      if s.managerStop then s.(ctl := Over)
      else if s.start > s.ctlCur then s.(ctl := CSync, passed := s.ctlCur)
      else s.(ctl := CPop)
    case CPopEvents =>
      var batch := if s.ctlCur in s.pending then s.pending[s.ctlCur] else [];
      s.(pending := s.pending - {s.ctlCur}, todo := (set e | e in batch), passed := s.ctlCur,
         ctl := if batch != [] then CHandlers else CSignal)
    case CHandlersDone => s.(ctl := CSignal)
    case CSignalDone =>
      s.(completed := s.ctlCur, ctl := CSync, engine := if s.engine.EventBlocked? then AfterStep else s.engine)
    case HandlerBegin(e) => s.(todo := s.todo - {e}, running := s.running + {e}, log := s.log + [(e, s.ctlCur)])
    case HandlerEnd(e) => s.(running := s.running - {e}, finished := s.finished + {e})
    case Schedule(due) =>
      var q := if due in s.pending then s.pending[due] else [];
      s.(pending := s.pending[due := q + [s.next]], at := s.at[s.next := due], next := s.next + 1,
         late := if due <= s.passed || due < s.start then s.late + {s.next} else s.late)
  }

  // The last of the two arrivals: the clock advances and the other actor is released.
  function Tick(s: State): State {
    s.(clock := s.clock + 1, sync := 0,
       engine := if s.engine.ETickWait? then EClock else s.engine,
       ctl := if s.ctl.CTickWait? then CClock else s.ctl)
  }

  function One(b: bool): nat { if b then 1 else 0 }

  /* ---------- lock-step ---------- */

  // The engine has left tick `clock` behind; the controller has.
  predicate EngineWaits(s: State) {
    s.engine.Setup? || s.engine.AfterStep? || s.engine.Terminate? || s.engine.ESync? || s.engine.ETickWait?
  }

  predicate CtlWaits(s: State) { s.ctl.CSync? || s.ctl.CTickWait? }

  predicate Stopping(s: State) { s.engine.StopManager? || s.engine.StopTimer? || s.engine.Ended? }

  ghost predicate LockStep(s: State) {
    && (s.managerStop <==> s.engine.StopTimer? || s.engine.Ended?)
    && (s.timerStop <==> s.engine.Ended?)
    && (!s.timerStop ==> s.sync == One(s.engine.ETickWait?) + One(s.ctl.CTickWait?) && s.sync <= 1)
    && (s.timerStop ==> !s.ctl.CTickWait?)
    && (s.ctl.Over? ==> s.managerStop)
    && (Stopping(s) ==> s.stop)
    && (s.stop ==> s.engine.ESync? || s.engine.ETickWait? || s.engine.EClock? || Stopping(s))
    && (!s.engine.EClock? ==> s.cur == s.clock)
    // the engine finishes a tick only after the controller
    && (EngineWaits(s) ==> CtlWaits(s) && s.completed == s.clock)
    && (s.clock > 1 || (EngineWaits(s) && s.clock > 0) ==> s.start <= 1)
    && (s.completed > 0 ==> s.start <= s.completed)
    && (s.engine.Setup? ==> s.clock == 0)
    // the controller
    && (s.ctl.CPop? || s.ctl.CHandlers? || s.ctl.CSignal? ==>
          s.ctlCur == s.clock && s.start <= s.clock && s.completed < s.clock)
    && (s.ctl.CCheck? ==> s.ctlCur == s.clock)
    && (s.ctl.CHandlers? || s.ctl.CSignal? ==> s.passed == s.clock)
    && (s.ctl.CPop? ==> s.passed + 1 == s.clock)
    && (s.ctl.CClock? || s.ctl.CCheck? ==> s.passed + 1 == s.clock || (s.passed == s.clock && s.managerStop))
    && (CtlWaits(s) ==> s.passed == s.clock)
    && s.completed <= s.passed <= s.clock
    && (CtlWaits(s) && s.start <= s.clock ==> s.completed == s.clock)
    && (s.engine.EventBlocked? || (!CtlWaits(s) && !s.managerStop) ==> s.completed < s.clock)
    && (!s.ctl.CHandlers? ==> s.todo == {} && s.running == {})
  }

  lemma LockStepKept(s: State, a: Step)
    requires LockStep(s) && Enabled(s, a) && s.start >= 1
    ensures LockStep(Do(s, a))
  {
    if ByController(a) {
      LockStepByController(s, a);
    } else {
      LockStepByEngine(s, a);
    }
  }

  predicate ByController(a: Step) {
    a.CArrive? || a.CReadClock? || a.CTestStop? || a.CPopEvents? || a.CHandlersDone? || a.CSignalDone?
  }

  lemma LockStepByController(s: State, a: Step)
    requires LockStep(s) && Enabled(s, a) && s.start >= 1 && ByController(a)
    ensures LockStep(Do(s, a))
  {
  }

  lemma LockStepByEngine(s: State, a: Step)
    requires LockStep(s) && Enabled(s, a) && s.start >= 1 && !ByController(a)
    ensures LockStep(Do(s, a))
  {
  }

  // Two ticks cannot overlap: once the loop has ended the clock stands still, and a controller
  // that the stop releases goes to its end without raising another batch.
  lemma ClockStands(s: State, a: Step)
    requires LockStep(s) && Enabled(s, a) && Stopping(s)
    ensures Stopping(Do(s, a)) && Do(s, a).clock == s.clock && Do(s, a).cur == s.cur
    ensures s.engine.Ended? && Do(s, a).ctl.CPop? ==> s.ctl.CPop?
  {
  }

  // With events raised from tick 1 on, some thread can always go on until both have ended.
  lemma SomeoneCanGo(s: State) returns (a: Step)
    requires LockStep(s) && s.start <= 1 && !(s.engine.Ended? && s.ctl.Over?)
    ensures Enabled(s, a) && !a.Schedule?
  {
    if s.ctl.CHandlers? {
      if s.todo != {} {
        var e :| e in s.todo;
        return HandlerBegin(e);
      }
      if s.running != {} {
        var e :| e in s.running;
        return HandlerEnd(e);
      }
      return CHandlersDone;
    }
    a := match s.ctl
      case CSync => CArrive
      case CClock => CReadClock
      case CCheck => CTestStop
      case CPop => CPopEvents
      case CSignal => CSignalDone
      case _ => EArrive;
    if !Enabled(s, a) {
      a := match s.engine
        case Setup => EBegin
        case AfterStep => EActivitiesDone
        case Terminate => ETerminate(false)
        case ESync => EArrive
        case EClock => EReadClock
        case UserStep => EUserDone
        case EventWait => EWaitEvents
        case StopManager => EStopManager
        case _ => EStopTimer;
    }
  }

  /* ---------- events ---------- */

  function Occurs(q: seq<Event>, e: Event): nat {
    if q == [] then 0 else Occurs(q[..|q| - 1], e) + One(q[|q| - 1] == e)
  }

  lemma {:induction false} OccursMember(q: seq<Event>, e: Event)
    ensures e in q <==> Occurs(q, e) > 0
  {
    if q != [] {
      OccursMember(q[..|q| - 1], e);
      assert q == q[..|q| - 1] + [q[|q| - 1]];
    }
  }

  // How often the handler of e has been called.
  function Calls(log: seq<(Event, Time)>, e: Event): nat {
    if log == [] then 0 else Calls(log[..|log| - 1], e) + One(log[|log| - 1].0 == e)
  }

  function PendingCount(s: State, e: Event): nat {
    if e in s.at && s.at[e] in s.pending then Occurs(s.pending[s.at[e]], e) else 0
  }

  // A scheduled event is pending, in the batch, in its handler or finished, and only one of these.
  ghost predicate Conserved(s: State, e: Event) {
    && PendingCount(s, e) + One(e in s.todo) + One(e in s.running) + One(e in s.finished) == One(e in s.at)
    && Calls(s.log, e) == One(e in s.running) + One(e in s.finished)
  }

  // The event tree: no empty list, every event in the list of its tick, and only late events
  // behind the controller.
  ghost predicate TreeOk(s: State) {
    && (forall t :: t in s.pending ==> s.pending[t] != [])
    && (forall t, e :: t in s.pending && e in s.pending[t] ==> e in s.at && s.at[e] == t)
    && (forall t, e :: t in s.pending && e in s.pending[t] && e !in s.late ==> s.passed < t && s.start <= t)
  }

  ghost predicate BatchOk(s: State) {
    && (forall e :: e in s.todo || e in s.running ==> e in s.at && s.at[e] == s.ctlCur)
    && (forall e :: e in s.finished ==> e in s.at && s.start <= s.at[e] <= s.passed)
    && (forall k :: 0 <= k < |s.log| ==> s.log[k].0 in s.at && s.log[k].1 == s.at[s.log[k].0])
  }

  ghost predicate LateOk(s: State) {
    && (forall e: Event :: e in s.at <==> e < s.next)
    && (forall e :: e in s.late ==> e in s.at && (s.at[e] <= s.passed || s.at[e] < s.start))
    && (forall e :: e in s.late ==> e !in s.todo && e !in s.running && e !in s.finished)
    && (s.driven && s.stop ==> s.pending == map[] && s.todo == {} && s.running == {})
  }

  ghost predicate EventsOk(s: State) { TreeOk(s) && BatchOk(s) && LateOk(s) }

  predicate TouchesEvents(a: Step) { a.CPopEvents? || a.Schedule? || a.HandlerBegin? || a.HandlerEnd? }

  lemma EventsKeptQuietly(s: State, a: Step)
    requires LockStep(s) && EventsOk(s) && Enabled(s, a) && s.start >= 1 && !TouchesEvents(a)
    ensures EventsOk(Do(s, a))
  {
    TreeKeptQuietly(s, a);
    BatchKeptQuietly(s, a);
    LateKeptQuietly(s, a);
  }

  lemma TreeKeptQuietly(s: State, a: Step)
    requires LockStep(s) && EventsOk(s) && Enabled(s, a) && !TouchesEvents(a)
    ensures TreeOk(Do(s, a))
  {
  }

  lemma BatchKeptQuietly(s: State, a: Step)
    requires LockStep(s) && BatchOk(s) && Enabled(s, a) && !TouchesEvents(a)
    ensures BatchOk(Do(s, a))
  {
  }

  lemma LateKeptQuietly(s: State, a: Step)
    requires LockStep(s) && LateOk(s) && Enabled(s, a) && !TouchesEvents(a)
    ensures LateOk(Do(s, a))
  {
  }

  lemma EventsKeptByPop(s: State)
    requires LockStep(s) && EventsOk(s) && s.ctl.CPop? && s.start >= 1
    ensures EventsOk(Do(s, CPopEvents))
  {
  }

  lemma EventsKeptByHandler(s: State, a: Step)
    requires LockStep(s) && EventsOk(s) && Enabled(s, a) && (a.HandlerBegin? || a.HandlerEnd?)
    ensures EventsOk(Do(s, a))
  {
    assert TreeOk(Do(s, a));
    assert BatchOk(Do(s, a));
  }

  lemma EventsKeptBySchedule(s: State, due: Time)
    requires LockStep(s) && EventsOk(s) && MaySchedule(s)
    ensures EventsOk(Do(s, Schedule(due)))
  {
    TreeKeptBySchedule(s, due);
    BatchKeptBySchedule(s, due);
  }

  lemma TreeKeptBySchedule(s: State, due: Time)
    requires TreeOk(s) && LateOk(s) && MaySchedule(s)
    ensures TreeOk(Do(s, Schedule(due)))
  {
    var s' := Do(s, Schedule(due));
    forall t, e | t in s'.pending && e in s'.pending[t]
      ensures e in s'.at && s'.at[e] == t && (e !in s'.late ==> s'.passed < t && s'.start <= t)
    {
      if e == s.next {
        NewestPlace(s, due, t);
      } else {
        assert t in s.pending && e in s.pending[t];
      }
    }
  }

  // The new event is in the list of its own tick only.
  lemma NewestPlace(s: State, due: Time, t: Time)
    requires TreeOk(s) && LateOk(s) && MaySchedule(s)
    requires t in Do(s, Schedule(due)).pending && s.next in Do(s, Schedule(due)).pending[t]
    ensures t == due
  {
    assert s.next !in s.at;
  }

  lemma BatchKeptBySchedule(s: State, due: Time)
    requires LockStep(s) && BatchOk(s) && LateOk(s) && MaySchedule(s)
    ensures BatchOk(Do(s, Schedule(due))) && LateOk(Do(s, Schedule(due)))
  {
  }

  lemma EventsKept(s: State, a: Step)
    requires LockStep(s) && EventsOk(s) && Enabled(s, a) && s.start >= 1
    ensures EventsOk(Do(s, a))
  {
    if a.CPopEvents? {
      EventsKeptByPop(s);
    } else if a.Schedule? {
      EventsKeptBySchedule(s, a.due);
    } else if a.HandlerBegin? || a.HandlerEnd? {
      EventsKeptByHandler(s, a);
    } else {
      EventsKeptQuietly(s, a);
    }
  }

  lemma ConservedByPop(s: State, e: Event)
    requires LockStep(s) && EventsOk(s) && Conserved(s, e) && s.ctl.CPop?
    ensures Conserved(Do(s, CPopEvents), e)
  {
    if s.ctlCur in s.pending {
      OccursMember(s.pending[s.ctlCur], e);
    }
  }

  // The identity of the next event is used nowhere yet.
  lemma NextIsNew(s: State, due: Time)
    requires LockStep(s) && EventsOk(s)
    ensures s.next !in s.at && s.next !in s.todo && s.next !in s.running && s.next !in s.finished
    ensures due in s.pending ==> s.next !in s.pending[due]
  {
  }

  lemma ConservedBySchedule(s: State, due: Time, e: Event)
    requires s.next !in s.at && s.next !in s.todo && s.next !in s.running && s.next !in s.finished
    requires due in s.pending ==> s.next !in s.pending[due]
    requires Conserved(s, e) && MaySchedule(s)
    ensures Conserved(Do(s, Schedule(due)), e)
  {
    var q := if due in s.pending then s.pending[due] else [];
    var s' := Do(s, Schedule(due));
    assert s'.pending[due] == q + [s.next];
    assert Occurs(q + [s.next], e) == Occurs(q, e) + One(s.next == e) by {
      assert (q + [s.next])[..|q|] == q;
    }
    OccursMember(q, s.next);
    assert PendingCount(s', e) == PendingCount(s, e) + One(s.next == e);
  }

  lemma ConservedKept(s: State, a: Step, e: Event)
    requires LockStep(s) && EventsOk(s) && Conserved(s, e) && Enabled(s, a)
    ensures Conserved(Do(s, a), e)
  {
    if a.CPopEvents? {
      ConservedByPop(s, e);
    } else if a.Schedule? {
      NextIsNew(s, a.due);
      ConservedBySchedule(s, a.due, e);
    }
  }

  /* ---------- all runs ---------- */

  ghost predicate Inv(s: State) {
    s.start >= 1 && LockStep(s) && EventsOk(s) && forall e :: Conserved(s, e)
  }

  // The state after the given steps, if each of them could be taken.
  function Exec(driven: bool, start: Time, steps: seq<Step>): Option<State> {
    if steps == [] then Some(Init(driven, start))
    else
      var s := Exec(driven, start, steps[..|steps| - 1]);
      var a := steps[|steps| - 1];
      if s.Some? && Enabled(s.value, a) then Some(Do(s.value, a)) else None
  }

  lemma StepInv(s: State, a: Step)
    requires Inv(s) && Enabled(s, a)
    ensures Inv(Do(s, a)) && Do(s, a).start == s.start && Do(s, a).driven == s.driven
  {
    LockStepKept(s, a);
    EventsKept(s, a);
    forall e ensures Conserved(Do(s, a), e) {
      ConservedKept(s, a, e);
    }
  }

  lemma {:induction false} Reachable(driven: bool, start: Time, steps: seq<Step>)
    requires start >= 1
    ensures var s := Exec(driven, start, steps); s.Some? ==> Inv(s.value) && s.value.start == start && s.value.driven == driven
  {
    if steps != [] {
      Reachable(driven, start, steps[..|steps| - 1]);
      var s := Exec(driven, start, steps[..|steps| - 1]);
      var a := steps[|steps| - 1];
      if s.Some? && Enabled(s.value, a) {
        StepInv(s.value, a);
      }
    }
  }

  /* ---------- what the kernel promises ---------- */

  // When the engine begins an iteration - AFTER_STEP activities, termination test, arrival at the
  // timer - every handler of the current tick has ended and the controller waits for the next tick.
  lemma IterationStartsAfterHandlers(driven: bool, start: Time, steps: seq<Step>, s: State)
    requires start >= 1 && Exec(driven, start, steps) == Some(s) && EngineWaits(s)
    ensures s.todo == {} && s.running == {} && CtlWaits(s)
    ensures s.cur == s.clock && s.completed == s.clock && s.passed == s.clock
  {
    Reachable(driven, start, steps);
  }

  // A batch is raised only in the tick both sides are in.
  lemma HandlersRunInTheirTick(driven: bool, start: Time, steps: seq<Step>, s: State, e: Event)
    requires start >= 1 && Exec(driven, start, steps) == Some(s) && e in s.todo + s.running
    ensures e in s.at && s.at[e] == s.ctlCur == s.clock && s.passed == s.clock && s.completed < s.clock
    ensures s.engine.EClock? || s.engine.UserStep? || s.engine.EventWait? || s.engine.EventBlocked? || Stopping(s)
  {
    Reachable(driven, start, steps);
  }

  // The final assertion of the engine loop, and that nothing moves the clock afterwards.
  lemma FinalClock(driven: bool, start: Time, steps: seq<Step>, s: State, a: Step)
    requires start >= 1 && Exec(driven, start, steps) == Some(s) && s.engine.Ended?
    ensures s.cur == s.clock
    ensures Enabled(s, a) ==> Do(s, a).engine.Ended? && Do(s, a).clock == s.clock && Do(s, a).cur == s.cur
  {
    Reachable(driven, start, steps);
    if Enabled(s, a) {
      ClockStands(s, a);
    }
  }

  // What becomes of a scheduled event is decided when it is scheduled.  An event that is not late
  // has its handler called at its tick, once, no sooner than the controller gets there and no
  // later; an event that is late is never handled.
  lemma EventFate(driven: bool, start: Time, steps: seq<Step>, s: State, e: Event)
    requires start >= 1 && Exec(driven, start, steps) == Some(s) && e in s.at
    ensures Calls(s.log, e) <= 1
    ensures e in s.late ==> Calls(s.log, e) == 0 && PendingCount(s, e) == 1
    ensures e !in s.late && s.passed < s.at[e] ==> Calls(s.log, e) == 0 && PendingCount(s, e) == 1
    ensures e !in s.late && s.at[e] <= s.passed ==> PendingCount(s, e) == 0 && e in s.todo + s.running + s.finished
    ensures Calls(s.log, e) == 1 <==> e in s.running + s.finished
    ensures forall k :: 0 <= k < |s.log| && s.log[k].0 == e ==> s.log[k].1 == s.at[e]
  {
    Reachable(driven, start, steps);
    assert Conserved(s, e);
    if s.at[e] in s.pending {
      OccursMember(s.pending[s.at[e]], e);
    }
  }

  // Lateness is settled by the guard at scheduling time: the tick has passed, or comes before the start.
  lemma LateFromTheStart(s: State, a: Step, e: Event)
    requires Inv(s) && Enabled(s, a)
    ensures e in s.at ==> e in Do(s, a).at && Do(s, a).at[e] == s.at[e] && (e in Do(s, a).late <==> e in s.late)
    ensures a.Schedule? && e == s.next ==>
              e in Do(s, a).at && Do(s, a).at[e] == a.due && (e in Do(s, a).late <==> a.due <= s.passed || a.due < s.start)
  {
    assert e in s.at <==> e < s.next;
  }

  // What the caller of cs_evm_schedule_event can tell from the clock: an event due after it, and
  // not before the first tick, is not late; ...
  lemma AheadIsInTime(driven: bool, start: Time, steps: seq<Step>, s: State, due: Time)
    requires start >= 1 && Exec(driven, start, steps) == Some(s) && MaySchedule(s)
    ensures due > s.clock && due >= start ==> s.next !in Do(s, Schedule(due)).late
    ensures due < s.clock || due < start ==> s.next in Do(s, Schedule(due)).late
  {
    Reachable(driven, start, steps);
  }

  // ... before the run, in an AFTER_STEP activity and in a handler this is exact, with an event
  // due at the current time being late; ...
  lemma LateByTheClock(driven: bool, start: Time, steps: seq<Step>, s: State, due: Time)
    requires start >= 1 && Exec(driven, start, steps) == Some(s) && MaySchedule(s)
    requires s.engine.Setup? || s.engine.AfterStep? || s.running != {}
    ensures s.next in Do(s, Schedule(due)).late <==> due <= s.clock || due < start
  {
    Reachable(driven, start, steps);
  }

  // ... and in a USER activity an event due at the current time is a race with the controller:
  // in run a it comes first and is handled, in run b it comes too late.
  lemma RaceInUserStep() returns (a: seq<Step>, sa: State, handled: seq<Step>, sh: State, b: seq<Step>, sb: State)
    ensures Exec(false, 1, a) == Some(sa) && sa.engine.UserStep? && sa.clock == 1
    ensures Exec(false, 1, b) == Some(sb) && sb.engine.UserStep? && sb.clock == 1
    ensures sa.next == sb.next == 0 && 0 !in Do(sa, Schedule(1)).late && 0 in Do(sb, Schedule(1)).late
    ensures Exec(false, 1, a + [Schedule(1)] + handled) == Some(sh) && 0 in sh.finished
  {
    a, sa := ToUserStep();
    var q, s := Extend(false, 1, a, sa, Schedule(1));
    q, s := Extend(false, 1, q, s, CReadClock);
    q, s := Extend(false, 1, q, s, CTestStop);
    q, s := Extend(false, 1, q, s, CPopEvents);
    assert 0 in [] + [0];
    q, s := Extend(false, 1, q, s, HandlerBegin(0));
    q, sh := Extend(false, 1, q, s, HandlerEnd(0));
    handled := [CReadClock, CTestStop, CPopEvents, HandlerBegin(0), HandlerEnd(0)];
    assert a + [Schedule(1)] + handled == q;
    b, sb := Extend(false, 1, a, sa, CReadClock);
    b, sb := Extend(false, 1, b, sb, CTestStop);
    b, sb := Extend(false, 1, b, sb, CPopEvents);
  }

  lemma ToUserStep() returns (steps: seq<Step>, s: State)
    ensures Exec(false, 1, steps) == Some(s) && s.engine.UserStep? && s.ctl.CClock?
    ensures s.clock == 1 && s.passed == 0 && s.next == 0 && s.start == 1 && !s.managerStop && s.pending == map[] && s.late == {}
  {
    steps, s := [], Init(false, 1);
    steps, s := Extend(false, 1, steps, s, EBegin);
    steps, s := Extend(false, 1, steps, s, EActivitiesDone);
    steps, s := Extend(false, 1, steps, s, ETerminate(false));
    steps, s := Extend(false, 1, steps, s, EArrive);
    steps, s := Extend(false, 1, steps, s, CArrive);
    steps, s := Extend(false, 1, steps, s, EReadClock);
  }

  // A late event: tick 0 never comes up.
  lemma LateBeforeTheRun(driven: bool) returns (s: State)
    ensures Exec(driven, 1, [Schedule(0)]) == Some(s) && 0 in s.late
  {
    var steps;
    steps, s := Extend(driven, 1, [], Init(driven, 1), Schedule(0));
    assert [] + [Schedule(0)] == [Schedule(0)];
  }

  // An EVENT_DRIVEN run stops only when every scheduled event has been handled; so one late event
  // keeps it from ever stopping.
  lemma DrivenRunStopsEmpty(start: Time, steps: seq<Step>, s: State, e: Event)
    requires start >= 1 && Exec(true, start, steps) == Some(s) && s.stop
    ensures s.pending == map[] && s.late == {}
    ensures e in s.at ==> e in s.finished && Calls(s.log, e) == 1
  {
    Reachable(true, start, steps);
    assert Conserved(s, e);
    forall l ensures l !in s.late {
      assert Conserved(s, l);
    }
  }

  // No run blocks before both threads have ended, if events are raised from tick 1 on, as the
  // engine itself asks for.
  lemma NeverStuck(driven: bool, steps: seq<Step>, s: State) returns (a: Step)
    requires Exec(driven, 1, steps) == Some(s) && !(s.engine.Ended? && s.ctl.Over?)
    ensures Enabled(s, a) && !a.Schedule?
  {
    Reachable(driven, 1, steps);
    a := SomeoneCanGo(s);
  }

  // The threads of s are blocked for good: nothing but a further scheduling could happen.
  ghost predicate Stuck(s: State) {
    !(s.engine.Ended? && s.ctl.Over?) && forall a :: Enabled(s, a) ==> a.Schedule?
  }

  lemma Extend(driven: bool, start: Time, steps: seq<Step>, s: State, a: Step) returns (steps': seq<Step>, s': State)
    requires Exec(driven, start, steps) == Some(s) && Enabled(s, a)
    ensures steps' == steps + [a] && s' == Do(s, a) && Exec(driven, start, steps') == Some(s')
  {
    steps', s' := steps + [a], Do(s, a);
    assert steps'[..|steps|] == steps;
  }

  // A controller started by the user with a later first tick does not report the earlier ticks as
  // completed: the engine waits for the events of tick 1, and the controller for the engine.
  lemma LateStartBlocks(driven: bool, start: Time) returns (steps: seq<Step>, s: State)
    requires start > 1
    ensures Exec(driven, start, steps) == Some(s) && Stuck(s)
    ensures s.engine.EventBlocked? && s.ctl.CTickWait? && s.clock == 1
  {
    steps, s := ToFirstTick(driven, start);
    steps, s := LateStartTick(driven, start, steps, s);
    if !driven {
      steps, s := Extend(driven, start, steps, s, EUserDone);
    }
    steps, s := Extend(driven, start, steps, s, EWaitEvents);
  }

  // Both threads have arrived at the timer, and the controller has read the clock.
  lemma ToFirstTick(driven: bool, start: Time) returns (steps: seq<Step>, s: State)
    requires start > 1
    ensures Exec(driven, start, steps) == Some(s)
    ensures s.ctl.CCheck? && s.engine.EClock? && s.start == start && s.driven == driven
    ensures s.clock == s.ctlCur == 1 && s.completed == 0 && s.sync == 0 && s.running == {}
    ensures !s.managerStop && !s.timerStop && !s.stop
  {
    steps, s := [], Init(driven, start);
    steps, s := Extend(driven, start, steps, s, Schedule(start));
    steps, s := Extend(driven, start, steps, s, EBegin);
    steps, s := Extend(driven, start, steps, s, EActivitiesDone);
    steps, s := Extend(driven, start, steps, s, ETerminate(false));
    steps, s := Extend(driven, start, steps, s, EArrive);
    steps, s := Extend(driven, start, steps, s, CArrive);
    steps, s := Extend(driven, start, steps, s, CReadClock);
  }

  // The controller skips tick 1 and comes back to the timer.
  lemma LateStartTick(driven: bool, start: Time, steps: seq<Step>, s: State) returns (steps': seq<Step>, s': State)
    requires Exec(driven, start, steps) == Some(s) && s.ctl.CCheck? && s.engine.EClock? && s.start > s.ctlCur
    requires !s.managerStop && !s.timerStop && s.sync == 0 && !s.stop
    ensures Exec(driven, start, steps') == Some(s')
    ensures s' == s.(ctl := CTickWait, passed := s.ctlCur, sync := 1, cur := s.clock,
                     engine := if s.driven then EventWait else UserStep)
  {
    steps', s' := Extend(driven, start, steps, s, CTestStop);
    steps', s' := Extend(driven, start, steps', s', CArrive);
    steps', s' := Extend(driven, start, steps', s', EReadClock);
  }

  // So a run can block exactly when the first tick is later than 1.
  lemma BlocksIffLateStart(driven: bool, start: Time)
    requires start >= 1
    ensures (exists steps :: Exec(driven, start, steps).Some? && Stuck(Exec(driven, start, steps).value)) <==> start > 1
  {
    if start > 1 {
      var steps, s := LateStartBlocks(driven, start);
      assert Stuck(Exec(driven, start, steps).value);
    } else {
      forall steps | Exec(driven, start, steps).Some? ensures !Stuck(Exec(driven, start, steps).value) {
        var s := Exec(driven, start, steps).value;
        if !(s.engine.Ended? && s.ctl.Over?) {
          var a := NeverStuck(driven, steps, s);
        }
      }
    }
  }
}
