/** That the worker pool goes on: some thread of it can always take a step while there is anything
    to do, the steps run out only when everything has been done, and who waits is told. */
module PoolProgress {
  import opened Store
  import opened WorkerPool

  // The steps of the pool's own threads.
  predicate Internal(a: Step) { ByController(a) || ByWorker(a) }

  ghost predicate AllInternal(q: seq<Step>) { forall i :: 0 <= i < |q| ==> Internal(q[i]) }

  // No thread of the pool can take a step.
  ghost predicate Quiet(s: State) { forall a :: Internal(a) ==> !Enabled(s, a) }

  /* ---------- some step is possible ---------- */

  // A worker that has not ended, and has something to do, can do it.
  lemma WorkerGoes(s: State, i: nat) returns (a: Step)
    requires i < |s.workers| && !s.workers[i].pc.Exited? && (s.workers[i].pc.AtWait? ==> s.workers[i].sem > 0)
    ensures ByWorker(a) && Enabled(s, a)
  {
    var pc := s.workers[i].pc;
    a := if pc.AtWait? then Wake(i) else if pc.Woken? then Begin(i) else if pc.Running? then Finish(i)
         else if pc.Reporting? then Report(i) else Signal(i);
  }

  lemma NoneFree(ws: seq<Worker>, i: nat)
    requires Free(ws) == 0 && i < |ws|
    ensures ws[i].status != Waiting
  {
    if i < |ws| - 1 {
      NoneFree(ws[..|ws| - 1], i);
    }
  }

  // Every state but the end, and but waiting for a task on the open empty queue, has a step.
  lemma SomeoneCanGo(s: State) returns (a: Step)
    requires WorkersOk(s) && CtlOk(s) && TokensOk(s) && QueueOk(s) && |s.workers| > 0
    requires !s.ctl.Over? && !(s.ctl.Dequeue? && s.open && s.queue == [])
    ensures Internal(a) && Enabled(s, a)
  {
    match s.ctl
    case Dequeue => a := CtlDequeue;
    case Pop => a := CtlPop;
    case TakeToken(_) =>
      if s.poolSem > 0 {
        a := CtlToken;
      } else {
        NoneFree(s.workers, 0);
        assert WorkerOk(s.workers[0], 0, s.ctl, |s.workers|);
        a := WorkerGoes(s, 0);
      }
    case Scan(_, _) => a := CtlScan;
    case Assign(_, _) => a := CtlAssign;
    case Notify(_) => a := CtlNotify;
    case SetShutdown(_) => a := CtlSetShutdown;
    case PostShutdown(_) => a := CtlPostShutdown;
    case Join(i) =>
      if i < |s.workers| && !s.workers[i].pc.Exited? {
        assert WorkerOk(s.workers[i], i, s.ctl, |s.workers|);
        a := WorkerGoes(s, i);
      } else {
        a := CtlJoin;
      }
  }

  lemma NeverStuck(n: nat, capacity: nat, steps: seq<Step>, s: State) returns (a: Step)
    requires n > 0 && Exec(n, capacity, steps) == Some(s)
    requires !s.ctl.Over? && !(s.ctl.Dequeue? && s.open && s.queue == [])
    ensures Internal(a) && Enabled(s, a)
  {
    Reachable(n, capacity, steps);
    a := SomeoneCanGo(s);
  }

  // A producer is held up only by a queue without a free slot.
  lemma ProducersProceed(n: nat, capacity: nat, steps: seq<Step>, s: State)
    requires Exec(n, capacity, steps) == Some(s)
    ensures Enabled(s, Enter) <==> |s.queue| + |s.inflight| + |s.lost| < capacity
    ensures forall t :: t in s.inflight ==> Enabled(s, Append(t))
  {
    Reachable(n, capacity, steps);
  }

  /* ---------- the steps run out ---------- */

  // How many steps a worker can still take.
  function WorkerLoad(w: Worker): nat {
    2 * w.sem + (if w.status == TskAssigned then 3 else 0) +
    match w.pc
    case Running(_) => 3
    case Reporting(_) => 2
    case Signalling(_) => 1
    case Woken => 1
    case _ => 0
  }

  function Load(ws: seq<Worker>): nat {
    if ws == [] then 0 else Load(ws[..|ws| - 1]) + WorkerLoad(ws[|ws| - 1])
  }

  lemma {:induction false} LoadUpdate(ws: seq<Worker>, i: nat, w: Worker)
    requires i < |ws|
    ensures Load(ws[i := w]) + WorkerLoad(ws[i]) == Load(ws) + WorkerLoad(w)
  {
    var k := |ws| - 1;
    if i < k {
      assert ws[i := w][..k] == ws[..k][i := w];
      LoadUpdate(ws[..k], i, w);
    } else {
      assert ws[i := w][..k] == ws[..k];
    }
  }

  // The same for the controller, with n workers, apart from the tasks still queued.
  function CtlLoad(c: CtlPc, n: nat): int {
    match c
    case Over => 0
    case Join(i) => n + 1 - i
    case PostShutdown(i) => n + 1 + 5 * (n - i)
    case SetShutdown(i) => n + 2 + 5 * (n - i)
    case Pop => 6 * n + 3
    case Dequeue => 6 * n + 4
    case Notify(_) => 6 * n + 7
    case Assign(_, _) => 6 * n + 11
    case Scan(_, i) => 6 * n + 12 + (n - i)
    case TakeToken(_) => 7 * n + 13
  }

  function Queued(k: nat, n: nat): nat { k * (n + 11) }

  // A bound on the steps the pool can take without a new task.
  function Measure(s: State): int {
    Queued(|s.queue|, |s.workers|) + CtlLoad(s.ctl, |s.workers|) + Load(s.workers)
  }

  lemma PopDown(s: State)
    requires QueueOk(s) && Enabled(s, CtlPop)
    ensures Measure(Do(s, CtlPop)) < Measure(s)
  {
    var k, n, s' := |s.queue|, |s.workers|, Do(s, CtlPop);
    assert s'.workers == s.workers;
    if k > 0 {
      QueuedLess(k, n);
      assert |s'.queue| == k - 1 && s'.ctl.TakeToken?;
    }
  }

  lemma QueuedLess(k: nat, n: nat)
    requires k > 0
    ensures Queued(k, n) == Queued(k - 1, n) + n + 11
  {
  }

  // A step of the controller on the record of worker i.
  lemma AssignDown(s: State, a: Step)
    requires CtlOk(s) && Enabled(s, a) && (a.CtlAssign? || a.CtlNotify?)
    ensures Measure(Do(s, a)) < Measure(s)
  {
    var i, ws' := s.ctl.i, Do(s, a).workers;
    LoadUpdate(s.workers, i, ws'[i]);
    assert ws' == s.workers[i := ws'[i]];
  }

  lemma SetShutdownDown(s: State)
    requires CtlOk(s) && Enabled(s, CtlSetShutdown)
    ensures Measure(Do(s, CtlSetShutdown)) < Measure(s)
  {
    var i, ws' := s.ctl.i, Do(s, CtlSetShutdown).workers;
    LoadUpdate(s.workers, i, ws'[i]);
    assert ws' == s.workers[i := ws'[i]];
  }

  lemma PostShutdownDown(s: State)
    requires CtlOk(s) && Enabled(s, CtlPostShutdown)
    ensures Measure(Do(s, CtlPostShutdown)) < Measure(s)
  {
    var i, ws' := s.ctl.i, Do(s, CtlPostShutdown).workers;
    LoadUpdate(s.workers, i, ws'[i]);
    assert ws' == s.workers[i := ws'[i]];
  }

  lemma CtlDown(s: State, a: Step)
    requires CtlOk(s) && Enabled(s, a) && (a.CtlDequeue? || a.CtlToken? || a.CtlScan? || a.CtlJoin?)
    ensures Measure(Do(s, a)) < Measure(s)
  {
  }

  lemma WorkerDown(s: State, a: Step)
    requires WorkersOk(s) && Enabled(s, a) && ByWorker(a) && !Do(s, a).failed
    ensures Measure(Do(s, a)) < Measure(s)
  {
    var i, ws' := a.i, Do(s, a).workers;
    LoadUpdate(s.workers, i, ws'[i]);
    assert ws' == s.workers[i := ws'[i]];
  }

  lemma StepDown(s: State, a: Step)
    requires WorkersOk(s) && CtlOk(s) && QueueOk(s) && !s.failed && Enabled(s, a) && Internal(a)
    ensures Measure(Do(s, a)) < Measure(s)
  {
    if ByWorker(a) {
      NoAssertFails(s, a);
      WorkerDown(s, a);
    } else if a.CtlPop? {
      PopDown(s);
    } else if a.CtlDequeue? || a.CtlToken? || a.CtlScan? || a.CtlJoin? {
      CtlDown(s, a);
    } else if a.CtlAssign? || a.CtlNotify? {
      AssignDown(s, a);
    } else if a.CtlSetShutdown? {
      SetShutdownDown(s);
    } else {
      PostShutdownDown(s);
    }
  }

  lemma MeasureNat(s: State)
    requires CtlOk(s)
    ensures Measure(s) >= 0
  {
  }

  // A state that a run leads to.
  ghost predicate At(n: nat, capacity: nat, steps: seq<Step>, s: State) { Exec(n, capacity, steps) == Some(s) }

  lemma Extend(n: nat, capacity: nat, steps: seq<Step>, s: State, a: Step) returns (s': State)
    requires At(n, capacity, steps, s) && Enabled(s, a)
    ensures s' == Do(s, a) && At(n, capacity, steps + [a], s')
  {
    s' := Do(s, a);
    assert (steps + [a])[..|steps|] == steps;
  }

  lemma LastOf(n: nat, capacity: nat, steps: seq<Step>, s': State) returns (s: State, a: Step)
    requires steps != [] && At(n, capacity, steps, s')
    ensures a == steps[|steps| - 1] && At(n, capacity, steps[..|steps| - 1], s) && Enabled(s, a) && s' == Do(s, a)
  {
    a := steps[|steps| - 1];
    s := Exec(n, capacity, steps[..|steps| - 1]).value;
  }

  lemma Holding(n: nat, capacity: nat, steps: seq<Step>, s: State)
    requires At(n, capacity, steps, s)
    ensures WorkersOk(s) && CtlOk(s) && TokensOk(s) && QueueOk(s) && !s.failed && |s.workers| == n && Measure(s) >= 0
  {
    Reachable(n, capacity, steps);
    MeasureNat(s);
  }

  function MeasureOf(s: State): nat { if Measure(s) < 0 then 0 else Measure(s) }

  lemma MeasureAt(n: nat, capacity: nat, steps: seq<Step>, s: State)
    requires At(n, capacity, steps, s)
    ensures Measure(s) >= 0
  {
    Holding(n, capacity, steps, s);
  }

  // One step of the pool's own, at the end of a run.
  lemma StepOn(n: nat, capacity: nat, steps: seq<Step>, s: State, a: Step) returns (s': State)
    requires At(n, capacity, steps, s) && Enabled(s, a) && Internal(a)
    ensures At(n, capacity, steps + [a], s') && MeasureOf(s') < MeasureOf(s)
  {
    Holding(n, capacity, steps, s);
    StepDown(s, a);
    s' := Extend(n, capacity, steps, s, a);
    MeasureAt(n, capacity, steps + [a], s');
  }

  lemma StepBack(n: nat, capacity: nat, steps: seq<Step>, a: Step, s': State) returns (s: State)
    requires At(n, capacity, steps + [a], s') && Internal(a)
    ensures At(n, capacity, steps, s) && Measure(s') < Measure(s) && s'.open == s.open && s'.accepted == s.accepted
  {
    assert (steps + [a])[..|steps|] == steps;
    var b;
    s, b := LastOf(n, capacity, steps + [a], s');
    Holding(n, capacity, steps, s);
    StepDown(s, a);
    InternalKeeps(s, a);
  }

  // However its threads are scheduled, the pool takes no more steps of its own than the measure says.
  lemma {:induction false} RunBounded(n: nat, capacity: nat, steps: seq<Step>, more: seq<Step>, s: State, s': State)
    requires At(n, capacity, steps, s) && At(n, capacity, steps + more, s')
    requires AllInternal(more)
    ensures |more| + Measure(s') <= Measure(s) && Measure(s') >= 0
    decreases |more|
  {
    MeasureAt(n, capacity, steps + more, s');
    if more == [] {
      assert steps + more == steps;
    } else {
      var k := |more| - 1;
      assert steps + more == (steps + more[..k]) + [more[k]];
      var s1 := StepBack(n, capacity, steps + more[..k], more[k], s');
      RunBounded(n, capacity, steps, more[..k], s, s1);
    }
  }

  lemma AnyStep(n: nat, capacity: nat, steps: seq<Step>, s: State) returns (a: Step, s': State)
    requires At(n, capacity, steps, s) && !Quiet(s)
    ensures Internal(a) && At(n, capacity, steps + [a], s') && MeasureOf(s') < MeasureOf(s)
  {
    a :| Internal(a) && Enabled(s, a);
    s' := StepOn(n, capacity, steps, s, a);
  }

  // And so it comes to rest.
  lemma {:induction false} ComesToRest(n: nat, capacity: nat, steps: seq<Step>, s: State) returns (more: seq<Step>, s': State)
    requires At(n, capacity, steps, s)
    ensures At(n, capacity, steps + more, s') && Quiet(s') && AllInternal(more)
    decreases MeasureOf(s)
  {
    if Quiet(s) {
      more, s' := [], s;
      NoMore(n, capacity, steps, s);
    } else {
      var a, s1 := AnyStep(n, capacity, steps, s);
      var rest;
      rest, s' := ComesToRest(n, capacity, steps + [a], s1);
      more := [a] + rest;
      FirstThen(n, capacity, steps, a, rest, s');
    }
  }

  lemma NoMore(n: nat, capacity: nat, steps: seq<Step>, s: State)
    requires At(n, capacity, steps, s)
    ensures At(n, capacity, steps + [], s) && AllInternal([])
  {
    assert steps + [] == steps;
  }

  lemma FirstThen(n: nat, capacity: nat, steps: seq<Step>, a: Step, rest: seq<Step>, s': State)
    requires Internal(a) && AllInternal(rest) && At(n, capacity, steps + [a] + rest, s')
    ensures AllInternal([a] + rest) && At(n, capacity, steps + ([a] + rest), s')
  {
    assert steps + ([a] + rest) == steps + [a] + rest;
  }

  // In a state at rest nobody has anything to do any more.
  lemma WorkersAtRest(s: State, i: nat)
    requires WorkersOk(s) && Quiet(s) && i < |s.workers| && !s.ctl.Notify?
    ensures s.workers[i].status == Waiting && (s.workers[i].pc.AtWait? || s.workers[i].pc.Exited?)
  {
    assert WorkerOk(s.workers[i], i, s.ctl, |s.workers|);
    if !s.workers[i].pc.Exited? && (s.workers[i].pc.AtWait? ==> s.workers[i].sem > 0) {
      var a := WorkerGoes(s, i);
    }
  }

  // A pool at rest has ended, or waits on the open empty queue; and every task that was ever
  // accepted has been run, once, and is marked as done.
  lemma RestMeansDone(n: nat, capacity: nat, steps: seq<Step>, s: State)
    requires n > 0 && Exec(n, capacity, steps) == Some(s) && Quiet(s)
    ensures s.ctl.Over? || (s.ctl.Dequeue? && s.open && s.queue == [])
    ensures s.ran == s.accepted && s.done == s.accepted && forall t :: Occurs(s.log, t) == One(t in s.accepted)
  {
    if !s.ctl.Over? && !(s.ctl.Dequeue? && s.open && s.queue == []) {
      var a := NeverStuck(n, capacity, steps, s);
    }
    Holding(n, capacity, steps, s);
    forall t ensures Occurs(s.log, t) == One(t in s.accepted) && (t in s.ran <==> t in s.accepted) && (t in s.done <==> t in s.ran) {
      RestOf(n, capacity, steps, s, t);
    }
  }

  lemma RestOf(n: nat, capacity: nat, steps: seq<Step>, s: State, t: Task)
    requires n > 0 && At(n, capacity, steps, s) && Quiet(s) && s.queue == [] && (s.ctl.Over? || s.ctl.Dequeue?)
    ensures Occurs(s.log, t) == One(t in s.accepted) && (t in s.ran <==> t in s.accepted) && (t in s.done <==> t in s.ran)
  {
    Reachable(n, capacity, steps);
    assert Conserved(s, t);
    NobodyTells(n, capacity, steps, s, t);
    ToldAlways(n, capacity, steps, s, t);
  }

  // A closed pool with at least one worker ends, whatever it was doing.
  lemma ClosedPoolEnds(n: nat, capacity: nat, steps: seq<Step>, s: State) returns (more: seq<Step>, s': State)
    requires n > 0 && Exec(n, capacity, steps) == Some(s) && !s.open
    ensures Exec(n, capacity, steps + more) == Some(s') && s'.ctl.Over? && s'.ran == s.accepted
    ensures AllInternal(more)
  {
    more, s' := ComesToRest(n, capacity, steps, s);
    RestMeansDone(n, capacity, steps + more, s');
    OwnSteps(n, capacity, steps, more, s, s');
  }

  // The pool's own steps neither close the queue nor accept a task.
  lemma {:induction false} OwnSteps(n: nat, capacity: nat, steps: seq<Step>, more: seq<Step>, s: State, s': State)
    requires At(n, capacity, steps, s) && At(n, capacity, steps + more, s')
    requires AllInternal(more)
    ensures s'.open == s.open && s'.accepted == s.accepted
    decreases |more|
  {
    if more == [] {
      assert steps + more == steps;
    } else {
      var k := |more| - 1;
      assert steps + more == (steps + more[..k]) + [more[k]];
      var s1 := StepBack(n, capacity, steps + more[..k], more[k], s');
      OwnSteps(n, capacity, steps, more[..k], s, s1);
    }
  }

  lemma InternalKeeps(s: State, a: Step)
    requires Enabled(s, a) && Internal(a)
    ensures Do(s, a).open == s.open && Do(s, a).accepted == s.accepted
  {
  }

  /* ---------- who waits is told ---------- */

  // How many workers are about to mark t as done, or to post its semaphore.
  function Telling(ws: seq<Worker>, pc: WorkerPc): nat {
    if ws == [] then 0 else Telling(ws[..|ws| - 1], pc) + One(ws[|ws| - 1].pc == pc)
  }

  lemma {:induction false} TellUpdate(ws: seq<Worker>, i: nat, w: Worker, pc: WorkerPc)
    requires i < |ws|
    ensures Telling(ws[i := w], pc) + One(ws[i].pc == pc) == Telling(ws, pc) + One(w.pc == pc)
    ensures ws[i].pc == pc ==> Telling(ws, pc) > 0
  {
    var k := |ws| - 1;
    if i < k {
      assert ws[i := w][..k] == ws[..k][i := w];
      TellUpdate(ws[..k], i, w, pc);
    } else {
      assert ws[i := w][..k] == ws[..k];
    }
  }

  lemma {:induction false} TellNone(ws: seq<Worker>, t: Task)
    requires forall i :: 0 <= i < |ws| ==> ws[i].pc.AtWait? || ws[i].pc.Exited?
    ensures Telling(ws, Reporting(t)) == Telling(ws, Signalling(t)) == 0
  {
    if ws != [] {
      TellNone(ws[..|ws| - 1], t);
    }
  }

  lemma {:induction false} TellSome(ws: seq<Worker>, pc: WorkerPc) returns (i: nat)
    requires Telling(ws, pc) > 0
    ensures i < |ws| && ws[i].pc == pc
  {
    i := |ws| - 1;
    if ws[i].pc != pc {
      i := TellSome(ws[..i], pc);
    }
  }

  // How many waits have come back through the semaphore of t.
  function Woken(steps: seq<Step>, t: Task): nat {
    if steps == [] then 0 else Woken(steps[..|steps| - 1], t) + One(steps[|steps| - 1] == WaitSem(t))
  }

  // A task that has run is marked or about to be; one that is marked has had its one post, which
  // is still there or has woken one wait, or is about to have it.
  ghost predicate Told(s: State, steps: seq<Step>, t: Task) {
    && Telling(s.workers, Reporting(t)) + One(t in s.done) == One(t in s.ran)
    && s.signals[t] + Woken(steps, t) + Telling(s.workers, Signalling(t)) == One(t in s.done)
  }

  lemma ToldByWorker(s: State, a: Step, t: Task, k: nat)
    requires ByWorker(a) && Enabled(s, a) && Telling(s.workers, Reporting(t)) + One(t in s.done) == One(t in s.ran)
    requires s.signals[t] + k + Telling(s.workers, Signalling(t)) == One(t in s.done)
    requires s.workers[a.i].pc == Running(t) ==> t !in s.ran
    ensures var s' := Do(s, a);
            && Telling(s'.workers, Reporting(t)) + One(t in s'.done) == One(t in s'.ran)
            && s'.signals[t] + k + Telling(s'.workers, Signalling(t)) == One(t in s'.done)
  {
    TellWritten(s, a, Reporting(t));
    TellWritten(s, a, Signalling(t));
  }

  lemma TellWritten(s: State, a: Step, pc: WorkerPc)
    requires ByWorker(a) && Enabled(s, a)
    ensures Telling(Do(s, a).workers, pc) + One(s.workers[a.i].pc == pc) ==
            Telling(s.workers, pc) + One(a.i < |Do(s, a).workers| && Do(s, a).workers[a.i].pc == pc)
    ensures s.workers[a.i].pc == pc ==> Telling(s.workers, pc) > 0
  {
    var ws' := Do(s, a).workers;
    TellUpdate(s.workers, a.i, ws'[a.i], pc);
    assert ws' == s.workers[a.i := ws'[a.i]];
  }

  lemma ToldByController(s: State, a: Step, t: Task)
    requires ByController(a) && Enabled(s, a)
    ensures Telling(Do(s, a).workers, Reporting(t)) == Telling(s.workers, Reporting(t))
    ensures Telling(Do(s, a).workers, Signalling(t)) == Telling(s.workers, Signalling(t))
  {
    var i, ws' := Touched(s, a), Do(s, a).workers;
    if i < |s.workers| {
      TellUpdate(s.workers, i, ws'[i], Reporting(t));
      TellUpdate(s.workers, i, ws'[i], Signalling(t));
      assert ws' == s.workers[i := ws'[i]];
    }
  }

  lemma ToldStep(s: State, a: Step, steps: seq<Step>, t: Task)
    requires Told(s, steps, t) && Conserved(s, t) && Enabled(s, a)
    ensures Told(Do(s, a), steps + [a], t)
  {
    assert (steps + [a])[..|steps|] == steps;
    if ByWorker(a) {
      RunningIn(s.workers, a.i, t);
      ToldByWorker(s, a, t, Woken(steps, t));
    } else if ByController(a) {
      ToldByController(s, a, t);
      ToldQuietly(s, a, t);
    } else {
      ToldByOthers(s, a, t, Woken(steps, t));
    }
  }

  lemma ToldQuietly(s: State, a: Step, t: Task)
    requires ByController(a) && Enabled(s, a)
    ensures var s' := Do(s, a); s'.ran == s.ran && s'.done == s.done && s'.signals == s.signals
  {
  }

  lemma ToldByOthers(s: State, a: Step, t: Task, k: nat)
    requires !ByWorker(a) && !ByController(a) && Enabled(s, a)
    requires s.signals[t] + k + Telling(s.workers, Signalling(t)) == One(t in s.done)
    ensures var s' := Do(s, a);
            && s'.ran == s.ran && s'.done == s.done && s'.workers == s.workers
            && s'.signals[t] + k + One(a == WaitSem(t)) == s.signals[t] + k
  {
  }

  lemma {:induction false} ToldAlways(n: nat, capacity: nat, steps: seq<Step>, s: State, t: Task)
    requires At(n, capacity, steps, s)
    ensures Told(s, steps, t)
  {
    if steps == [] {
      TellNone(s.workers, t);
    } else {
      var k := |steps| - 1;
      var s1 := BeforeLast(n, capacity, steps);
      ToldAlways(n, capacity, steps[..k], s1, t);
      ToldNext(n, capacity, steps[..k], s1, steps[k], s, t);
    }
  }

  lemma BeforeLast(n: nat, capacity: nat, steps: seq<Step>) returns (s: State)
    requires steps != [] && Exec(n, capacity, steps).Some?
    ensures At(n, capacity, steps[..|steps| - 1], s)
  {
    s := Exec(n, capacity, steps[..|steps| - 1]).value;
  }

  lemma ToldNext(n: nat, capacity: nat, steps: seq<Step>, s: State, a: Step, s': State, t: Task)
    requires At(n, capacity, steps, s) && At(n, capacity, steps + [a], s') && Told(s, steps, t)
    ensures Told(s', steps + [a], t)
  {
    assert (steps + [a])[..|steps|] == steps;
    Reachable(n, capacity, steps);
    ToldStep(s, a, steps, t);
  }

  // A task that has been run is marked as done, or its worker can go on to mark it.
  lemma RanIsMarked(n: nat, capacity: nat, steps: seq<Step>, s: State, t: Task) returns (i: nat)
    requires Exec(n, capacity, steps) == Some(s) && t in s.ran && t !in s.done
    ensures Enabled(s, Report(i)) && t in Do(s, Report(i)).done
  {
    ToldAlways(n, capacity, steps, s, t);
    i := TellSome(s.workers, Reporting(t));
  }

  // A wait for a task that is done comes back at once, and one that waits on the semaphore does
  // when there is a post.
  lemma WaitReturns(s: State, t: Task)
    ensures t in s.done ==> Enabled(s, WaitSeesDone(t)) && t in Do(s, WaitSeesDone(t)).returned
    ensures s.signals[t] > 0 ==> Enabled(s, WaitSem(t)) && t in Do(s, WaitSem(t)).returned
  {
  }

  // Whatever the pool was doing when the task was offered, it can go on by itself until a wait for
  // the task comes back.
  lemma WaitCanReturn(n: nat, capacity: nat, steps: seq<Step>, s: State, t: Task) returns (more: seq<Step>, s': State)
    requires n > 0 && Exec(n, capacity, steps) == Some(s) && t in s.accepted
    ensures AllInternal(more) && Exec(n, capacity, steps + more + [WaitSeesDone(t)]) == Some(s') && t in s'.returned
  {
    var s1;
    more, s1 := ComesToRest(n, capacity, steps, s);
    RestMeansDone(n, capacity, steps + more, s1);
    OwnSteps(n, capacity, steps, more, s, s1);
    WaitReturns(s1, t);
    s' := Extend(n, capacity, steps + more, s1, WaitSeesDone(t));
  }

  // The one wait that found an accepted task unfinished is woken: at rest, the post is there or
  // has been used.  A second such wait never comes back: there is no second post.
  lemma OneWaitIsWoken(n: nat, capacity: nat, steps: seq<Step>, s: State, t: Task)
    requires Exec(n, capacity, steps) == Some(s)
    ensures s.signals[t] + Woken(steps, t) <= 1
    ensures Woken(steps, t) == 1 ==> !Enabled(s, WaitSem(t))
    ensures n > 0 && Quiet(s) && t in s.accepted ==> s.signals[t] + Woken(steps, t) == 1
  {
    PostsOnce(n, capacity, steps, s, t);
    if n > 0 && Quiet(s) {
      ToldAlways(n, capacity, steps, s, t);
      PostedAtRest(n, capacity, steps, s, t);
    }
  }

  lemma PostsOnce(n: nat, capacity: nat, steps: seq<Step>, s: State, t: Task)
    requires At(n, capacity, steps, s)
    ensures s.signals[t] + Woken(steps, t) <= 1
    ensures Woken(steps, t) == 1 ==> !Enabled(s, WaitSem(t))
  {
    ToldAlways(n, capacity, steps, s, t);
  }

  lemma PostedAtRest(n: nat, capacity: nat, steps: seq<Step>, s: State, t: Task)
    requires n > 0 && At(n, capacity, steps, s) && Quiet(s) && Told(s, steps, t)
    ensures s.signals[t] + Woken(steps, t) == One(t in s.accepted)
  {
    RestMeansDone(n, capacity, steps, s);
    NobodyTells(n, capacity, steps, s, t);
  }

  lemma NobodyTells(n: nat, capacity: nat, steps: seq<Step>, s: State, t: Task)
    requires n > 0 && At(n, capacity, steps, s) && Quiet(s) && !s.ctl.Notify?
    ensures Telling(s.workers, Reporting(t)) == Telling(s.workers, Signalling(t)) == 0
    ensures Assigned(s.workers, t) == RunningAt(s.workers, t) == 0
  {
    Holding(n, capacity, steps, s);
    forall i | 0 <= i < |s.workers| ensures s.workers[i].status == Waiting && (s.workers[i].pc.AtWait? || s.workers[i].pc.Exited?) {
      WorkersAtRest(s, i);
    }
    TellNone(s.workers, t);
    CountNone(s.workers, t);
  }
}
