/** src/cs_workerpool.c with the queue of src/cs_queue.c: one controller, n workers, any number
    of producers and waiters, as a state machine with one step per lock or semaphore section. */
module WorkerPool {
  import opened Store

  type Task = nat

  // CS_WS_WAITING, CS_WS_TSK_ASSIGNED, CS_WS_WORKING.
  datatype Status = Waiting | TskAssigned | Working

  // Where a worker thread is: before its semaphore wait, after it, inside tsk_code, before the
  // lock of the task mutex, before the post of the task semaphore, or gone.
  datatype WorkerPc = AtWait | Woken | Running(t: Task) | Reporting(t: Task) | Signalling(t: Task) | Exited

  datatype Worker = Worker(status: Status, task: Option<Task>, shutdown: bool, sem: nat, pc: WorkerPc)

  // Where the controller is: before the queue semaphore, before the pop, before the pool
  // semaphore, reading the status of worker i, before assigning to i, before posting i's
  // semaphore; then, per worker, before setting the flag, before the post, before the join.
  datatype CtlPc =
    | Dequeue | Pop | TakeToken(t: Task) | Scan(t: Task, i: nat) | Assign(t: Task, i: nat) | Notify(i: nat)
    | SetShutdown(i: nat) | PostShutdown(i: nat) | Join(i: nat) | Over

  datatype State = State(
    workers: seq<Worker>, ctl: CtlPc, poolSem: nat,
    queue: seq<Task>, open: bool, qsem: nat, limit: nat,
    inflight: set<Task>,       // producers past the limit semaphore, not yet in the critical section
    next: Task,                // the next task id
    accepted: set<Task>,       // appended to the open queue
    lost: set<Task>,           // offered after the close: the call still returns 0
    log: seq<Task>,            // executions of tsk_code, in the order they begin
    ran: set<Task>,            // executions that have ended
    done: set<Task>,           // tasks with status CS_TSK_RT_DONE
    signals: multiset<Task>,   // values of the task semaphores
    returned: set<Task>,       // cs_wp_tsk_wait has returned for these, found in the table
    missed: set<Task>,         // cs_wp_tsk_wait has returned for these, not found in the table
    appended: seq<Task>,       // the accepted tasks in the order they were appended
    taken: seq<Task>,          // the tasks the controller has taken, in order
    failed: bool)              // an assert of the C code has failed

  function Idle(): Worker { Worker(Waiting, None, false, 0, AtWait) }

  function Init(n: nat, capacity: nat): State {
    State(seq(n, _ => Idle()), Dequeue, n, [], true, 0, capacity, {}, 0, {}, {}, [], {}, {}, multiset{}, {}, {}, [], [], false)
  }

  datatype Step =
    // producers and the shutdown caller
    | Enter | Append(t: Task) | Close
    // controller
    | CtlDequeue | CtlPop | CtlToken | CtlScan | CtlAssign | CtlNotify | CtlSetShutdown | CtlPostShutdown | CtlJoin
    // worker i
    | Wake(i: nat) | Begin(i: nat) | Finish(i: nat) | Report(i: nat) | Signal(i: nat)
    // cs_wp_tsk_wait
    | WaitSeesDone(t: Task) | WaitSem(t: Task) | WaitMisses(t: Task)

  predicate Enabled(s: State, a: Step) {
    match a
    case Enter => s.limit > 0
    case Append(t) => t in s.inflight
    case Close => s.open
    case CtlDequeue => s.ctl.Dequeue? && s.qsem > 0
    case CtlPop => s.ctl.Pop?
    case CtlToken => s.ctl.TakeToken? && s.poolSem > 0
    case CtlScan => s.ctl.Scan?
    case CtlAssign => s.ctl.Assign? && s.ctl.i < |s.workers|
    case CtlNotify => s.ctl.Notify? && s.ctl.i < |s.workers|
    case CtlSetShutdown => s.ctl.SetShutdown? && s.ctl.i < |s.workers|
    case CtlPostShutdown => s.ctl.PostShutdown? && s.ctl.i < |s.workers|
    case CtlJoin => s.ctl.Join? && (s.ctl.i < |s.workers| ==> s.workers[s.ctl.i].pc.Exited?)
    case Wake(i) => i < |s.workers| && s.workers[i].pc.AtWait? && s.workers[i].sem > 0
    case Begin(i) => i < |s.workers| && s.workers[i].pc.Woken?
    case Finish(i) => i < |s.workers| && s.workers[i].pc.Running?
    case Report(i) => i < |s.workers| && s.workers[i].pc.Reporting?
    case Signal(i) => i < |s.workers| && s.workers[i].pc.Signalling?
    case WaitSeesDone(t) => t in s.done
    case WaitSem(t) => t in s.signals
    // an offered task is in the table before anybody else can look there
    case WaitMisses(t) => t !in s.accepted + s.lost + s.inflight
  }

  // After the n-th worker the loop over the workers moves on.
  function AfterShutdown(i: nat, n: nat): CtlPc { if i < n then SetShutdown(i) else Join(0) }

  function Do(s: State, a: Step): State
    requires Enabled(s, a)
  {
    match a
    case Enter => s.(limit := s.limit - 1, inflight := s.inflight + {s.next}, next := s.next + 1)
    case Append(t) =>
      if s.open then
        s.(inflight := s.inflight - {t}, queue := s.queue + [t], qsem := s.qsem + 1, accepted := s.accepted + {t},
           appended := s.appended + [t])
      else
        s.(inflight := s.inflight - {t}, lost := s.lost + {t})
    case Close => s.(open := false, qsem := s.qsem + 1)
    case CtlDequeue => s.(qsem := s.qsem - 1, ctl := Pop)
    case CtlPop =>
      if s.queue == [] && !s.open then s.(ctl := AfterShutdown(0, |s.workers|))
      else if s.queue == [] then s.(failed := true)
      else
        s.(queue := s.queue[1..], limit := s.limit + 1, ctl := TakeToken(s.queue[0]), taken := s.taken + [s.queue[0]],
           failed := s.failed || !(|s.queue| - 1 == s.qsem || !s.open))
    case CtlToken => s.(poolSem := s.poolSem - 1, ctl := Scan(s.ctl.t, 0))
    case CtlScan =>
      if s.ctl.i >= |s.workers| then s.(failed := true)
      else if s.workers[s.ctl.i].status == Waiting then s.(ctl := Assign(s.ctl.t, s.ctl.i))
      else s.(ctl := Scan(s.ctl.t, s.ctl.i + 1))
    case CtlAssign =>
      var i := s.ctl.i;
      s.(workers := s.workers[i := s.workers[i].(status := TskAssigned, task := Some(s.ctl.t))], ctl := Notify(i))
    case CtlNotify =>
      var i := s.ctl.i;
      s.(workers := s.workers[i := s.workers[i].(sem := s.workers[i].sem + 1)], ctl := Dequeue)
    case CtlSetShutdown =>
      var i := s.ctl.i;
      s.(workers := s.workers[i := s.workers[i].(shutdown := true)], ctl := PostShutdown(i))
    case CtlPostShutdown =>
      var i := s.ctl.i;
      s.(workers := s.workers[i := s.workers[i].(sem := s.workers[i].sem + 1)], ctl := AfterShutdown(i + 1, |s.workers|))
    case CtlJoin => s.(ctl := if s.ctl.i < |s.workers| then Join(s.ctl.i + 1) else Over)
    case Wake(i) =>
      var w := s.workers[i];
      s.(workers := s.workers[i := w.(sem := w.sem - 1, pc := Woken)],
         failed := s.failed || !(w.shutdown || w.status == TskAssigned))
    case Begin(i) =>
      var w := s.workers[i];
      if w.shutdown && w.task.None? then s.(workers := s.workers[i := w.(pc := Exited)])
      else if w.task.None? || w.status != TskAssigned then s.(failed := true)
      else
        s.(workers := s.workers[i := w.(status := Working, pc := Running(w.task.value))],
           log := s.log + [w.task.value])
    case Finish(i) =>
      var w := s.workers[i];
      s.(workers := s.workers[i := w.(status := Waiting, task := None, pc := Reporting(w.pc.t))],
         poolSem := s.poolSem + 1, ran := s.ran + {w.pc.t}, failed := s.failed || w.status != Working)
    case Report(i) =>
      var w := s.workers[i];
      s.(workers := s.workers[i := w.(pc := Signalling(w.pc.t))], done := s.done + {w.pc.t})
    case Signal(i) =>
      var w := s.workers[i];
      s.(workers := s.workers[i := w.(pc := AtWait)], signals := s.signals + multiset{w.pc.t})
    case WaitSeesDone(t) => s.(returned := s.returned + {t})
    case WaitSem(t) => s.(signals := s.signals - multiset{t}, returned := s.returned + {t})
    case WaitMisses(t) => s.(missed := s.missed + {t})
  }

  /* ---------- the invariant ---------- */

  // Workers whose shutdown flag is set, and those whose semaphore has been posted for it.
  function Flagged(c: CtlPc, n: nat): nat {
    match c
    case SetShutdown(i) => i
    case PostShutdown(i) => i + 1
    case Join(_) => n
    case Over => n
    case _ => 0
  }

  function Posted(c: CtlPc, n: nat): nat { if c.PostShutdown? then c.i else Flagged(c, n) }

  predicate Stopping(c: CtlPc) { c.SetShutdown? || c.PostShutdown? || c.Join? || c.Over? }

  function One(b: bool): nat { if b then 1 else 0 }

  // Every post of a worker's semaphore is accounted for: by an assignment not yet begun, or by
  // the shutdown; the token in the hand of a woken or exited worker and the post the controller
  // still owes complete the balance.
  ghost predicate WorkerOk(w: Worker, i: nat, c: CtlPc, n: nat) {
    && (w.task.Some? <==> w.status != Waiting)
    && (w.pc.Running? <==> w.status == Working)
    && (w.pc.Running? ==> w.task == Some(w.pc.t))
    && (w.shutdown <==> i < Flagged(c, n))
    && w.sem + One(w.pc.Woken? || w.pc.Exited?) + One(c == Notify(i)) == One(w.status == TskAssigned) + One(i < Posted(c, n))
    && (w.pc.Exited? ==> w.status == Waiting)
  }

  ghost predicate WorkersOk(s: State) {
    forall i :: 0 <= i < |s.workers| ==> WorkerOk(s.workers[i], i, s.ctl, |s.workers|)
  }

  ghost predicate CtlOk(s: State) {
    match s.ctl
    case Scan(_, i) => exists j :: i <= j < |s.workers| && s.workers[j].status == Waiting
    case Assign(_, i) => i < |s.workers| && s.workers[i].status == Waiting
    case Notify(i) => i < |s.workers|
    case SetShutdown(i) => i < |s.workers|
    case PostShutdown(i) => i < |s.workers|
    case Join(i) => i <= |s.workers| && forall j :: 0 <= j < i ==> s.workers[j].pc.Exited?
    case Over => forall j :: 0 <= j < |s.workers| ==> s.workers[j].pc.Exited?
    case _ => true
  }

  // How many workers are WAITING.
  function Free(ws: seq<Worker>): nat {
    if ws == [] then 0 else Free(ws[..|ws| - 1]) + One(ws[|ws| - 1].status == Waiting)
  }

  // The pool semaphore counts the WAITING workers, up to the token the controller holds.
  ghost predicate TokensOk(s: State) { Free(s.workers) == s.poolSem + One(s.ctl.Scan? || s.ctl.Assign?) }

  ghost predicate QueueOk(s: State) {
    && s.qsem + One(s.ctl.Pop?) == |s.queue| + One(!s.open && !Stopping(s.ctl))
    && (Stopping(s.ctl) ==> s.queue == [] && !s.open)
  }

  predicate ByController(a: Step) {
    a.CtlDequeue? || a.CtlPop? || a.CtlToken? || a.CtlScan? || a.CtlAssign? || a.CtlNotify? ||
    a.CtlSetShutdown? || a.CtlPostShutdown? || a.CtlJoin?
  }

  predicate ByWorker(a: Step) { a.Wake? || a.Begin? || a.Finish? || a.Report? || a.Signal? }

  lemma WorkersStep(s: State, a: Step)
    requires WorkersOk(s) && CtlOk(s) && Enabled(s, a)
    ensures WorkersOk(Do(s, a))
  {
    if a.CtlAssign? || a.CtlNotify? || a.CtlSetShutdown? || a.CtlPostShutdown? {
      WorkersByController(s, a);
    } else if ByController(a) {
      WorkersLeftAlone(s, a);
    } else if a.Wake? || a.Begin? {
      WorkersByWaking(s, a);
    } else {
      WorkersByOthers(s, a);
    }
  }

  lemma WorkersLeftAlone(s: State, a: Step)
    requires WorkersOk(s) && Enabled(s, a) && ByController(a)
    requires !a.CtlAssign? && !a.CtlNotify? && !a.CtlSetShutdown? && !a.CtlPostShutdown?
    ensures WorkersOk(Do(s, a))
  {
  }

  lemma WorkersByWaking(s: State, a: Step)
    requires WorkersOk(s) && Enabled(s, a) && (a.Wake? || a.Begin?)
    ensures WorkersOk(Do(s, a))
  {
  }

  lemma WorkersByController(s: State, a: Step)
    requires WorkersOk(s) && CtlOk(s) && Enabled(s, a)
    requires a.CtlAssign? || a.CtlNotify? || a.CtlSetShutdown? || a.CtlPostShutdown?
    ensures WorkersOk(Do(s, a))
  {
    if a.CtlAssign? || a.CtlNotify? {
      WorkersByAssigning(s, a);
    } else {
      WorkersByStopping(s, a);
    }
  }

  lemma WorkersByAssigning(s: State, a: Step)
    requires WorkersOk(s) && CtlOk(s) && Enabled(s, a) && (a.CtlAssign? || a.CtlNotify?)
    ensures WorkersOk(Do(s, a))
  {
  }

  lemma WorkersByStopping(s: State, a: Step)
    requires WorkersOk(s) && CtlOk(s) && Enabled(s, a) && (a.CtlSetShutdown? || a.CtlPostShutdown?)
    ensures WorkersOk(Do(s, a))
  {
  }

  lemma WorkersByOthers(s: State, a: Step)
    requires WorkersOk(s) && Enabled(s, a) && !ByController(a) && !a.Wake? && !a.Begin?
    ensures WorkersOk(Do(s, a))
  {
  }

  lemma {:induction false} FreeUpdate(ws: seq<Worker>, i: nat, w: Worker)
    requires i < |ws|
    ensures Free(ws[i := w]) + One(ws[i].status == Waiting) == Free(ws) + One(w.status == Waiting)
  {
    var n := |ws| - 1;
    if i == n {
      assert ws[i := w][..n] == ws[..n];
    } else {
      assert ws[i := w][..n] == ws[..n][i := w];
      FreeUpdate(ws[..n], i, w);
    }
  }

  lemma {:induction false} FreeSome(ws: seq<Worker>) returns (i: nat)
    requires Free(ws) > 0
    ensures i < |ws| && ws[i].status == Waiting
  {
    var n := |ws| - 1;
    if ws[n].status == Waiting {
      i := n;
    } else {
      i := FreeSome(ws[..n]);
    }
  }

  // The one worker whose record a step writes, or |workers|.
  function Touched(s: State, a: Step): nat
    requires Enabled(s, a)
  {
    match a
    case CtlAssign => s.ctl.i
    case CtlNotify => s.ctl.i
    case CtlSetShutdown => s.ctl.i
    case CtlPostShutdown => s.ctl.i
    case Wake(i) => i
    case Begin(i) => i
    case Finish(i) => i
    case Report(i) => i
    case Signal(i) => i
    case _ => |s.workers|
  }

  lemma TokensStep(s: State, a: Step)
    requires TokensOk(s) && WorkersOk(s) && CtlOk(s) && Enabled(s, a)
    ensures TokensOk(Do(s, a))
  {
    if ByController(a) {
      TokensByController(s, a);
    } else {
      TokensByOthers(s, a);
    }
  }

  lemma TokensByController(s: State, a: Step)
    requires TokensOk(s) && WorkersOk(s) && CtlOk(s) && Enabled(s, a) && ByController(a)
    ensures TokensOk(Do(s, a))
  {
    var s', i := Do(s, a), Touched(s, a);
    if i < |s.workers| {
      FreeUpdate(s.workers, i, s'.workers[i]);
      assert s'.workers == s.workers[i := s'.workers[i]];
    }
  }

  lemma TokensByOthers(s: State, a: Step)
    requires TokensOk(s) && WorkersOk(s) && Enabled(s, a) && !ByController(a)
    ensures TokensOk(Do(s, a))
  {
    var s', i := Do(s, a), Touched(s, a);
    if i < |s.workers| {
      FreeUpdate(s.workers, i, s'.workers[i]);
      assert s'.workers == s.workers[i := s'.workers[i]];
    }
  }

  // A token in the controller's hand means that the scan finds a WAITING worker, and that this
  // worker stays WAITING until the controller itself assigns to it.
  lemma CtlStep(s: State, a: Step)
    requires TokensOk(s) && WorkersOk(s) && CtlOk(s) && QueueOk(s) && Enabled(s, a)
    ensures CtlOk(Do(s, a)) && QueueOk(Do(s, a))
  {
    if ByController(a) {
      CtlStepOwn(s, a);
    } else {
      CtlStepOther(s, a);
    }
  }

  lemma CtlStepOwn(s: State, a: Step)
    requires TokensOk(s) && WorkersOk(s) && CtlOk(s) && QueueOk(s) && Enabled(s, a) && ByController(a)
    ensures CtlOk(Do(s, a)) && QueueOk(Do(s, a))
  {
    if a.CtlToken? || a.CtlScan? {
      CtlStepScan(s, a);
    } else {
      CtlStepRest(s, a);
    }
  }

  lemma CtlStepScan(s: State, a: Step)
    requires TokensOk(s) && CtlOk(s) && QueueOk(s) && Enabled(s, a) && (a.CtlToken? || a.CtlScan?)
    ensures CtlOk(Do(s, a)) && QueueOk(Do(s, a))
  {
    var s' := Do(s, a);
    if a.CtlToken? {
      var j := FreeSome(s.workers);
      assert s'.workers[j].status == Waiting;
    } else if s'.ctl.Scan? {
      var j :| s.ctl.i <= j < |s.workers| && s.workers[j].status == Waiting;
      assert s'.workers[j].status == Waiting;
    }
  }

  lemma CtlStepRest(s: State, a: Step)
    requires CtlOk(s) && QueueOk(s) && Enabled(s, a) && ByController(a) && !a.CtlToken? && !a.CtlScan?
    ensures CtlOk(Do(s, a)) && QueueOk(Do(s, a))
  {
  }

  lemma CtlStepOther(s: State, a: Step)
    requires WorkersOk(s) && CtlOk(s) && QueueOk(s) && Enabled(s, a) && !ByController(a)
    ensures CtlOk(Do(s, a)) && QueueOk(Do(s, a))
  {
    var s' := Do(s, a);
    if s.ctl.Scan? {
      var j :| s.ctl.i <= j < |s.workers| && s.workers[j].status == Waiting;
      assert s'.workers[j].status == Waiting;
    }
  }

  /* ---------- where every task is ---------- */

  function Occurs(q: seq<Task>, t: Task): nat {
    if q == [] then 0 else Occurs(q[..|q| - 1], t) + One(q[|q| - 1] == t)
  }

  predicate Holds(c: CtlPc, t: Task) { (c.TakeToken? || c.Scan? || c.Assign?) && c.t == t }

  predicate AssignedTo(w: Worker, t: Task) { w.status == TskAssigned && w.task == Some(t) }

  predicate RunBy(w: Worker, t: Task) { w.pc == Running(t) }

  // How many workers have t assigned, or run it.
  function Assigned(ws: seq<Worker>, t: Task): nat {
    if ws == [] then 0 else Assigned(ws[..|ws| - 1], t) + One(AssignedTo(ws[|ws| - 1], t))
  }

  function RunningAt(ws: seq<Worker>, t: Task): nat {
    if ws == [] then 0 else RunningAt(ws[..|ws| - 1], t) + One(RunBy(ws[|ws| - 1], t))
  }

  lemma {:induction false} OccursFirst(q: seq<Task>, t: Task)
    requires q != []
    ensures Occurs(q, t) == One(q[0] == t) + Occurs(q[1..], t)
  {
    var n := |q| - 1;
    if n > 0 {
      OccursFirst(q[..n], t);
      assert q[1..][..n - 1] == q[..n][1..];
    }
  }

  lemma {:induction false} CountUpdate(ws: seq<Worker>, i: nat, w: Worker, t: Task)
    requires i < |ws|
    ensures Assigned(ws[i := w], t) + One(AssignedTo(ws[i], t)) == Assigned(ws, t) + One(AssignedTo(w, t))
    ensures RunningAt(ws[i := w], t) + One(RunBy(ws[i], t)) == RunningAt(ws, t) + One(RunBy(w, t))
  {
    var n := |ws| - 1;
    if i == n {
      assert ws[i := w][..n] == ws[..n];
    } else {
      assert ws[i := w][..n] == ws[..n][i := w];
      CountUpdate(ws[..n], i, w, t);
    }
  }

  lemma {:induction false} CountNone(ws: seq<Worker>, t: Task)
    requires forall i :: 0 <= i < |ws| ==> ws[i].status == Waiting && !ws[i].pc.Running?
    ensures Assigned(ws, t) == RunningAt(ws, t) == 0
  {
    if ws != [] {
      CountNone(ws[..|ws| - 1], t);
    }
  }

  // In how many places t is: queued, held by the controller, assigned, running, or run.
  function Places(s: State, t: Task): nat {
    Occurs(s.queue, t) + One(Holds(s.ctl, t)) + Assigned(s.workers, t) + RunningAt(s.workers, t) + One(t in s.ran)
  }

  // An accepted task is in one place, any other in none; what has begun is running or has run.
  ghost predicate Conserved(s: State, t: Task) {
    && Places(s, t) == One(t in s.accepted)
    && Occurs(s.log, t) == RunningAt(s.workers, t) + One(t in s.ran)
  }

  ghost predicate Numbered(s: State) {
    && (forall t :: t in s.inflight || t in s.accepted || t in s.lost ==> t < s.next)
    && s.inflight !! s.accepted && s.inflight !! s.lost && s.accepted !! s.lost
  }

  // A full queue, an open slot or a slot kept by a rejected call: the limit semaphore counts the rest.
  ghost predicate LimitOk(s: State, capacity: nat) {
    s.limit + |s.queue| + |s.inflight| + |s.lost| == capacity
  }

  ghost predicate Reported(s: State) {
    && s.done <= s.ran && s.returned <= s.done
    && (forall t :: t in s.signals ==> t in s.done)
    && (forall i :: 0 <= i < |s.workers| && s.workers[i].pc.Reporting? ==> s.workers[i].pc.t in s.ran)
    && (forall i :: 0 <= i < |s.workers| && s.workers[i].pc.Signalling? ==> s.workers[i].pc.t in s.done)
  }

  lemma NumberedStep(s: State, a: Step, capacity: nat)
    requires Numbered(s) && LimitOk(s, capacity) && Enabled(s, a)
    ensures Numbered(Do(s, a)) && LimitOk(Do(s, a), capacity)
  {
    if a.Append? {
      AppendNumbered(s, a.t, capacity);
    } else if a.Enter? {
      EnterNumbered(s, capacity);
    } else {
      QuietNumbered(s, a, capacity);
    }
  }

  lemma EnterNumbered(s: State, capacity: nat)
    requires Numbered(s) && LimitOk(s, capacity) && Enabled(s, Enter)
    ensures Numbered(Do(s, Enter)) && LimitOk(Do(s, Enter), capacity)
  {
  }

  lemma QuietNumbered(s: State, a: Step, capacity: nat)
    requires Numbered(s) && LimitOk(s, capacity) && Enabled(s, a) && !a.Append? && !a.Enter?
    ensures Numbered(Do(s, a)) && LimitOk(Do(s, a), capacity)
  {
    var s' := Do(s, a);
    assert s'.inflight == s.inflight && s'.accepted == s.accepted && s'.lost == s.lost && s'.next == s.next;
    assert s'.limit + |s'.queue| == s.limit + |s.queue|;
  }

  lemma AppendNumbered(s: State, t: Task, capacity: nat)
    requires Numbered(s) && LimitOk(s, capacity) && t in s.inflight
    ensures Numbered(Do(s, Append(t))) && LimitOk(Do(s, Append(t)), capacity)
  {
    assert |s.inflight - {t}| == |s.inflight| - 1;
    assert |s.lost + {t}| == |s.lost| + 1;
  }

  // First in, first out: what the controller has taken, followed by what is queued.
  ghost predicate InOrder(s: State) {
    && s.taken + s.queue == s.appended
    && (s.ctl.TakeToken? || s.ctl.Scan? || s.ctl.Assign? ==> s.taken != [] && s.ctl.t == s.taken[|s.taken| - 1])
  }

  lemma InOrderStep(s: State, a: Step)
    requires InOrder(s) && Enabled(s, a)
    ensures InOrder(Do(s, a))
  {
    if a.CtlPop? {
      InOrderPop(s);
    } else if a.Append? {
      InOrderAppend(s, a.t);
    } else {
      InOrderQuietly(s, a);
    }
  }

  lemma InOrderPop(s: State)
    requires InOrder(s) && Enabled(s, CtlPop)
    ensures InOrder(Do(s, CtlPop))
  {
    if s.queue != [] {
      assert s.taken + [s.queue[0]] + s.queue[1..] == s.taken + s.queue;
    }
  }

  lemma InOrderAppend(s: State, t: Task)
    requires InOrder(s) && Enabled(s, Append(t))
    ensures InOrder(Do(s, Append(t)))
  {
    assert s.taken + (s.queue + [t]) == (s.taken + s.queue) + [t];
  }

  lemma InOrderQuietly(s: State, a: Step)
    requires InOrder(s) && Enabled(s, a) && !a.CtlPop? && !a.Append?
    ensures InOrder(Do(s, a))
  {
  }

  lemma ReportedStep(s: State, a: Step)
    requires Reported(s) && Enabled(s, a)
    ensures Reported(Do(s, a))
  {
    if a.Finish? || a.Report? || a.Signal? {
      ReportedByWorker(s, a);
    } else if ByController(a) {
      ReportedByController(s, a);
    } else {
      ReportedByOthers(s, a);
    }
  }

  lemma ReportedByWorker(s: State, a: Step)
    requires Reported(s) && Enabled(s, a) && (a.Finish? || a.Report? || a.Signal?)
    ensures Reported(Do(s, a))
  {
  }

  lemma ReportedByController(s: State, a: Step)
    requires Reported(s) && Enabled(s, a) && ByController(a)
    ensures Reported(Do(s, a))
  {
  }

  lemma ReportedByOthers(s: State, a: Step)
    requires Reported(s) && Enabled(s, a) && !ByController(a) && !a.Finish? && !a.Report? && !a.Signal?
    ensures Reported(Do(s, a))
  {
  }

  lemma ConservedByController(s: State, a: Step, t: Task)
    requires Conserved(s, t) && WorkersOk(s) && CtlOk(s) && Enabled(s, a) && ByController(a)
    ensures Conserved(Do(s, a), t)
  {
    if a.CtlPop? {
      ConservedByPop(s, t);
    } else if Touched(s, a) < |s.workers| {
      ConservedByAssigning(s, a, t);
    }
  }

  lemma ConservedByPop(s: State, t: Task)
    requires Conserved(s, t) && Enabled(s, CtlPop)
    ensures Conserved(Do(s, CtlPop), t)
  {
    if s.queue != [] {
      OccursFirst(s.queue, t);
    }
  }

  lemma ConservedByAssigning(s: State, a: Step, t: Task)
    requires Conserved(s, t) && WorkersOk(s) && CtlOk(s) && Enabled(s, a) && ByController(a) && Touched(s, a) < |s.workers|
    ensures Conserved(Do(s, a), t)
  {
    var i := Touched(s, a);
    var s' := Do(s, a);
    CountUpdate(s.workers, i, s'.workers[i], t);
    assert s'.workers == s.workers[i := s'.workers[i]];
  }

  lemma ConservedByWorker(s: State, a: Step, t: Task)
    requires Conserved(s, t) && WorkersOk(s) && Enabled(s, a) && ByWorker(a)
    ensures Conserved(Do(s, a), t)
  {
    if a.Begin? {
      ConservedByBegin(s, a.i, t);
    } else {
      ConservedByRunner(s, a, t);
    }
  }

  lemma ConservedByBegin(s: State, i: nat, t: Task)
    requires Conserved(s, t) && Enabled(s, Begin(i))
    ensures Conserved(Do(s, Begin(i)), t)
  {
    var w := s.workers[i];
    if w.shutdown && w.task.None? {
      ConservedByExit(s, i, t);
    } else if w.task.Some? && w.status == TskAssigned {
      ConservedByStart(s, i, w.task.value, t);
    }
  }

  lemma ConservedByExit(s: State, i: nat, t: Task)
    requires Conserved(s, t) && i < |s.workers| && s.workers[i].pc.Woken?
    ensures Conserved(s.(workers := s.workers[i := s.workers[i].(pc := Exited)]), t)
  {
    CountUpdate(s.workers, i, s.workers[i].(pc := Exited), t);
  }

  lemma ConservedByStart(s: State, i: nat, x: Task, t: Task)
    requires Conserved(s, t) && i < |s.workers| && s.workers[i].pc.Woken?
    requires s.workers[i].task == Some(x) && s.workers[i].status == TskAssigned
    ensures Conserved(s.(workers := s.workers[i := s.workers[i].(status := Working, pc := Running(x))], log := s.log + [x]), t)
  {
    CountUpdate(s.workers, i, s.workers[i].(status := Working, pc := Running(x)), t);
    OccursMore(s.log, x, t);
  }

  lemma OccursMore(q: seq<Task>, x: Task, t: Task)
    ensures Occurs(q + [x], t) == Occurs(q, t) + One(x == t)
  {
    assert (q + [x])[..|q|] == q;
  }

  lemma ConservedByRunner(s: State, a: Step, t: Task)
    requires Conserved(s, t) && WorkersOk(s) && Enabled(s, a) && ByWorker(a) && !a.Begin?
    ensures Conserved(Do(s, a), t)
  {
    var s' := Do(s, a);
    CountUpdate(s.workers, a.i, s'.workers[a.i], t);
    assert s'.workers == s.workers[a.i := s'.workers[a.i]];
    RunningIn(s.workers, a.i, t);
  }

  lemma ConservedStep(s: State, a: Step, t: Task)
    requires Conserved(s, t) && Numbered(s) && WorkersOk(s) && CtlOk(s) && Enabled(s, a)
    ensures Conserved(Do(s, a), t)
  {
    if ByController(a) {
      ConservedByController(s, a, t);
    } else if ByWorker(a) {
      ConservedByWorker(s, a, t);
    } else if a.Append? {
      ConservedByAppend(s, a.t, t);
    } else {
      ConservedQuietly(s, a, t);
    }
  }

  lemma ConservedByAppend(s: State, x: Task, t: Task)
    requires Conserved(s, t) && s.inflight !! s.accepted && Enabled(s, Append(x))
    ensures Conserved(Do(s, Append(x)), t)
  {
    OccursMore(s.queue, x, t);
  }

  lemma ConservedQuietly(s: State, a: Step, t: Task)
    requires Conserved(s, t) && Enabled(s, a) && !ByController(a) && !ByWorker(a) && !a.Append?
    ensures Conserved(Do(s, a), t)
  {
  }

  lemma {:induction false} RunningIn(ws: seq<Worker>, i: nat, t: Task)
    requires i < |ws|
    ensures ws[i].pc == Running(t) ==> RunningAt(ws, t) > 0
  {
    if i < |ws| - 1 {
      RunningIn(ws[..|ws| - 1], i, t);
    }
  }

  /* ---------- all runs ---------- */

  ghost predicate Inv(s: State, capacity: nat) {
    && WorkersOk(s) && CtlOk(s) && TokensOk(s) && QueueOk(s)
    && Numbered(s) && LimitOk(s, capacity) && Reported(s) && InOrder(s) && (forall t :: Conserved(s, t))
  }

  // The state after the given steps, if each of them could be taken.
  function Exec(n: nat, capacity: nat, steps: seq<Step>): Option<State> {
    if steps == [] then Some(Init(n, capacity))
    else
      var s := Exec(n, capacity, steps[..|steps| - 1]);
      var a := steps[|steps| - 1];
      if s.Some? && Enabled(s.value, a) then Some(Do(s.value, a)) else None
  }

  lemma {:induction false} FreeIdle(n: nat)
    ensures Free(seq(n, _ => Idle())) == n
  {
    if n > 0 {
      assert seq(n, _ => Idle())[..n - 1] == seq(n - 1, _ => Idle());
      FreeIdle(n - 1);
    }
  }

  lemma InitInv(n: nat, capacity: nat)
    ensures Inv(Init(n, capacity), capacity)
  {
    FreeIdle(n);
    forall t ensures Conserved(Init(n, capacity), t) {
      CountNone(Init(n, capacity).workers, t);
    }
  }

  // No step of a state that satisfies the invariant makes an assert of the C code fail.
  lemma NoAssertFails(s: State, a: Step)
    requires WorkersOk(s) && CtlOk(s) && QueueOk(s) && Enabled(s, a)
    ensures Do(s, a).failed == s.failed
  {
  }

  lemma StepInv(s: State, a: Step, capacity: nat)
    requires Inv(s, capacity) && Enabled(s, a)
    ensures Inv(Do(s, a), capacity)
  {
    WorkersStep(s, a);
    TokensStep(s, a);
    CtlStep(s, a);
    NumberedStep(s, a, capacity);
    ReportedStep(s, a);
    InOrderStep(s, a);
    forall t ensures Conserved(Do(s, a), t) {
      ConservedStep(s, a, t);
    }
  }

  // Every reachable state satisfies the invariant and no assert has failed on the way.
  lemma {:induction false} Reachable(n: nat, capacity: nat, steps: seq<Step>)
    ensures var s := Exec(n, capacity, steps); s.Some? ==> Inv(s.value, capacity) && !s.value.failed && |s.value.workers| == n
  {
    if steps == [] {
      InitInv(n, capacity);
    } else {
      Reachable(n, capacity, steps[..|steps| - 1]);
      var s := Exec(n, capacity, steps[..|steps| - 1]);
      var a := steps[|steps| - 1];
      if s.Some? && Enabled(s.value, a) {
        StepInv(s.value, a, capacity);
        NoAssertFails(s.value, a);
      }
    }
  }

  /* ---------- what the pool promises ---------- */

  // While the controller holds a pool token, the rest of its scan contains a WAITING worker; the
  // worker it then assigns to has no task that could be overwritten, and is still there.
  lemma ScanSucceeds(n: nat, capacity: nat, steps: seq<Step>, s: State)
    requires Exec(n, capacity, steps) == Some(s)
    ensures !s.failed && |s.workers| == n && Free(s.workers) == s.poolSem + One(s.ctl.Scan? || s.ctl.Assign?)
    ensures s.ctl.Scan? ==> exists j :: s.ctl.i <= j < n && s.workers[j].status == Waiting
    ensures s.ctl.Assign? ==>
              s.ctl.i < n && s.workers[s.ctl.i].task == None && !s.workers[s.ctl.i].shutdown && !s.workers[s.ctl.i].pc.Exited?
  {
    Reachable(n, capacity, steps);
  }

  // A task the open queue accepted is in exactly one place and is never begun twice; a task
  // offered after the close is nowhere.
  lemma TasksConserved(n: nat, capacity: nat, steps: seq<Step>, s: State, t: Task)
    requires Exec(n, capacity, steps) == Some(s)
    ensures Places(s, t) == One(t in s.accepted)
    ensures Occurs(s.log, t) <= 1
    ensures t in s.lost ==> Places(s, t) == 0 && Occurs(s.log, t) == 0 && t !in s.returned
  {
    Reachable(n, capacity, steps);
    assert Conserved(s, t);
  }

  // When the controller has ended, all workers have, none with a task, and exactly the accepted
  // tasks have been executed, each once.
  lemma ShutdownComplete(n: nat, capacity: nat, steps: seq<Step>, s: State)
    requires Exec(n, capacity, steps) == Some(s) && s.ctl.Over?
    ensures !s.open && s.queue == [] && |s.workers| == n
    ensures forall i :: 0 <= i < n ==> s.workers[i].pc.Exited? && s.workers[i].task == None
    ensures s.ran == s.accepted
    ensures forall t :: Occurs(s.log, t) == One(t in s.accepted)
  {
    Reachable(n, capacity, steps);
    forall t ensures Occurs(s.log, t) == One(t in s.accepted) && (t in s.ran <==> t in s.accepted) {
      assert Conserved(s, t);
      CountNone(s.workers, t);
    }
  }

  // cs_wp_tsk_wait returns only after the task has been executed.
  lemma WaitReturnsAfterRun(n: nat, capacity: nat, steps: seq<Step>, s: State, t: Task)
    requires Exec(n, capacity, steps) == Some(s) && t in s.returned
    ensures t in s.ran && t in s.accepted && Occurs(s.log, t) == 1
  {
    Reachable(n, capacity, steps);
    assert Conserved(s, t);
  }

  // A wait returns without looking at the task only for an id that is not in the table; an id that
  // cs_wp_tsk_enqueue has returned is, from then on.
  lemma {:induction false} KnownStaysKnown(n: nat, capacity: nat, steps: seq<Step>, j: nat, t: Task)
    requires j <= |steps| && Exec(n, capacity, steps).Some? && Offered(Exec(n, capacity, steps[..j]), t)
    ensures Offered(Exec(n, capacity, steps), t) && !Enabled(Exec(n, capacity, steps).value, WaitMisses(t))
  {
    if j == |steps| {
      assert steps[..j] == steps;
    } else {
      assert steps[..|steps| - 1][..j] == steps[..j];
      OfferedBefore(n, capacity, steps);
      KnownStaysKnown(n, capacity, steps[..|steps| - 1], j, t);
      OfferedNext(n, capacity, steps, t);
    }
  }

  // The task with id t has been offered to the queue.
  predicate Offered(s: Option<State>, t: Task) { s.Some? && t in s.value.accepted + s.value.lost }

  lemma OfferedBefore(n: nat, capacity: nat, steps: seq<Step>)
    requires steps != [] && Exec(n, capacity, steps).Some?
    ensures Exec(n, capacity, steps[..|steps| - 1]).Some?
  {
  }

  lemma OfferedNext(n: nat, capacity: nat, steps: seq<Step>, t: Task)
    requires steps != [] && Exec(n, capacity, steps).Some? && Offered(Exec(n, capacity, steps[..|steps| - 1]), t)
    ensures Offered(Exec(n, capacity, steps), t)
  {
    OffersGrow(Exec(n, capacity, steps[..|steps| - 1]).value, steps[|steps| - 1]);
  }

  lemma OffersGrow(s: State, a: Step)
    requires Enabled(s, a)
    ensures s.accepted <= Do(s, a).accepted && s.lost <= Do(s, a).lost
  {
  }

  // The controller takes the tasks in the order in which they were appended.
  lemma TakenInOrder(n: nat, capacity: nat, steps: seq<Step>, s: State)
    requires Exec(n, capacity, steps) == Some(s)
    ensures s.taken + s.queue == s.appended && (s.ctl.Over? ==> s.taken == s.appended)
    ensures s.ctl.TakeToken? || s.ctl.Scan? || s.ctl.Assign? ==> s.taken != [] && s.ctl.t == s.taken[|s.taken| - 1]
  {
    Reachable(n, capacity, steps);
  }

  // The queue never holds more than its capacity, and an offer after the close costs a slot for good.
  lemma QueueBounded(n: nat, capacity: nat, steps: seq<Step>, s: State)
    requires Exec(n, capacity, steps) == Some(s)
    ensures |s.queue| + |s.inflight| + |s.lost| + s.limit == capacity
    ensures s.open && !s.ctl.Pop? ==> s.qsem == |s.queue|
  {
    Reachable(n, capacity, steps);
  }
}
