/** The pool's queue is the queue of src/cs_queue.c with the controller as its one consumer. */
module PoolQueue {
  import opened Store
  import Queue
  import opened WorkerPool

  // The queue inside a pool state, with its history.
  function View(s: State): Queue.State {
    Queue.State(s.queue, s.open, s.qsem, s.limit, |s.inflight|, One(s.ctl.Pop?), |s.lost|, One(!s.open && !Stopping(s.ctl)), s.appended, s.taken)
  }

  // What a step of the pool is for the queue.
  function StepOf(a: Step): Option<Queue.Step> {
    match a
    case Enter => Some(Queue.Reserve)
    case Append(t) => Some(Queue.Append(t))
    case Close => Some(Queue.Close)
    case CtlDequeue => Some(Queue.Take)
    case CtlPop => Some(Queue.Pop)
    case _ => None
  }

  // Every step of a reachable pool state is the step of the queue it stands for, or leaves it alone.
  lemma Refines(n: nat, capacity: nat, steps: seq<Step>, s: State, a: Step)
    requires Exec(n, capacity, steps) == Some(s) && Enabled(s, a)
    ensures match StepOf(a)
            case None => View(Do(s, a)) == View(s)
            case Some(b) =>
              && Queue.Enabled(View(s), b) && (b.Pop? && s.queue == [] ==> View(s).spare > 0)
              && Queue.Do(View(s), b) == View(Do(s, a))
  {
    Reachable(n, capacity, steps);
    if a.Enter? {
      EnterView(s);
    } else if a.Append? {
      AppendView(s, a.t);
    } else if StepOf(a).Some? {
      ConsumerView(s, a);
    } else {
      OtherView(s, a);
    }
  }

  lemma EnterView(s: State)
    requires s.next !in s.inflight && Enabled(s, Enter)
    ensures Queue.Enabled(View(s), Queue.Reserve) && Queue.Do(View(s), Queue.Reserve) == View(Do(s, Enter))
  {
  }

  lemma AppendView(s: State, t: Task)
    requires s.inflight !! s.lost && Enabled(s, Append(t))
    ensures Queue.Enabled(View(s), Queue.Append(t)) && Queue.Do(View(s), Queue.Append(t)) == View(Do(s, Append(t)))
  {
    assert t !in s.lost;
    assert |s.inflight - {t}| == |s.inflight| - 1;
  }

  lemma ConsumerView(s: State, a: Step)
    requires QueueOk(s) && Enabled(s, a) && (a.Close? || a.CtlDequeue? || a.CtlPop?)
    ensures var b := StepOf(a).value;
            && Queue.Enabled(View(s), b) && (b.Pop? && s.queue == [] ==> View(s).spare > 0)
            && Queue.Do(View(s), b) == View(Do(s, a))
  {
  }

  lemma OtherView(s: State, a: Step)
    requires Enabled(s, a) && StepOf(a).None?
    ensures View(Do(s, a)) == View(s)
  {
    if ByController(a) {
      ControllerView(s, a);
    } else {
      WorkerView(s, a);
    }
  }

  lemma ControllerView(s: State, a: Step)
    requires Enabled(s, a) && StepOf(a).None? && ByController(a)
    ensures View(Do(s, a)) == View(s)
  {
  }

  lemma WorkerView(s: State, a: Step)
    requires Enabled(s, a) && StepOf(a).None? && !ByController(a)
    ensures View(Do(s, a)) == View(s)
  {
  }
}
