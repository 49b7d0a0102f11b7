/** src/cs_queue.c: a bounded queue that can be closed.  Two semaphores guard a doubly linked
    list; each call is a semaphore wait and then a critical section, and other calls may come
    between the two. */
module Queue {
  import opened Store

  type Data = int

  // The third value of cs_queue_status.
  const QUEUE_FULL := 2

  /* ---------- the queue as a state machine ---------- */

  // items: head first.  entering: calls past the limit semaphore that have not yet appended;
  // popping: calls past the queue semaphore that have not yet popped; lost: slots taken by calls
  // that found the queue closed; spare: posts of cs_queue_close not yet used up.
  datatype State = State(items: seq<Data>, open: bool, qsem: nat, limit: nat,
                         entering: nat, popping: nat, lost: nat, spare: nat,
                         accepted: seq<Data>, popped: seq<Data>)

  function Init(capacity: nat): State { State([], true, 0, capacity, 0, 0, 0, 0, [], []) }

  datatype Step = Reserve | Append(x: Data) | Take | Pop | Close

  predicate Enabled(s: State, a: Step) {
    match a
    case Reserve => s.limit > 0
    case Append(_) => s.entering > 0
    case Take => s.qsem > 0
    case Pop => s.popping > 0
    case Close => true
  }

  ghost predicate Inv(s: State, capacity: nat) {
    && s.limit + |s.items| + s.entering + s.lost == capacity
    && s.qsem + s.popping == |s.items| + s.spare
    && (s.open ==> s.spare == 0 && s.lost == 0)
    && s.popped + s.items == s.accepted
  }

  function Do(s: State, a: Step): State
    requires Enabled(s, a)
    requires a.Pop? && s.items == [] ==> s.spare > 0
  {
    match a
    case Reserve => s.(limit := s.limit - 1, entering := s.entering + 1)
    case Append(x) =>
      if s.open then s.(items := s.items + [x], qsem := s.qsem + 1, entering := s.entering - 1, accepted := s.accepted + [x])
      else s.(entering := s.entering - 1, lost := s.lost + 1)
    case Take => s.(qsem := s.qsem - 1, popping := s.popping + 1)
    case Pop =>
      if s.items == [] then s.(popping := s.popping - 1, spare := s.spare - 1)
      else s.(items := s.items[1..], limit := s.limit + 1, popping := s.popping - 1, popped := s.popped + [s.items[0]])
    case Close => s.(open := false, qsem := s.qsem + 1, spare := s.spare + 1)
  }

  // The second assert of cs_queue_dequeue: after a pop the semaphore counts what is left.
  predicate CountAssertHolds(s: State)
    requires s.items != []
  {
    |s.items| - 1 == s.qsem || !s.open
  }

  // Every step keeps the accounts: no slot is lost while the queue is open, and what has come out
  // followed by what is inside is what has been accepted, in order.
  lemma StepInv(s: State, a: Step, capacity: nat)
    requires Inv(s, capacity) && Enabled(s, a)
    ensures a.Pop? && s.items == [] ==> s.spare > 0
    ensures Inv(Do(s, a), capacity) && |Do(s, a).items| <= capacity
  {
    if a.Pop? && s.items != [] {
      assert s.popped + [s.items[0]] + s.items[1..] == s.popped + s.items;
    }
    if a.Append? && s.open {
      assert s.popped + (s.items + [a.x]) == (s.popped + s.items) + [a.x];
    }
  }

  function Exec(capacity: nat, steps: seq<Step>): Option<State> {
    if steps == [] then Some(Init(capacity))
    else
      var s := Exec(capacity, steps[..|steps| - 1]);
      var a := steps[|steps| - 1];
      if s.Some? && Enabled(s.value, a) && (a.Pop? && s.value.items == [] ==> s.value.spare > 0)
      then Some(Do(s.value, a)) else None
  }

  lemma {:induction false} Reachable(capacity: nat, steps: seq<Step>)
    ensures var s := Exec(capacity, steps); s.Some? ==> Inv(s.value, capacity)
  {
    if steps != [] {
      Reachable(capacity, steps[..|steps| - 1]);
      var s := Exec(capacity, steps[..|steps| - 1]);
      var a := steps[|steps| - 1];
      if s.Some? && Enabled(s.value, a) {
        StepInv(s.value, a, capacity);
      }
    }
  }

  // A pop never finds an open queue empty, so the first assert of cs_queue_dequeue holds for any
  // number of consumers; the second one holds just when no other consumer is between its
  // semaphore and its critical section, or the queue is closed.
  lemma PopAsserts(capacity: nat, steps: seq<Step>, s: State)
    requires Exec(capacity, steps) == Some(s) && Enabled(s, Pop)
    ensures s.items == [] ==> !s.open && s.spare > 0
    ensures s.items != [] ==> (CountAssertHolds(s) <==> s.popping == 1 || !s.open)
  {
    Reachable(capacity, steps);
  }

  // Two consumers can make it fail.
  lemma TwoConsumers() returns (s: State)
    ensures Exec(2, [Reserve, Append(7), Reserve, Append(8), Take, Take]) == Some(s)
    ensures Enabled(s, Pop) && s.items == [7, 8] && s.open && !CountAssertHolds(s)
  {
    var e1 := [Reserve];
    var e2 := e1 + [Append(7)];
    var e3 := e2 + [Reserve];
    var e4 := e3 + [Append(8)];
    var e5 := e4 + [Take];
    assert e5 + [Take] == [Reserve, Append(7), Reserve, Append(8), Take, Take];
    assert [] + [Reserve] == e1;
    s := Next(2, [], Init(2), Reserve);
    s := Next(2, e1, s, Append(7));
    s := Next(2, e2, s, Reserve);
    s := Next(2, e3, s, Append(8));
    s := Next(2, e4, s, Take);
    s := Next(2, e5, s, Take);
  }

  lemma Next(capacity: nat, steps: seq<Step>, s: State, a: Step) returns (s': State)
    requires Exec(capacity, steps) == Some(s) && Enabled(s, a) && !a.Pop?
    ensures s' == Do(s, a) && Exec(capacity, steps + [a]) == Some(s')
  {
    s' := Do(s, a);
    assert (steps + [a])[..|steps|] == steps;
  }

  // A consumer is told that there is nothing more only when all that was ever accepted is out;
  // from the close on nothing is accepted.
  lemma NothingAfterNull(capacity: nat, steps: seq<Step>, s: State, a: Step)
    requires Exec(capacity, steps) == Some(s) && Enabled(s, a)
    ensures a.Pop? && s.items == [] ==> !s.open && s.popped == s.accepted
    ensures a.Pop? && s.items != [] ==> |s.popped| < |s.accepted| && s.items[0] == s.accepted[|s.popped|]
    ensures !s.open && (a.Pop? && s.items == [] ==> s.spare > 0) ==> !Do(s, a).open && Do(s, a).accepted == s.accepted
  {
    Reachable(capacity, steps);
    if s.items != [] {
      assert s.accepted[|s.popped|] == s.items[0];
    }
  }

  // The single consumer of a closed queue, k calls in a row.
  function Drain(s: State, k: nat): State
    requires s.popping == 0 && s.spare > 0 && s.qsem == |s.items| + s.spare && k <= |s.items|
    decreases k
  {
    if k == 0 then s else Drain(Do(Do(s, Take), Pop), k - 1)
  }

  // It gets every remaining element, in order, without being blocked, and then the null pointer.
  lemma {:induction false} DrainAll(s: State, k: nat)
    requires s.popping == 0 && s.spare > 0 && s.qsem == |s.items| + s.spare && k <= |s.items|
    ensures var s' := Drain(s, k);
            && s'.popped == s.popped + s.items[..k] && s'.items == s.items[k..]
            && s'.popping == 0 && s'.spare == s.spare && s'.qsem == |s'.items| + s'.spare
            && Enabled(s', Take)
            && (k == |s.items| ==> Do(s', Take).items == [] && Do(Do(s', Take), Pop).popped == s.popped + s.items)
    decreases k
  {
    if k > 0 {
      var s1 := Do(Do(s, Take), Pop);
      DrainAll(s1, k - 1);
      assert s.popped + [s.items[0]] + s.items[1..][..k - 1] == s.popped + s.items[..k];
      assert s.items[1..][k - 1..] == s.items[k..];
    }
    if k == |s.items| {
      assert s.items[..k] == s.items;
    }
  }

  // The calls of cs_queue_close, and the pops that found nothing and yielded NULL.
  function Closes(steps: seq<Step>): nat {
    if steps == [] then 0 else Closes(steps[..|steps| - 1]) + (if steps[|steps| - 1].Close? then 1 else 0)
  }

  function Nulls(capacity: nat, steps: seq<Step>): nat {
    if steps == [] then 0
    else
      var s := Exec(capacity, steps[..|steps| - 1]);
      Nulls(capacity, steps[..|steps| - 1]) + (if s.Some? && s.value.items == [] && steps[|steps| - 1].Pop? then 1 else 0)
  }

  // Every close leaves one post for one NULL.
  lemma {:induction false} SpareCount(capacity: nat, steps: seq<Step>)
    requires Exec(capacity, steps).Some?
    ensures var s := Exec(capacity, steps).value;
            s.spare + Nulls(capacity, steps) == Closes(steps) && (s.open <==> Closes(steps) == 0)
  {
    if steps != [] {
      SpareCount(capacity, steps[..|steps| - 1]);
      SpareNext(capacity, steps);
    }
  }

  lemma SpareNext(capacity: nat, steps: seq<Step>)
    requires steps != [] && Exec(capacity, steps).Some?
    ensures var s, s' := Exec(capacity, steps[..|steps| - 1]).value, Exec(capacity, steps).value;
            var prefix := steps[..|steps| - 1];
            && s'.spare + Nulls(capacity, steps) - Closes(steps) == s.spare + Nulls(capacity, prefix) - Closes(prefix)
            && (s'.open <==> s.open && Closes(steps) == Closes(prefix))
  {
  }

  // Once the queue is closed, at step j of a run, whatever other calls come in between: nothing is
  // accepted any more, and what is popped continues with what was inside, in order.
  lemma ClosedInOrder(capacity: nat, steps: seq<Step>, j: nat, s: State, s': State)
    requires j <= |steps| && Exec(capacity, steps[..j]) == Some(s) && Exec(capacity, steps) == Some(s') && !s.open
    ensures !s'.open && s'.accepted == s.accepted && |s.popped| <= |s'.popped|
    ensures s'.popped + s'.items == s.popped + s.items
  {
    Reachable(capacity, steps);
    Reachable(capacity, steps[..j]);
    StaysClosed(capacity, steps, j, s);
  }

  // The run has gone on from the closed queue s.
  ghost predicate GoesOn(s: State, o: Option<State>) {
    o.Some? && !o.value.open && o.value.accepted == s.accepted && |s.popped| <= |o.value.popped|
  }

  lemma {:induction false} StaysClosed(capacity: nat, steps: seq<Step>, j: nat, s: State)
    requires j <= |steps| && Exec(capacity, steps[..j]) == Some(s) && Exec(capacity, steps).Some? && !s.open
    ensures GoesOn(s, Exec(capacity, steps))
  {
    if j == |steps| {
      assert steps[..j] == steps;
    } else {
      assert steps[..|steps| - 1][..j] == steps[..j];
      StaysClosed(capacity, steps[..|steps| - 1], j, s);
      ClosedNext(capacity, steps, s);
    }
  }

  lemma ClosedNext(capacity: nat, steps: seq<Step>, s: State)
    requires steps != [] && Exec(capacity, steps).Some? && GoesOn(s, Exec(capacity, steps[..|steps| - 1]))
    ensures GoesOn(s, Exec(capacity, steps))
  {
    var s1, a := LastStep(capacity, steps);
    ClosedStep(s, s1, a);
  }

  lemma LastStep(capacity: nat, steps: seq<Step>) returns (s: State, a: Step)
    requires steps != [] && Exec(capacity, steps).Some?
    ensures Exec(capacity, steps[..|steps| - 1]) == Some(s) && a == steps[|steps| - 1]
    ensures Enabled(s, a) && (a.Pop? && s.items == [] ==> s.spare > 0) && Exec(capacity, steps) == Some(Do(s, a))
  {
    a := steps[|steps| - 1];
    s := Exec(capacity, steps[..|steps| - 1]).value;
  }

  lemma ClosedStep(s0: State, s: State, a: Step)
    requires Enabled(s, a) && (a.Pop? && s.items == [] ==> s.spare > 0)
    requires !s.open && s.accepted == s0.accepted && |s0.popped| <= |s.popped|
    ensures !Do(s, a).open && Do(s, a).accepted == s0.accepted && |s0.popped| <= |Do(s, a).popped|
  {
  }

  // The consumer of a closed queue that has not been told NULL yet is not blocked, whatever the
  // other calls; and NULL comes only when everything is out.
  lemma NotBlocked(capacity: nat, steps: seq<Step>, s: State)
    requires Exec(capacity, steps) == Some(s) && !s.open && Nulls(capacity, steps) == 0
    ensures s.popping == 0 ==> Enabled(s, Take)
    ensures Enabled(s, Pop) && s.items == [] ==> s.popped == s.accepted
  {
    Reachable(capacity, steps);
    SpareCount(capacity, steps);
  }

  // If no other call comes in between, the lone consumer of a reachable closed queue gets, call by
  // call, all that is left of what was accepted, and then NULL.
  lemma DrainReachable(capacity: nat, steps: seq<Step>, s: State)
    requires Exec(capacity, steps) == Some(s) && !s.open && s.popping == 0 && Nulls(capacity, steps) == 0
    ensures s.spare > 0 && s.qsem == |s.items| + s.spare
    ensures var s' := Drain(s, |s.items|); s'.popped == s.accepted && s'.items == [] && Enabled(s', Take) && Do(s', Take).items == []
  {
    Reachable(capacity, steps);
    SpareCount(capacity, steps);
    DrainAll(s, |s.items|);
    assert s.items[..|s.items|] == s.items;
  }

  /* ---------- the linked list ---------- */

  datatype Elem = Elem(data: Data, next: Ptr, prev: Ptr)

  type Elems = map<Ptr, Elem>

  function PtrAt(es: seq<Ptr>, i: int): Ptr { if 0 <= i < |es| then es[i] else NULL }

  // Element i of es: prev leads towards the tail and next towards the head.
  ghost predicate Between(mem: Elems, es: seq<Ptr>, i: int) {
    && 0 <= i < |es| && es[i] in mem && es[i] != NULL
    && mem[es[i]].next == PtrAt(es, i - 1) && mem[es[i]].prev == PtrAt(es, i + 1)
  }

  // es are the elements from head to tail.
  ghost predicate Linked(mem: Elems, es: seq<Ptr>) {
    && (forall i :: 0 <= i < |es| ==> Between(mem, es, i))
    && (forall i, j :: 0 <= i < j < |es| ==> es[i] != es[j])
  }

  function Along(mem: Elems, p: Ptr, forward: bool, n: nat): seq<Ptr> decreases n {
    if n == 0 || p !in mem then [] else [p] + Along(mem, if forward then mem[p].next else mem[p].prev, forward, n - 1)
  }

  function Reverse(s: seq<Ptr>): seq<Ptr> { if s == [] then [] else [s[|s| - 1]] + Reverse(s[..|s| - 1]) }

  // Head to tail along prev is the mirror image of tail to head along next.
  lemma {:induction false} PrevChain(mem: Elems, es: seq<Ptr>, i: nat)
    requires Linked(mem, es) && i <= |es|
    ensures Along(mem, PtrAt(es, i), false, |es| - i) == es[i..]
    decreases |es| - i
  {
    if i < |es| {
      assert Between(mem, es, i);
      PrevChain(mem, es, i + 1);
      assert es[i..] == [es[i]] + es[i + 1..];
    }
  }

  lemma {:induction false} NextChain(mem: Elems, es: seq<Ptr>, i: nat)
    requires Linked(mem, es) && i <= |es|
    ensures Along(mem, PtrAt(es, i - 1), true, i) == Reverse(es[..i])
  {
    if i > 0 {
      assert Between(mem, es, i - 1);
      NextChain(mem, es, i - 1);
      assert es[..i][..i - 1] == es[..i - 1];
    }
  }

  lemma ChainsMirror(mem: Elems, es: seq<Ptr>)
    requires Linked(mem, es)
    ensures Along(mem, PtrAt(es, 0), false, |es|) == es
    ensures Along(mem, PtrAt(es, |es| - 1), true, |es|) == Reverse(es)
  {
    PrevChain(mem, es, 0);
    NextChain(mem, es, |es|);
    assert es[..|es|] == es;
  }

  // The elements es are all there is, and they carry the data ds.
  ghost predicate Holds(mem: Elems, es: seq<Ptr>, ds: seq<Data>) {
    && Linked(mem, es) && (forall p :: p in mem <==> p in es)
    && |ds| == |es| && forall i :: 0 <= i < |es| ==> es[i] in mem && mem[es[i]].data == ds[i]
  }

  lemma AppendHolds(mem: Elems, es: seq<Ptr>, ds: seq<Data>, n: Ptr, x: Data)
    requires Holds(mem, es, ds) && n != NULL && n !in mem
    ensures var m1 := mem[n := Elem(x, PtrAt(es, |es| - 1), NULL)];
            && (es != [] ==> es[|es| - 1] in m1 && es[|es| - 1] != NULL)
            && Holds(if es == [] then m1 else m1[es[|es| - 1] := m1[es[|es| - 1]].(prev := n)], es + [n], ds + [x])
  {
    var m1 := mem[n := Elem(x, PtrAt(es, |es| - 1), NULL)];
    assert es != [] ==> Between(mem, es, |es| - 1);
    var m2 := if es == [] then m1 else m1[es[|es| - 1] := m1[es[|es| - 1]].(prev := n)];
    forall i | 0 <= i < |es| + 1 ensures Between(m2, es + [n], i) {
      if i < |es| {
        assert Between(mem, es, i);
      }
    }
  }

  lemma PopHolds(mem: Elems, es: seq<Ptr>, ds: seq<Data>)
    requires Holds(mem, es, ds) && es != []
    ensures es[0] in mem && mem[es[0]].data == ds[0] && es[0] != NULL && mem[es[0]].prev == PtrAt(es, 1)
    ensures |es| > 1 ==> es[1] in mem && es[1] != es[0]
    ensures var m1 := if |es| > 1 then mem[es[1] := mem[es[1]].(next := NULL)] else mem;
            Holds(m1 - {es[0]}, es[1..], ds[1..])
  {
    assert Between(mem, es, 0);
    assert |es| > 1 ==> Between(mem, es, 1);
    var m1 := if |es| > 1 then mem[es[1] := mem[es[1]].(next := NULL)] else mem;
    forall i | 0 <= i < |es| - 1 ensures Between(m1 - {es[0]}, es[1..], i) {
      assert Between(mem, es, i + 1);
    }
    assert forall p :: p in es <==> p == es[0] || p in es[1..];
  }

  lemma HeadHolds(mem: Elems, es: seq<Ptr>, ds: seq<Data>)
    requires Holds(mem, es, ds)
    ensures PtrAt(es, 0) == NULL <==> es == []
    ensures es == [] <==> ds == []
  {
    assert es != [] ==> Between(mem, es, 0);
  }

  class CsQueue {
    var mem: Elems
    var head: Ptr
    var tail: Ptr
    var size: int
    var open: bool
    var qsem: nat
    var limit: nat
    const capacity: nat
    ghost var es: seq<Ptr>
    ghost var state: State

    ghost predicate Valid()
      reads this
    {
      && Holds(mem, es, state.items) && Ends()
      && open == state.open && qsem == state.qsem && limit == state.limit && Inv(state, capacity)
    }

    ghost predicate Ends()
      reads this
    {
      head == PtrAt(es, 0) && tail == PtrAt(es, |es| - 1) && size == |es|
    }

    constructor (size: nat)
      ensures Valid() && state == Init(size) && capacity == size
    {
      mem, head, tail, this.size, open, qsem, limit, capacity := map[], NULL, NULL, 0, true, 0, size, size;
      es, state := [], Init(size);
    }

    // The wait on the limit semaphore; a blocking one returns when there is room.
    method WaitLimit(blocking: bool) returns (ok: bool)
      requires Valid() && (blocking ==> limit > 0)
      modifies this`limit, this`state
      ensures Valid() && ok == (old(limit) > 0)
      ensures state == if ok then Do(old(state), Reserve) else old(state)
    {
      ok := limit > 0;
      if ok {
        StepInv(state, Reserve, capacity);
        limit, state := limit - 1, Do(state, Reserve);
      }
    }

    // The critical section of cs_queue_enqueue, with elem as the fresh element.
    method Link(data: Data, elem: Ptr)
      requires Valid() && state.entering > 0 && elem != NULL && elem !in mem
      modifies this
      ensures Valid() && state == Do(old(state), Append(data))
    {
      StepInv(state, Append(data), capacity);
      if open {
        AddTail(data, elem, state.items);
        qsem := qsem + 1;
      }
      state := Do(state, Append(data));
    }

    // The new element goes before the tail.
    method AddTail(data: Data, elem: Ptr, ghost ds: seq<Data>)
      requires Holds(mem, es, ds) && Ends() && elem != NULL && elem !in mem
      modifies this`mem, this`head, this`tail, this`size, this`es
      ensures Holds(mem, es, ds + [data]) && Ends()
    {
      AppendHolds(mem, es, ds, elem, data);
      mem := mem[elem := Elem(data, tail, NULL)];
      if tail != NULL {
        mem := mem[tail := mem[tail].(prev := elem)];
      } else {
        head, tail := elem, elem;
      }
      tail := elem;
      size := size + 1;
      es := es + [elem];
    }

    // A call that no other call interrupts: 0 even if the queue is closed and takes nothing.
    method Enqueue(data: Data, blocking: bool, elem: Ptr) returns (code: int)
      requires Valid() && (blocking ==> limit > 0) && elem != NULL && elem !in mem
      modifies this
      ensures Valid() && (code == 2 <==> old(limit) == 0) && (code == 0 <==> old(limit) > 0)
      ensures state.items == old(state.items) + (if code == 0 && old(open) then [data] else [])
      ensures state.lost == old(state.lost) + (if code == 0 && !old(open) then 1 else 0)
    {
      var ok := WaitLimit(blocking);
      if !ok {
        return QUEUE_FULL;
      }
      Link(data, elem);
      code := 0;
    }

    // The wait on the queue semaphore.
    method WaitItem(blocking: bool) returns (ok: bool)
      requires Valid() && (blocking ==> qsem > 0)
      modifies this`qsem, this`state
      ensures Valid() && ok == (old(qsem) > 0)
      ensures state == if ok then Do(old(state), Take) else old(state)
    {
      ok := qsem > 0;
      if ok {
        StepInv(state, Take, capacity);
        qsem, state := qsem - 1, Do(state, Take);
      }
    }

    // The critical section of cs_queue_dequeue; fails: its second assert does not hold.
    method Unlink() returns (data: Option<Data>, fails: bool)
      requires Valid() && state.popping > 0
      modifies this
      ensures Valid() && old(state.items == [] ==> state.spare > 0) && state == Do(old(state), Pop)
      ensures data == if old(state).items == [] then None else Some(old(state).items[0])
      ensures fails <==> old(state).items != [] && !CountAssertHolds(old(state))
    {
      StepInv(state, Pop, capacity);
      HeadHolds(mem, es, state.items);
      if head == NULL && !open {
        state := Do(state, Pop);
        return None, false;
      }
      assert head != NULL;
      data := RemoveHead(state.items);
      fails := CountHead();
    }

    // The accounts after the head has been removed.
    method CountHead() returns (fails: bool)
      requires state.items != [] && state.popping > 0 && Inv(state, capacity) && Inv(Do(state, Pop), capacity)
      requires Holds(mem, es, state.items[1..]) && Ends()
      requires open == state.open && qsem == state.qsem && limit == state.limit
      modifies this`limit, this`state
      ensures Valid() && state == Do(old(state), Pop) && (fails <==> !CountAssertHolds(old(state)))
    {
      fails := !(size == qsem || !open);
      limit := limit + 1;
      state := Do(state, Pop);
    }

    // The head is freed; its neighbour towards the tail becomes the head.
    method RemoveHead(ghost ds: seq<Data>) returns (data: Option<Data>)
      requires Holds(mem, es, ds) && Ends() && es != []
      modifies this`mem, this`head, this`tail, this`size, this`es
      ensures Holds(mem, es, ds[1..]) && Ends() && data == Some(ds[0])
    {
      PopHolds(mem, es, ds);
      data := Some(mem[head].data);
      var elem, oldSize := head, size;
      if oldSize > 1 {
        mem := mem[mem[head].prev := mem[mem[head].prev].(next := NULL)];
        head := mem[head].prev;
      } else {
        tail, head := NULL, NULL;
      }
      size := size - 1;
      mem := mem - {elem};
      es := es[1..];
    }

    // cs_queue_close: one post, so that a consumer that waits in vain is woken.
    method Shut()
      requires Valid()
      modifies this`open, this`qsem, this`state
      ensures Valid() && state == Do(old(state), Close)
    {
      StepInv(state, Close, capacity);
      open := false;
      qsem, state := qsem + 1, Do(state, Close);
    }
  }
}
