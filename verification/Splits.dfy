/** The two places where the kernel splits work over its workers: the events of one tick
    (src/cs_events.c) and the items of an activity (src/cs_engine.c). */
module Splits {
  import opened Store

  function Min(a: nat, b: nat): nat { if a < b then a else b }

  lemma MulStep(c: nat, h: nat)
    ensures (c + 1) * h == c * h + h
  {
  }

  lemma MulMonotonic(a: nat, b: nat, h: nat)
    requires a <= b
    ensures a * h <= b * h
  {
  }

  // Rounding down: n blocks of this size fit into count, and n more items would be too many.
  lemma BlockFits(count: nat, n: nat)
    requires n > 0
    ensures n * (count / n) <= count < n * (count / n) + n
    ensures count % n == count - n * (count / n)
  {
  }

  /* ---------- the events of one tick ---------- */

  type Event = int

  datatype ListItem = ListItem(ev: Event, enext: Ptr)

  type Items = map<Ptr, ListItem>

  // The list that starts at p carries the events es.
  ghost predicate Chain(items: Items, p: Ptr, es: seq<Event>) decreases |es| {
    if es == [] then p == NULL
    else p != NULL && p in items && items[p].ev == es[0] && Chain(items, items[p].enext, es[1..])
  }

  // What the guards are apart.
  function Hops(count: nat, nguards: nat): (h: nat)
    requires nguards > 0
    ensures h > 0
  {
    if count / nguards > 1 then count / nguards else 1
  }

  // How many events task c handles, and where they start.
  function Share(count: nat, ntasks: nat, c: nat): int
    requires ntasks > 0
  {
    NumEvents(count, ntasks, c, Hops(count, ntasks))
  }

  // The expression for num_events.
  function NumEvents(count: nat, ntasks: nat, c: nat, hops: nat): int
    requires ntasks > 0
  {
    if c < ntasks - 1 then hops else count - (ntasks - 1) * hops
  }

  function Start(count: nat, ntasks: nat, c: nat): nat
    requires ntasks > 0
  {
    c * Hops(count, ntasks)
  }

  // The position of guard i: those beyond the list stand for its last item.
  function GuardAt(count: nat, nguards: nat, i: nat): nat
    requires count > 0 && nguards > 0
  {
    Min(Start(count, nguards, i), count - 1)
  }

  // For every number of events and of tasks, the shares of the used tasks are not empty, follow
  // each other without gap or overlap, and end with the last event.
  lemma SharesTile(count: nat, ntasks: nat, c: nat)
    requires count > 0 && ntasks > 0 && c < Min(ntasks, count)
    ensures Share(count, ntasks, c) > 0
    ensures Start(count, ntasks, c) + Share(count, ntasks, c) ==
            if c + 1 < Min(ntasks, count) then Start(count, ntasks, c + 1) else count
    ensures Start(count, ntasks, c) + Share(count, ntasks, c) <= count
  {
    var h := Hops(count, ntasks);
    MulStep(c, h);
    if count >= ntasks {
      ManyTile(count, ntasks, c);
    } else {
      HopsEven(count, ntasks);
      assert Start(count, ntasks, c) == c && Start(count, ntasks, c + 1) == c + 1;
    }
  }

  lemma ManyTile(count: nat, ntasks: nat, c: nat)
    requires 0 < ntasks <= count && c < ntasks
    ensures Share(count, ntasks, c) > 0
    ensures Start(count, ntasks, c) + Share(count, ntasks, c) == if c + 1 < ntasks then Start(count, ntasks, c + 1) else count
    ensures Start(count, ntasks, c) + Share(count, ntasks, c) <= count
  {
    var h := Hops(count, ntasks);
    HopsEven(count, ntasks);
    MulStep(c, h);
    MulStep(ntasks - 1, h);
    MulMonotonic(c + 1, ntasks, h);
    Commute(h, ntasks);
  }

  lemma Commute(a: nat, b: nat)
    ensures a * b == b * a
  {
  }

  // The block size is what dividing evenly and rounding down gives, but at least one.
  lemma HopsEven(count: nat, n: nat)
    requires n > 0
    ensures if n <= count then Hops(count, n) * n <= count < (Hops(count, n) + 1) * n else Hops(count, n) == 1
  {
    BlockFits(count, n);
    MulStep(Hops(count, n), n);
    if n <= count {
      assert count / n >= 1;
    }
  }

  // Every share is the even one, and the last one takes what is left over, less than one per task.
  predicate Even(size: int, count: nat, n: nat, c: nat)
    requires n > 0
  {
    if count < n then size == 1
    else (c + 1 < n ==> size == count / n) && count / n <= size < count / n + n
  }

  lemma ShareEven(count: nat, ntasks: nat, c: nat)
    requires count > 0 && ntasks > 0 && c < Min(ntasks, count)
    ensures Even(Share(count, ntasks, c), count, ntasks, c)
  {
    HopsEven(count, ntasks);
    if count >= ntasks {
      var h := Hops(count, ntasks);
      BlockFits(count, ntasks);
      assert h == count / ntasks;
      MulStep(ntasks - 1, h);
      Commute(h, ntasks);
    }
  }

  function Flatten(s: seq<seq<Event>>): seq<Event> {
    if s == [] then [] else Flatten(s[..|s| - 1]) + s[|s| - 1]
  }

  class EventList {
    var items: Items
    var head: Ptr
    var count: nat
    var guards: array<Ptr>
    ghost var evs: seq<Event>

    ghost predicate Valid()
      reads this
    {
      Chain(items, head, evs) && count == |evs|
    }

    constructor (items: Items, head: Ptr, ghost evs: seq<Event>)
      requires Chain(items, head, evs)
      ensures Valid() && this.evs == evs
    {
      this.items, this.head, this.evs := items, head, evs;
      var n := CountItems(items, head, evs);
      count := n;
      guards := new Ptr[0];
    }

    // _cs_ev_update_guards: guard i is the item i * hops of the list, or the last one.
    method UpdateGuards(nguards: nat) returns (hops: nat)
      requires Valid() && count > 0 && nguards > 0
      modifies this`guards
      ensures hops == Hops(count, nguards) && fresh(guards) && guards.Length == nguards
      ensures if nguards <= count then hops * nguards <= count < (hops + 1) * nguards else hops == 1
      ensures forall i :: 0 <= i < nguards ==> Chain(items, guards[i], evs[GuardAt(count, nguards, i)..])
    {
      hops := if count / nguards > 1 then count / nguards else 1;
      SetGuards(nguards, hops);
      HopsEven(count, nguards);
    }

    method SetGuards(nguards: nat, hops: nat)
      requires Valid() && count > 0 && nguards > 0 && hops == Hops(count, nguards)
      modifies this`guards
      ensures fresh(guards) && guards.Length == nguards
      ensures forall i :: 0 <= i < nguards ==> Chain(items, guards[i], evs[GuardAt(count, nguards, i)..])
    {
      var ptr := head;
      guards := new Ptr[nguards];
      var i := 0;
      assert evs[0..] == evs;
      while i < nguards
        invariant 0 <= i <= nguards && guards.Length == nguards && fresh(guards)
        invariant Chain(items, ptr, evs[GuardAt(count, nguards, i)..])
        invariant forall k :: 0 <= k < i ==> Chain(items, guards[k], evs[GuardAt(count, nguards, k)..])
      {
        guards[i] := ptr;
        ptr := Hop(ptr, i * hops, hops);
        MulStep(i, hops);
        i := i + 1;
      }
    }

    // The inner loop: at most `hops` items on, but never past the last one.
    method Hop(p: Ptr, ghost from: nat, hops: nat) returns (ptr: Ptr)
      requires Valid() && count > 0 && Chain(items, p, evs[Min(from, count - 1)..])
      ensures Chain(items, ptr, evs[Min(from + hops, count - 1)..])
    {
      ptr := p;
      var j := 0;
      while j < hops
        invariant 0 <= j <= hops && Chain(items, ptr, evs[Min(from + j, count - 1)..])
      {
        ghost var at := Min(from + j, count - 1);
        assert evs[at..][1..] == evs[at + 1..];
        if items[ptr].enext != NULL {
          ptr := items[ptr].enext;
        } else {
          assert at == count - 1;
          break;
        }
        j := j + 1;
      }
    }

    // _ev_worker: it throws num events from its guard on; its list never ends before.
    method Worker(guard: nat, num: nat, ghost from: nat) returns (thrown: seq<Event>)
      requires Valid() && guard < guards.Length && from + num <= count && Chain(items, guards[guard], evs[from..])
      ensures thrown == evs[from..from + num]
    {
      var cur := guards[guard];
      thrown := [];
      var c := 0;
      while c < num
        invariant 0 <= c <= num && Chain(items, cur, evs[from + c..]) && thrown == evs[from..from + c]
      {
        assert cur != NULL;
        assert evs[from + c..][1..] == evs[from + c + 1..];
        thrown := thrown + [items[cur].ev];
        cur := items[cur].enext;
        c := c + 1;
      }
    }

    // The c-th task: what it throws, and where it ends.
    method Task(c: nat, ntasks: nat, hops: nat) returns (one: seq<Event>)
      requires Valid() && count > 0 && ntasks > 0 && c < Min(ntasks, count) && hops == Hops(count, ntasks)
      requires guards.Length == ntasks && Chain(items, guards[c], evs[GuardAt(count, ntasks, c)..])
      ensures one != [] && Even(|one|, count, ntasks, c) && Start(count, ntasks, c) <= count
      ensures var to := if c + 1 < Min(ntasks, count) then Start(count, ntasks, c + 1) else count;
              to <= count && evs[..Start(count, ntasks, c)] + one == evs[..to]
    {
      SharesTile(count, ntasks, c);
      ShareEven(count, ntasks, c);
      var num := NumEvents(count, ntasks, c, hops);
      assert num == Share(count, ntasks, c) && GuardAt(count, ntasks, c) == Start(count, ntasks, c);
      one := Worker(c, num, Start(count, ntasks, c));
      assert evs[..Start(count, ntasks, c)] + one == evs[..Start(count, ntasks, c) + num];
    }

    // The batch of _ev_controller: what each of its tasks throws.  The order in which the pool
    // runs them is immaterial: what each throws depends on its own guard and share alone.
    method Batch(ntasks: nat) returns (thrown: seq<seq<Event>>)
      requires Valid() && count > 0 && ntasks > 0
      modifies this`guards
      ensures |thrown| == Min(ntasks, count)
      ensures forall c :: 0 <= c < |thrown| ==> thrown[c] != [] && Even(|thrown[c]|, count, ntasks, c)
      ensures Flatten(thrown) == evs
    {
      var hops := UpdateGuards(ntasks);
      thrown := [];
      var c := 0;
      while c < Min(ntasks, count)
        invariant 0 <= c <= Min(ntasks, count) && |thrown| == c && guards.Length == ntasks
        invariant forall i :: 0 <= i < ntasks ==> Chain(items, guards[i], evs[GuardAt(count, ntasks, i)..])
        invariant forall k :: 0 <= k < c ==> thrown[k] != [] && Even(|thrown[k]|, count, ntasks, k)
        invariant var to := if c < Min(ntasks, count) then Start(count, ntasks, c) else count;
                  to <= count && Flatten(thrown) == evs[..to]
      {
        var one := Task(c, ntasks, hops);
        FlattenMore(thrown, one);
        thrown := thrown + [one];
        c := c + 1;
      }
      assert evs[..count] == evs;
    }
  }

  lemma FlattenMore(s: seq<seq<Event>>, x: seq<Event>)
    ensures Flatten(s + [x]) == Flatten(s) + x
  {
    assert (s + [x])[..|s|] == s;
  }

  method CountItems(items: Items, head: Ptr, ghost evs: seq<Event>) returns (n: nat)
    requires Chain(items, head, evs)
    ensures n == |evs|
  {
    var p := head;
    n := 0;
    ghost var es := evs;
    while p != NULL
      invariant Chain(items, p, es) && n + |es| == |evs|
      decreases |es|
    {
      p, n, es := items[p].enext, n + 1, es[1..];
    }
  }

  /* ---------- the items of an activity ---------- */

  // Task data: the task handles the items from data_index to data_index + offset.
  datatype TaskData = TaskData(dataIndex: int, offset: int, index: nat, totTasks: nat)

  function TaskAt(items: nat, nthreads: nat, i: nat): TaskData
    requires nthreads > 0
  {
    var block := items / nthreads;
    TaskData(i * block, if i < nthreads - 1 then block - 1 else block - 1 + items % nthreads, i, Min(nthreads, items))
  }

  ghost predicate Handles(items: nat, nthreads: nat, i: nat, k: int)
    requires nthreads > 0
  {
    var t := TaskAt(items, nthreads, i);
    i < Min(nthreads, items) && t.dataIndex <= k <= t.dataIndex + t.offset
  }

  ghost predicate Handled(items: nat, nthreads: nat, k: int)
    requires nthreads > 0
  {
    exists i: nat :: Handles(items, nthreads, i, k)
  }

  // With at least as many items as workers, the ranges follow each other without gap or overlap.
  lemma RangesTile(items: nat, nthreads: nat, i: nat)
    requires 0 < nthreads <= items && i < nthreads
    ensures var t := TaskAt(items, nthreads, i);
            && t.offset >= 0 && (i == 0 ==> t.dataIndex == 0)
            && t.dataIndex + t.offset + 1 == if i + 1 < nthreads then TaskAt(items, nthreads, i + 1).dataIndex else items
  {
    BlockFits(items, nthreads);
    MulStep(i, items / nthreads);
  }

  lemma HandledOnce(items: nat, nthreads: nat, i: nat, j: nat, k: int)
    requires nthreads > 0 && Handles(items, nthreads, i, k) && Handles(items, nthreads, j, k)
    ensures i == j && 0 <= k < items
  {
    if nthreads > items {
      NothingHandled(items, nthreads, i, k);
    } else {
      RangesTile(items, nthreads, i);
      RangesTile(items, nthreads, j);
      BlockFits(items, nthreads);
      var b := items / nthreads;
      MulMonotonic(i + 1, nthreads, b);
      if i < j {
        MulMonotonic(i + 1, j, b);
      } else if j < i {
        MulMonotonic(j + 1, i, b);
      }
    }
  }

  // With fewer items than workers, every range is empty.
  lemma NothingHandled(items: nat, nthreads: nat, i: nat, k: int)
    requires items < nthreads
    ensures !Handles(items, nthreads, i, k)
  {
    BlockFits(items, nthreads);
    assert items / nthreads == 0;
  }

  lemma TaskFor(items: nat, nthreads: nat, k: nat) returns (i: nat)
    requires 0 < nthreads <= items && k < items
    ensures Handles(items, nthreads, i, k)
  {
    BlockFits(items, nthreads);
    var b := items / nthreads;
    assert b > 0;
    i := 0;
    while i + 1 < nthreads && (i + 1) * b <= k
      invariant i < nthreads && i * b <= k
    {
      i := i + 1;
    }
    RangesTile(items, nthreads, i);
    MulStep(i, b);
  }

  // Every item is handled, just when there are as many items as workers or none at all.
  lemma CoveredIff(items: nat, nthreads: nat)
    requires nthreads > 0
    ensures (forall k :: 0 <= k < items ==> Handled(items, nthreads, k)) <==> items >= nthreads || items == 0
  {
    if items >= nthreads {
      forall k | 0 <= k < items ensures Handled(items, nthreads, k) {
        var i := TaskFor(items, nthreads, k);
      }
    } else if items > 0 {
      forall i: nat ensures !Handles(items, nthreads, i, 0) {
        NothingHandled(items, nthreads, i, 0);
      }
      assert !Handled(items, nthreads, 0);
    }
  }

  // The ranges start with item 0, follow each other without gap or overlap, and end with the last item.
  ghost predicate Tiling(ts: seq<TaskData>, items: nat) {
    forall i :: 0 <= i < |ts| ==>
      && ts[i].offset >= 0 && (i == 0 ==> ts[i].dataIndex == 0)
      && ts[i].dataIndex + ts[i].offset + 1 == EndOfRange(ts, i, items)
  }

  function EndOfRange(ts: seq<TaskData>, i: int, items: nat): int {
    if 0 <= i && i + 1 < |ts| then ts[i + 1].dataIndex else items
  }

  ghost predicate Empty(ts: seq<TaskData>) { forall i :: 0 <= i < |ts| ==> ts[i].offset < 0 }

  lemma Ranges(items: nat, nthreads: nat, ts: seq<TaskData>)
    requires nthreads > 0 && |ts| == Min(nthreads, items) && forall i :: 0 <= i < |ts| ==> ts[i] == TaskAt(items, nthreads, i)
    ensures if items < nthreads then Empty(ts) else Tiling(ts, items)
  {
    if items >= nthreads {
      forall i | 0 <= i < |ts|
        ensures && ts[i].offset >= 0 && (i == 0 ==> ts[i].dataIndex == 0)
                && ts[i].dataIndex + ts[i].offset + 1 == EndOfRange(ts, i, items)
      {
        RangesTile(items, nthreads, i);
      }
    } else {
      forall i | 0 <= i < |ts| ensures ts[i].offset < 0 {
        NothingHandled(items, nthreads, i, i * (items / nthreads));
      }
    }
  }

  // The loop of _cs_bind_sim_activity.
  method Bind(items: nat, nthreads: nat) returns (tasks: array<TaskData>)
    requires nthreads > 0
    ensures tasks.Length == Min(nthreads, items)
    ensures forall i :: 0 <= i < tasks.Length ==> tasks[i] == TaskAt(items, nthreads, i)
    ensures if items < nthreads then Empty(tasks[..]) else Tiling(tasks[..], items)
    ensures forall i :: 0 <= i < tasks.Length ==>
              && tasks[i].index == i && tasks[i].totTasks == tasks.Length
              && (items >= nthreads ==> Even(tasks[i].offset + 1, items, nthreads, i))
  {
    var block := items / nthreads;
    var base := block - 1;
    var n := if items > nthreads then nthreads else items;
    var res := items % nthreads;
    tasks := new TaskData[n](_ => TaskData(0, 0, 0, 0));
    var i := 0;
    while i < n
      invariant 0 <= i <= n && forall k :: 0 <= k < i ==> tasks[k] == TaskAt(items, nthreads, k)
    {
      tasks[i] := TaskData(i * block, if i < nthreads - 1 then base else base + res, i, n);
      i := i + 1;
    }
    Ranges(items, nthreads, tasks[..]);
    forall i | 0 <= i < tasks.Length && items >= nthreads ensures Even(tasks[i].offset + 1, items, nthreads, i) {
      BlockFits(items, nthreads);
    }
  }
}
