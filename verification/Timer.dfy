/** src/cs_timer.c: a clock that n actors advance together, over and over again. */
module Timer {
  import opened Store

  datatype Fields = Fields(clock: nat, sync: nat, stop: bool)

  // What a call of cs_time_sync does in its critical section: refuse, because of the stop or
  // because too many actors are inside; wait for the broadcast; or give the broadcast itself.
  datatype Outcome = Stopped | TooMany | Waits | Broadcasts

  class CsTimer {
    var clock: nat
    var sync: nat
    var stop: bool
    const nSync: nat

    function Now(): Fields
      reads this
    {
      Fields(clock, sync, stop)
    }

    constructor (nSync: nat)
      ensures Now() == Fields(0, 0, false) && this.nSync == nSync
    {
      clock, sync, stop, this.nSync := 0, 0, false, nSync;
    }

    method TimeSync() returns (r: Outcome)
      modifies this
      ensures (Now(), r) == Arrive(old(Now()), nSync)
      ensures stop == old(stop) && (r == Stopped || r == TooMany ==> Now() == old(Now()))
      ensures old(sync) < nSync ==>
                && sync < nSync && r != TooMany && (r == Stopped <==> stop)
                && clock * nSync + sync == old(clock) * nSync + old(sync) + (if stop then 0 else 1)
                && (r == Broadcasts <==> clock == old(clock) + 1)
    {
      if !stop {
        if sync == nSync {
          return TooMany;
        }
        sync := sync + 1;
        if sync == nSync {
          clock := clock + 1;
          sync := 0;
          r := Broadcasts;
        } else {
          r := Waits;
        }
      } else {
        r := Stopped;
      }
    }

    method TimeStop()
      modifies this`stop
      ensures Now() == old(Now()).(stop := true)
    {
      stop := true;
    }
  }

  function Arrive(t: Fields, n: nat): (Fields, Outcome) {
    if t.stop then (t, Stopped)
    else if t.sync == n then (t, TooMany)
    else if t.sync + 1 == n then (t.(clock := t.clock + 1, sync := 0), Broadcasts)
    else (t.(sync := t.sync + 1), Waits)
  }

  /* ---------- n actors on one timer ---------- */

  // arrivals: calls that were let in; passed: calls that came back with 0.  An actor that waits
  // goes on once it has been woken by a broadcast.
  datatype Actor = Actor(arrivals: nat, passed: nat, waiting: bool, woken: bool)

  datatype State = State(t: Fields, actors: seq<Actor>, refused: bool)

  function Init(n: nat): State { State(Fields(0, 0, false), seq(n, _ => Actor(0, 0, false, false)), false) }

  datatype Step = Sync(i: nat) | Wake(i: nat) | Stop

  predicate Enabled(s: State, a: Step) {
    match a
    case Sync(i) => i < |s.actors| && !s.actors[i].waiting
    case Wake(i) => i < |s.actors| && s.actors[i].waiting && s.actors[i].woken
    case Stop => true
  }

  function Woken(a: Actor): Actor { a.(woken := a.waiting) }

  function WakeAll(s: seq<Actor>): (r: seq<Actor>)
    ensures |r| == |s| && forall i :: 0 <= i < |s| ==> r[i] == Woken(s[i])
  {
    seq(|s|, i requires 0 <= i < |s| => Woken(s[i]))
  }

  function Do(s: State, a: Step): (s': State)
    requires Enabled(s, a)
    ensures |s'.actors| == |s.actors|
  {
    match a
    case Sync(i) =>
      var x := s.actors[i];
      var (t, r) := Arrive(s.t, |s.actors|);
      (match r
       case Stopped => s
       case TooMany => s.(refused := true)
       case Waits => State(t, s.actors[i := x.(arrivals := x.arrivals + 1, waiting := true, woken := false)], s.refused)
       case Broadcasts => State(t, WakeAll(s.actors)[i := x.(arrivals := x.arrivals + 1, passed := x.passed + 1)], s.refused))
    case Wake(i) =>
      var x := s.actors[i];
      s.(actors := s.actors[i := x.(passed := x.passed + 1, waiting := false, woken := false)])
    case Stop => s.(t := s.t.(stop := true), actors := WakeAll(s.actors))
  }

  // How many actors have arrived in the round that is still open.
  function Ahead(s: seq<Actor>, clock: nat): nat {
    if s == [] then 0 else Ahead(s[..|s| - 1], clock) + (if s[|s| - 1].arrivals == clock + 1 then 1 else 0)
  }

  function Total(s: seq<Actor>): nat {
    if s == [] then 0 else Total(s[..|s| - 1]) + s[|s| - 1].arrivals
  }

  ghost predicate ActorOk(x: Actor, t: Fields) {
    && (x.arrivals == t.clock || x.arrivals == t.clock + 1)
    && x.passed + (if x.waiting then 1 else 0) == x.arrivals
    && (x.woken ==> x.waiting) && (t.stop && x.waiting ==> x.woken)
    && (!t.stop ==> (x.arrivals == t.clock + 1 <==> x.waiting && !x.woken))
  }

  ghost predicate Inv(s: State) {
    && (forall i :: 0 <= i < |s.actors| ==> ActorOk(s.actors[i], s.t))
    && s.t.sync == Ahead(s.actors, s.t.clock) && (s.actors != [] ==> s.t.sync < |s.actors|) && !s.refused
  }

  lemma {:induction false} AheadUpdate(s: seq<Actor>, i: nat, x: Actor, clock: nat)
    requires i < |s|
    ensures Ahead(s[i := x], clock) + (if s[i].arrivals == clock + 1 then 1 else 0) ==
            Ahead(s, clock) + (if x.arrivals == clock + 1 then 1 else 0)
  {
    var k := |s| - 1;
    if i < k {
      assert s[i := x][..k] == s[..k][i := x];
      AheadUpdate(s[..k], i, x, clock);
    } else {
      assert s[i := x][..k] == s[..k];
    }
  }

  lemma {:induction false} AheadSame(s: seq<Actor>, s': seq<Actor>, clock: nat)
    requires |s| == |s'| && forall i :: 0 <= i < |s| ==> s'[i].arrivals == s[i].arrivals
    ensures Ahead(s', clock) == Ahead(s, clock)
  {
    if s != [] {
      AheadSame(s[..|s| - 1], s'[..|s| - 1], clock);
    }
  }

  lemma {:induction false} AheadNone(s: seq<Actor>, clock: nat)
    requires forall i :: 0 <= i < |s| ==> s[i].arrivals != clock + 1
    ensures Ahead(s, clock) == 0
  {
    if s != [] {
      AheadNone(s[..|s| - 1], clock);
    }
  }

  // If all but actor i have arrived, every other actor has.
  lemma {:induction false} AheadAll(s: seq<Actor>, clock: nat, i: nat)
    requires i < |s| && s[i].arrivals != clock + 1 && Ahead(s, clock) >= |s| - 1
    ensures Ahead(s, clock) == |s| - 1 && forall j :: 0 <= j < |s| && j != i ==> s[j].arrivals == clock + 1
  {
    var k := |s| - 1;
    AheadAtMost(s[..k], clock);
    if i < k {
      AheadAll(s[..k], clock, i);
      assert forall j :: 0 <= j < k ==> s[..k][j] == s[j];
    } else {
      AheadFull(s[..k], clock);
      assert forall j :: 0 <= j < k ==> s[..k][j] == s[j];
    }
  }

  lemma {:induction false} AheadAtMost(s: seq<Actor>, clock: nat)
    ensures Ahead(s, clock) <= |s|
  {
    if s != [] {
      AheadAtMost(s[..|s| - 1], clock);
    }
  }

  lemma {:induction false} AheadFull(s: seq<Actor>, clock: nat)
    requires Ahead(s, clock) == |s|
    ensures forall j :: 0 <= j < |s| ==> s[j].arrivals == clock + 1
  {
    if s != [] {
      AheadAtMost(s[..|s| - 1], clock);
      AheadFull(s[..|s| - 1], clock);
      assert forall j :: 0 <= j < |s| - 1 ==> s[..|s| - 1][j] == s[j];
    }
  }

  lemma {:induction false} TotalOf(s: seq<Actor>, clock: nat)
    requires forall i :: 0 <= i < |s| ==> s[i].arrivals == clock || s[i].arrivals == clock + 1
    ensures Total(s) == clock * |s| + Ahead(s, clock)
  {
    if s != [] {
      var k := |s| - 1;
      TotalOf(s[..k], clock);
      assert clock * |s| == clock * k + clock;
    }
  }

  lemma WakeInv(s: State, i: nat)
    requires Inv(s) && Enabled(s, Wake(i))
    ensures Inv(Do(s, Wake(i)))
  {
    AheadSame(s.actors, Do(s, Wake(i)).actors, s.t.clock);
  }

  lemma StopInv(s: State)
    requires Inv(s)
    ensures Inv(Do(s, Stop))
  {
    AheadSame(s.actors, Do(s, Stop).actors, s.t.clock);
  }

  lemma SyncInv(s: State, i: nat)
    requires Inv(s) && Enabled(s, Sync(i))
    ensures Inv(Do(s, Sync(i)))
  {
    var s' := Do(s, Sync(i));
    if !s.t.stop {
      if s.t.sync + 1 == |s.actors| {
        AheadAll(s.actors, s.t.clock, i);
        AheadNone(s'.actors, s'.t.clock);
      } else {
        AheadUpdate(s.actors, i, s'.actors[i], s.t.clock);
      }
    }
  }

  function Exec(n: nat, steps: seq<Step>): Option<State> {
    if steps == [] then Some(Init(n))
    else
      var s := Exec(n, steps[..|steps| - 1]);
      var a := steps[|steps| - 1];
      if s.Some? && Enabled(s.value, a) then Some(Do(s.value, a)) else None
  }

  lemma {:induction false} Reachable(n: nat, steps: seq<Step>)
    ensures var s := Exec(n, steps); s.Some? ==> Inv(s.value) && |s.value.actors| == n
  {
    if steps == [] {
      AheadNone(Init(n).actors, 0);
    } else {
      Reachable(n, steps[..|steps| - 1]);
      var s := Exec(n, steps[..|steps| - 1]);
      var a := steps[|steps| - 1];
      if s.Some? && Enabled(s.value, a) {
        match a {
          case Sync(i) => SyncInv(s.value, i);
          case Wake(i) => WakeInv(s.value, i);
          case Stop => StopInv(s.value);
        }
      }
    }
  }

  // The arrivals are n per completed round and `sync` in the open one; nobody is two rounds from
  // anybody else; and the branch for too many actors is never taken.
  lemma Arrivals(n: nat, steps: seq<Step>, s: State)
    requires n > 0 && Exec(n, steps) == Some(s)
    ensures Total(s.actors) == s.t.clock * n + s.t.sync && s.t.sync < n && !s.refused
    ensures |s.actors| == n && forall i :: 0 <= i < n ==> s.t.clock <= s.actors[i].arrivals <= s.t.clock + 1
  {
    Reachable(n, steps);
    TotalOf(s.actors, s.t.clock);
  }

  // Before a stop, nobody returns from a round before all have arrived in it, even if a fast
  // actor is back in the timer before a slow one has woken up.
  lemma Barrier(n: nat, steps: seq<Step>, s: State, i: nat, j: nat)
    requires Exec(n, steps) == Some(s) && !s.t.stop && i < n && j < n
    ensures |s.actors| == n && s.actors[i].passed <= s.t.clock <= s.actors[j].arrivals
    ensures s.actors[j].passed >= s.t.clock - 1
  {
    Reachable(n, steps);
  }

  // After a stop nobody arrives, the clock stands, and whoever waits can go on.
  lemma StopFreezes(n: nat, steps: seq<Step>, s: State, a: Step, i: nat)
    requires Exec(n, steps) == Some(s) && s.t.stop && Enabled(s, a) && i < n
    ensures |s.actors| == n && Do(s, a).t == s.t && Do(s, a).actors[i].arrivals == s.actors[i].arrivals
    ensures s.actors[i].waiting ==> Enabled(s, Wake(i))
  {
    Reachable(n, steps);
  }

  // Before a stop somebody can always take a step that brings the clock on: the timer itself
  // never leaves all n actors waiting.
  lemma NeverAllWaiting(n: nat, steps: seq<Step>, s: State) returns (i: nat)
    requires n > 0 && Exec(n, steps) == Some(s)
    ensures i < n && (Enabled(s, Sync(i)) || Enabled(s, Wake(i)))
  {
    Reachable(n, steps);
    i := 0;
    if !s.t.stop {
      i := NotAhead(s.actors, s.t.clock);
    }
  }

  lemma {:induction false} NotAhead(s: seq<Actor>, clock: nat) returns (i: nat)
    requires Ahead(s, clock) < |s|
    ensures i < |s| && s[i].arrivals != clock + 1
  {
    i := |s| - 1;
    if s[i].arrivals == clock + 1 {
      i := NotAhead(s[..i], clock);
    }
  }

  /* ---------- the clock goes on ---------- */

  // The steps an actor can take before it has to wait for the others.
  function StepsLeft(x: Actor): nat { if !x.waiting then 1 else if x.woken then 2 else 0 }

  function AllLeft(s: seq<Actor>): nat { if s == [] then 0 else AllLeft(s[..|s| - 1]) + StepsLeft(s[|s| - 1]) }

  lemma {:induction false} LeftUpdate(s: seq<Actor>, i: nat, x: Actor)
    requires i < |s|
    ensures AllLeft(s[i := x]) + StepsLeft(s[i]) == AllLeft(s) + StepsLeft(x)
  {
    var k := |s| - 1;
    if i < k {
      assert s[i := x][..k] == s[..k][i := x];
      LeftUpdate(s[..k], i, x);
    } else {
      assert s[i := x][..k] == s[..k];
    }
  }

  // Before a stop, an arrival advances the clock or uses up a step, and so does a waking.
  lemma StepLeft(s: State, a: Step)
    requires Inv(s) && !s.t.stop && Enabled(s, a) && !a.Stop?
    ensures var s' := Do(s, a);
            && !s'.t.stop && (s'.t.clock == s.t.clock + 1 || (s'.t.clock == s.t.clock && AllLeft(s'.actors) < AllLeft(s.actors)))
            && (a.Wake? ==> s'.actors[a.i].passed == s.actors[a.i].passed + 1 && !s'.actors[a.i].waiting)
  {
    var s' := Do(s, a);
    if s'.t.clock == s.t.clock {
      LeftUpdate(s.actors, a.i, s'.actors[a.i]);
      assert s'.actors == s.actors[a.i := s'.actors[a.i]];
    }
  }

  // From every state before a stop the n actors can bring the clock on, by arrivals and wakings alone.
  lemma {:induction false} ClockAdvances(n: nat, steps: seq<Step>, s: State) returns (more: seq<Step>, s': State)
    requires n > 0 && Exec(n, steps) == Some(s) && !s.t.stop
    ensures Exec(n, steps + more) == Some(s') && s'.t.clock == s.t.clock + 1 && Stop !in more
    decreases AllLeft(s.actors)
  {
    var a, s1 := Advance(n, steps, s);
    if s1.t.clock > s.t.clock {
      more, s' := [a], s1;
    } else {
      var rest;
      rest, s' := ClockAdvances(n, steps + [a], s1);
      more := [a] + rest;
      assert steps + more == steps + [a] + rest;
    }
  }

  lemma Advance(n: nat, steps: seq<Step>, s: State) returns (a: Step, s': State)
    requires n > 0 && Exec(n, steps) == Some(s) && !s.t.stop
    ensures !a.Stop? && Exec(n, steps + [a]) == Some(s') && !s'.t.stop
    ensures s'.t.clock == s.t.clock + 1 || (s'.t.clock == s.t.clock && AllLeft(s'.actors) < AllLeft(s.actors))
  {
    var i := NeverAllWaiting(n, steps, s);
    Reachable(n, steps);
    a := if Enabled(s, Sync(i)) then Sync(i) else Wake(i);
    StepLeft(s, a);
    s' := Do(s, a);
    assert (steps + [a])[..|steps|] == steps;
  }
}
