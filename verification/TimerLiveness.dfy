/** Unending behaviours of the scheduler: every requested removal completes. */
module TimerLiveness {
  import opened Timers
  import opened TimerWaiting

  type Events = nat -> Event
  type States = nat -> State

  /** Every state follows from the one before. */
  ghost predicate Behaviour(states: States, events: Events) {
    forall k: nat :: Possible(states(k), events(k)) && states(k + 1) == Next(states(k), events(k))
  }

  ghost predicate Regular(heap: seq<Task>) {
    forall i :: 0 <= i < |heap| ==> heap[i].interval >= 1
  }

  /** All tasks have an interval of at least a tick. */
  ghost predicate AllRegular(states: States, events: Events) {
    Regular(states(0).heap) && forall k: nat :: events(k).Add? ==> events(k).interval >= 1
  }

  ghost predicate WorksFrom(events: Events, k: nat) {
    exists m: nat :: m >= k && events(m).Work?
  }

  /** As long as a task is queued, the worker comes to another round; with none it may be idle for ever. */
  ghost predicate KeepsWorking(states: States, events: Events) {
    forall k: nat :: states(k).heap != [] ==> WorksFrom(events, k)
  }

  ghost predicate AddsLaterThan(events: Events, k: nat, c: int) {
    forall m: nat :: m >= k && events(m).Add? ==> events(m).now > c
  }

  ghost predicate Passes(events: Events, c: int) {
    exists k: nat :: AddsLaterThan(events, k, c)
  }

  /** The clock passes every reading. */
  ghost predicate ClockAdvances(events: Events) {
    forall c: int :: Passes(events, c)
  }

  ghost predicate Fair(states: States, events: Events) {
    Behaviour(states, events) && AllRegular(states, events) && KeepsWorking(states, events) && ClockAdvances(events)
    && Conserved(states(0))
  }

  ghost predicate RemovesAt(states: States, events: Events, m: nat)
    requires Behaviour(states, events)
  {
    Removes(states(m), events(m))
  }

  ghost predicate NoRemoval(states: States, events: Events, k: nat, m: nat)
    requires Behaviour(states, events)
  {
    forall j: nat :: k <= j < m ==> !RemovesAt(states, events, j)
  }

  lemma StepAt(states: States, events: Events, k: nat)
    requires Behaviour(states, events)
    ensures Possible(states(k), events(k)) && states(k + 1) == Next(states(k), events(k))
    ensures RemovesAt(states, events, k) == Removes(states(k), events(k))
  {
  }

  lemma {:induction false} StaysRegular(states: States, events: Events, k: nat)
    requires Fair(states, events)
    ensures Regular(states(k).heap) && Conserved(states(k))
  {
    if k > 0 {
      hide Behaviour, KeepsWorking, ClockAdvances, RemovesAt, Conserved, Regular, Next;
      var s, e := states(k - 1), events(k - 1);
      StepAt(states, events, k - 1);
      StaysRegular(states, events, k - 1);
      ConservedNext(s, e);
      RegularNext(s, e);
    }
  }

  lemma RegularNext(s: State, e: Event)
    requires Regular(s.heap) && Possible(s, e) && (e.Add? ==> e.interval >= 1)
    ensures Regular(Next(s, e).heap)
  {
  }

  /** As long as nothing is removed, a task that belongs to the front of the queue stays untouched. */
  lemma {:induction false} FrontWaits(states: States, events: Events, k: nat, m: nat, i: nat) returns (j: nat)
    requires Behaviour(states, events) && k <= m && NoRemoval(states, events, k, m)
    requires i < |states(k).heap| && states(k).removals != [] && states(k).heap[i].name == states(k).removals[0]
    ensures j < |states(m).heap| && states(m).heap[j] == states(k).heap[i]
    ensures states(k).removals <= states(m).removals
    decreases m
  {
    hide Behaviour, RemovesAt;
    j := i;
    if k < m {
      j := FrontWaits(states, events, k, m - 1, i);
      var s, e := states(m - 1), events(m - 1);
      StepAt(states, events, m - 1);
      assert !RemovesAt(states, events, m - 1);
      assert s.removals[0] == states(k).removals[0];
      MovedTo(s, e, j);
      j := Moved(s, e, j);
    }
  }

  function RoundsBetween(events: Events, k: nat, m: nat): nat
    requires k <= m
    decreases m
  {
    if k == m then 0 else RoundsBetween(events, k, m - 1) + if events(m - 1).Work? then 1 else 0
  }

  lemma {:induction false} RoundsAdd(events: Events, k: nat, m: nat, n: nat)
    requires k <= m <= n
    ensures RoundsBetween(events, k, n) == RoundsBetween(events, k, m) + RoundsBetween(events, m, n)
    decreases n
  {
    if m < n { RoundsAdd(events, k, m, n - 1); }
  }

  /** There are as many rounds as one likes, unless a removal comes before. */
  lemma {:induction false} ManyRounds(states: States, events: Events, k: nat, l: nat, n: nat, i: nat)
    returns (m: nat)
    requires Fair(states, events) && k <= l
    requires i < |states(k).heap| && states(k).removals != [] && states(k).heap[i].name == states(k).removals[0]
    ensures m >= l && (RoundsBetween(events, l, m) >= n || !NoRemoval(states, events, k, m))
    decreases n
  {
    hide Behaviour, AllRegular, ClockAdvances, RemovesAt, Conserved, NoRemoval;
    m := l;
    if n > 0 {
      var m' := ManyRounds(states, events, k, l, n - 1, i);
      m := m';
      if NoRemoval(states, events, k, m') {
        var j := FrontWaits(states, events, k, m', i);
        assert WorksFrom(events, m');
        var w: nat :| w >= m' && events(w).Work?;
        RoundsAdd(events, l, m', w);
        m := w + 1;
      }
    }
  }

  /** Once additions come too late to be in front of it, a waiting task's backlog shrinks with every round. */
  lemma {:induction false} BacklogShrinks(states: States, events: Events, k: nat, l: nat, m: nat, i: nat)
    requires Fair(states, events) && k <= l <= m && NoRemoval(states, events, k, m)
    requires i < |states(k).heap| && states(k).removals != [] && states(k).heap[i].name == states(k).removals[0]
    requires AddsLaterThan(events, l, states(k).heap[i].clock)
    ensures var c := states(k).heap[i].clock;
      Backlog(states(m).heap, c) + RoundsBetween(events, l, m) <= Backlog(states(l).heap, c)
    decreases m
  {
    hide Behaviour, KeepsWorking, ClockAdvances, RemovesAt, Conserved, Backlog, Next, Turns;
    if l < m {
      var c := states(k).heap[i].clock;
      BacklogShrinks(states, events, k, l, m - 1, i);
      var j := FrontWaits(states, events, k, m - 1, i);
      StaysRegular(states, events, m - 1);
      StepAt(states, events, m - 1);
      assert !RemovesAt(states, events, m - 1);
      LateOrAdvances(states, events, m - 1, l, c);
      BacklogNext(states(m - 1), events(m - 1), j);
    }
  }

  lemma LateOrAdvances(states: States, events: Events, m: nat, l: nat, c: int)
    requires Fair(states, events) && AddsLaterThan(events, l, c) && l <= m
    ensures Advances(events(m), c) && Brings(events(m), c) == 0
  {
    hide Behaviour, KeepsWorking, ClockAdvances, Conserved;
  }

  lemma {:induction false} FirstRemoval(states: States, events: Events, k: nat, m: nat) returns (n: nat)
    requires Behaviour(states, events) && k <= m && !NoRemoval(states, events, k, m)
    ensures k <= n < m && NoRemoval(states, events, k, n) && RemovesAt(states, events, n)
    decreases m
  {
    hide Behaviour, RemovesAt;
    if NoRemoval(states, events, k, m - 1) {
      n := m - 1;
    } else {
      n := FirstRemoval(states, events, k, m - 1);
    }
  }

  lemma TaskOf(s: State, name: string) returns (i: nat)
    requires Conserved(s) && name in s.removals
    ensures i < |s.heap| && s.heap[i].name == name
  {
    assert name in multiset(Names(s.heap));
    assert name in Names(s.heap);
    i :| 0 <= i < |s.heap| && Names(s.heap)[i] == name;
  }

  /** Whatever is at the front of the removal queue is removed after finitely many rounds. */
  lemma FrontCompletes(states: States, events: Events, k: nat) returns (n: nat)
    requires Fair(states, events) && states(k).removals != []
    ensures k <= n && NoRemoval(states, events, k, n) && RemovesAt(states, events, n)
    ensures states(k).removals <= states(n).removals
  {
    hide Behaviour, AllRegular, KeepsWorking, RemovesAt, Conserved, Backlog;
    StaysRegular(states, events, k);
    var i := TaskOf(states(k), states(k).removals[0]);
    var c := states(k).heap[i].clock;
    assert Passes(events, c);
    var l: nat :| AddsLaterThan(events, l, c);
    l := if l < k then k else l;
    var m := ManyRounds(states, events, k, l, Backlog(states(l).heap, c) + 1, i);
    if NoRemoval(states, events, k, m) {
      BacklogShrinks(states, events, k, l, m, i);
      assert false;
    }
    n := FirstRemoval(states, events, k, m);
    var j := FrontWaits(states, events, k, n, i);
  }

  /** Number of removals that complete in a stretch of a behaviour. */
  ghost function Completed(states: States, events: Events, k: nat, m: nat): nat
    requires Behaviour(states, events) && k <= m
    decreases m
  {
    if k == m then 0
    else Completed(states, events, k, m - 1) + if RemovesAt(states, events, m - 1) then 1 else 0
  }

  lemma {:induction false} NoneCompleted(states: States, events: Events, k: nat, l: nat, m: nat)
    requires Behaviour(states, events) && k <= l <= m && NoRemoval(states, events, l, m)
    ensures Completed(states, events, k, m) == Completed(states, events, k, l)
    decreases m
  {
    hide Behaviour, RemovesAt;
    if l < m { NoneCompleted(states, events, k, l, m - 1); }
  }

  /** Every requested removal completes, in the order of the requests. */
  lemma {:induction false} EveryRemovalCompletes(states: States, events: Events, k: nat, p: nat) returns (n: nat)
    requires Fair(states, events) && p < |states(k).removals|
    ensures k <= n && RemovesAt(states, events, n) && Completed(states, events, k, n) == p
    ensures states(n).heap[events(n).index].name == states(k).removals[p]
    ensures states(k).removals[p..] <= states(n).removals
    decreases p
  {
    hide Behaviour, RemovesAt, AllRegular, KeepsWorking, ClockAdvances, Conserved, NoRemoval;
    if p == 0 {
      n := FrontCompletes(states, events, k);
      NoneCompleted(states, events, k, k, n);
    } else {
      var n' := EveryRemovalCompletes(states, events, k, p - 1);
      OneRemoved(states, events, n', states(k).removals, p - 1);
      n := FrontCompletes(states, events, n' + 1);
      NoneCompleted(states, events, k, n' + 1, n);
    }
    FrontIsRemoved(states, events, n);
  }

  lemma FrontIsRemoved(states: States, events: Events, n: nat)
    requires Behaviour(states, events) && RemovesAt(states, events, n)
    ensures events(n).index < |states(n).heap|
    ensures states(n).removals != [] && states(n).heap[events(n).index].name == states(n).removals[0]
  {
  }

  lemma OneRemoved(states: States, events: Events, n: nat, requested: seq<string>, p: nat)
    requires Behaviour(states, events) && RemovesAt(states, events, n)
    requires p + 1 < |requested| && requested[p..] <= states(n).removals
    ensures requested[p + 1..] <= states(n + 1).removals && states(n + 1).removals[0] == requested[p + 1]
  {
    assert states(n + 1).removals == states(n).removals[1..];
    assert requested[p + 1..] == requested[p..][1..];
    assert requested[p..][1] == requested[p + 1];
  }

  // ---------------------------------------------------------------- the worker may become idle

  /** One task is added, requested to be removed and removed; after that nothing happens for ever. */
  function Idle(k: nat): Event {
    if k == 0 then Add("a", 1, 0) else if k == 2 then Work(0, 0) else Remove(0)
  }

  function IdleState(k: nat): State {
    if k == 0 then State([], [], [])
    else if k == 1 then State(["a"], [Task(0, "a", 1)], [])
    else if k == 2 then State([], [Task(0, "a", 1)], ["a"])
    else State([], [], [])
  }

  /** Such a behaviour is fair, too: fairness asks for rounds only as long as there is something to do. */
  lemma IdleIsFair()
    ensures Fair(IdleState, Idle)
  {
    assert Without(["a"], 0) == [] && Without([Task(0, "a", 1)], 0) == [] && ["a"][1..] == [];
    forall k: nat ensures Possible(IdleState(k), Idle(k)) && IdleState(k + 1) == Next(IdleState(k), Idle(k)) {}
    forall k: nat | IdleState(k).heap != [] ensures WorksFrom(Idle, k) {
      assert Idle(2).Work?;
    }
    forall c: int ensures Passes(Idle, c) {
      assert AddsLaterThan(Idle, 1, c);
    }
  }
}
