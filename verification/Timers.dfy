/** The scheduler of periodic tasks: a queue ordered by clock, the listed names, and a queue of removals. */
module Timers {
  import opened Collections

  datatype Task = Task(clock: int, name: string, interval: int)

  /** `heap` is the priority queue; its order says nothing, as any task of the least clock may be on top. */
  datatype State = State(names: seq<string>, heap: seq<Task>, removals: seq<string>)

  datatype Event =
    | Add(name: string, interval: int, now: int)
    | Remove(position: nat)
    | Work(now: int, index: nat)

  // ---------------------------------------------------------------- specification

  predicate IsTop(heap: seq<Task>, i: nat) {
    i < |heap| && forall j :: 0 <= j < |heap| ==> heap[i].clock <= heap[j].clock
  }

  /** The worker waits until the clock of its top task has come. */
  predicate Possible(s: State, e: Event) {
    e.Work? ==> IsTop(s.heap, e.index) && s.heap[e.index].clock <= e.now
  }

  function Without<T>(s: seq<T>, i: nat): seq<T>
    requires i < |s|
  {
    s[..i] + s[i + 1..]
  }

  /** The top task is taken away instead of executed. */
  predicate Removes(s: State, e: Event)
    requires Possible(s, e)
  {
    e.Work? && s.removals != [] && s.removals[0] == s.heap[e.index].name
  }

  predicate Executes(s: State, e: Event)
    requires Possible(s, e)
  {
    e.Work? && !Removes(s, e)
  }

  function Rearmed(t: Task): Task {
    t.(clock := t.clock + t.interval)
  }

  function Next(s: State, e: Event): State
    requires Possible(s, e)
  {
    match e
    case Add(name, interval, now) =>
      if name in s.names then s
      else s.(names := s.names + [name], heap := s.heap + [Task(now, name, interval)])
    case Remove(position) =>
      if position >= |s.names| then s
      else s.(names := Without(s.names, position), removals := s.removals + [s.names[position]])
    case Work(now, i) =>
      if Removes(s, e) then s.(heap := Without(s.heap, i), removals := s.removals[1..])
      else s.(heap := s.heap[i := Rearmed(s.heap[i])])
  }

  // ---------------------------------------------------------------- the scheduler

  /** `Undefined` is a read in front of the list. */
  datatype Request = Requested | Threw | Undefined

  class Scheduler {
    var taskNames: seq<string>
    var tasks: seq<Task>
    var removeTasks: seq<string>

    ghost function Abs(): State
      reads this
    {
      State(taskNames, tasks, removeTasks)
    }

    constructor ()
      ensures Abs() == State([], [], [])
    {
      taskNames, tasks, removeTasks := [], [], [];
    }

    method AddTask(name: string, interval: int, now: int) returns (ok: bool)
      modifies this
      ensures ok == (name !in old(taskNames)) && Abs() == Next(old(Abs()), Add(name, interval, now))
    {
      if name in taskNames {
        return false;
      }
      taskNames := taskNames + [name];
      tasks := tasks + [Task(now, name, interval)];
      return true;
    }

    /** Negative positions pass the check of the upper bound and are read all the same. */
    method RemoveTask(position: int) returns (r: Request)
      modifies this
      ensures r == if position >= |old(taskNames)| then Threw else if position < 0 then Undefined else Requested
      ensures Abs() == if position < 0 then old(Abs()) else Next(old(Abs()), Remove(position))
    {
      if position >= |taskNames| {
        return Threw;
      }
      if position < 0 {
        return Undefined;
      }
      var name := taskNames[position];
      removeTasks := removeTasks + [name];
      taskNames := taskNames[..position] + taskNames[position + 1..];
      return Requested;
    }

    /** One round of the worker, once a task on top is due. */
    method WorkOnce(now: int, i: nat) returns (executed: bool)
      requires Possible(Abs(), Work(now, i))
      modifies this
      ensures executed == Executes(old(Abs()), Work(now, i)) && Abs() == Next(old(Abs()), Work(now, i))
    {
      if removeTasks != [] && removeTasks[0] == tasks[i].name {
        removeTasks := removeTasks[1..];
        tasks := tasks[..i] + tasks[i + 1..];
        return false;
      }
      var task := tasks[i];
      tasks := tasks[i := task.(clock := task.clock + task.interval)];
      return true;
    }
  }

  // ---------------------------------------------------------------- conservation

  function Names(heap: seq<Task>): (names: seq<string>)
    ensures |names| == |heap|
  {
    seq(|heap|, i requires 0 <= i < |heap| => heap[i].name)
  }

  ghost predicate Distinct(names: seq<string>) {
    forall i, j :: 0 <= i < j < |names| ==> names[i] != names[j]
  }

  /** Every task is either listed or waiting to be removed, and listed names are distinct. */
  ghost predicate Conserved(s: State) {
    Distinct(s.names) && multiset(Names(s.heap)) == multiset(s.names) + multiset(s.removals)
  }

  lemma StillDistinct(names: seq<string>, i: nat)
    requires Distinct(names) && i < |names|
    ensures Distinct(Without(names, i))
  {
  }

  lemma AddConserved(s: State, name: string, interval: int, now: int)
    requires Conserved(s)
    ensures Conserved(Next(s, Add(name, interval, now)))
  {
    assert Names(s.heap + [Task(now, name, interval)]) == Names(s.heap) + [name];
  }

  lemma RemoveConserved(s: State, position: nat)
    requires Conserved(s)
    ensures Conserved(Next(s, Remove(position)))
  {
    if position < |s.names| {
      TakeOut(s.names, position);
      StillDistinct(s.names, position);
    }
  }

  lemma NamesAfterWork(s: State, now: int, i: nat)
    requires Possible(s, Work(now, i))
    ensures var t := Next(s, Work(now, i));
      if Removes(s, Work(now, i)) then
        && multiset(Names(s.heap)) == multiset(Names(t.heap)) + multiset{s.heap[i].name}
        && multiset(s.removals) == multiset(t.removals) + multiset{s.heap[i].name}
      else multiset(Names(s.heap)) == multiset(Names(t.heap)) && s.removals == t.removals
  {
    var t := Next(s, Work(now, i));
    if Removes(s, Work(now, i)) {
      TakeOut(Names(s.heap), i);
      assert Names(t.heap) == Without(Names(s.heap), i);
      assert s.removals == [s.removals[0]] + t.removals;
    } else {
      assert Names(t.heap) == Names(s.heap);
    }
  }

  lemma ConservedNext(s: State, e: Event)
    requires Conserved(s) && Possible(s, e)
    ensures Conserved(Next(s, e))
  {
    hide Names, Distinct;
    match e
    case Add(name, interval, now) => AddConserved(s, name, interval, now);
    case Remove(position) => RemoveConserved(s, position);
    case Work(now, i) =>
      NamesAfterWork(s, now, i);
      if Removes(s, e) {
        var t, name := Next(s, e), s.heap[i].name;
        OneLess(multiset(Names(t.heap)), multiset(s.names), multiset(t.removals), name);
      }
  }

  // ---------------------------------------------------------------- runs

  ghost predicate PossibleRun(s: State, run: seq<Event>)
    decreases |run|
  {
    run == [] || (Possible(s, run[0]) && PossibleRun(Next(s, run[0]), run[1..]))
  }

  ghost function After(s: State, run: seq<Event>): State
    requires PossibleRun(s, run)
    decreases |run|
  {
    if run == [] then s else After(Next(s, run[0]), run[1..])
  }

  /** All tasks that are executed in a run, with the clocks they were scheduled for. */
  ghost function Executed(s: State, run: seq<Event>): seq<Task>
    requires PossibleRun(s, run)
    decreases |run|
  {
    if run == [] then []
    else
      (if Executes(s, run[0]) then [s.heap[run[0].index]] else []) + Executed(Next(s, run[0]), run[1..])
  }

  lemma {:induction false} AlwaysConserved(s: State, run: seq<Event>)
    requires Conserved(s) && PossibleRun(s, run)
    ensures Conserved(After(s, run))
    decreases |run|
  {
    if run != [] {
      ConservedNext(s, run[0]);
      AlwaysConserved(Next(s, run[0]), run[1..]);
    }
  }

  // ---------------------------------------------------------------- requests

  /** A request takes just the name at the position off the list, and puts it behind the removals requested before. */
  lemma RequestedAt(s: State, position: nat)
    requires position < |s.names|
    ensures var t := Next(s, Remove(position));
      && t.heap == s.heap && |t.removals| == |s.removals| + 1 && |t.names| == |s.names| - 1
      && (forall i :: 0 <= i < |s.removals| ==> t.removals[i] == s.removals[i])
      && t.removals[|s.removals|] == s.names[position]
      && (forall i :: 0 <= i < |t.names| ==> t.names[i] == s.names[if i < position then i else i + 1])
  {
  }

  lemma NotRequested(s: State, position: nat)
    requires position >= |s.names|
    ensures Next(s, Remove(position)) == s
  {
  }

  /** A new name is listed last and due at once; a listed one is refused. */
  lemma AddedLast(s: State, name: string, interval: int, now: int)
    ensures var t := Next(s, Add(name, interval, now));
      if name in s.names then t == s
      else
        && t.removals == s.removals && |t.names| == |s.names| + 1 && |t.heap| == |s.heap| + 1
        && t.names[|s.names|] == name && t.heap[|s.heap|] == Task(now, name, interval)
        && (forall i :: 0 <= i < |s.names| ==> t.names[i] == s.names[i])
        && (forall i :: 0 <= i < |s.heap| ==> t.heap[i] == s.heap[i])
  {
  }

  // ---------------------------------------------------------------- removed tasks

  /** No task of the name is left, or there is just one and it is next to be removed. */
  ghost predicate Doomed(s: State, name: string) {
    || multiset(Names(s.heap))[name] == 0
    || (multiset(Names(s.heap))[name] == 1 && s.removals != [] && s.removals[0] == name)
  }

  lemma DoomedNext(s: State, e: Event, name: string)
    requires Doomed(s, name) && Possible(s, e) && !(e.Add? && e.name == name)
    ensures Doomed(Next(s, e), name)
    ensures Executes(s, e) ==> s.heap[e.index].name != name
  {
    match e
    case Add(other, interval, now) =>
      assert Names(s.heap + [Task(now, other, interval)]) == Names(s.heap) + [other];
    case Remove(_) =>
    case Work(now, i) =>
      NamesAfterWork(s, now, i);
      HasName(s.heap, i);
      hide Names, IsTop;
  }

  lemma HasName(heap: seq<Task>, i: nat)
    requires i < |heap|
    ensures multiset(Names(heap))[heap[i].name] > 0
  {
    assert Names(heap)[i] == heap[i].name;
    assert heap[i].name in multiset(Names(heap));
  }

  /** A task with a unique name that is next to be removed is never executed again, unless it is added again. */
  lemma {:induction false} NeverAgain(s: State, run: seq<Event>, name: string)
    requires Doomed(s, name) && PossibleRun(s, run)
    requires forall i :: 0 <= i < |run| ==> !(run[i].Add? && run[i].name == name)
    ensures forall i :: 0 <= i < |Executed(s, run)| ==> Executed(s, run)[i].name != name
    decreases |run|
  {
    if run != [] {
      DoomedNext(s, run[0], name);
      NeverAgain(Next(s, run[0]), run[1..], name);
    }
  }

  lemma Prepended(s: State, e: Event, run: seq<Event>)
    requires Possible(s, e) && PossibleRun(Next(s, e), run)
    ensures PossibleRun(s, [e] + run) && After(s, [e] + run) == After(Next(s, e), run)
    ensures Executed(s, [e] + run) ==
            (if Executes(s, e) then [s.heap[e.index]] else []) + Executed(Next(s, e), run)
  {
    assert ([e] + run)[1..] == run;
  }

  // ---------------------------------------------------------------- order of execution

  /** The clock reading of an event; removals do not read it. */
  function Reading(e: Event, now: int): int {
    if e.Remove? then now else e.now
  }

  /** Clock readings never decrease, from `now` on, and no task is added with a negative interval. */
  ghost predicate Forward(run: seq<Event>, now: int)
    decreases |run|
  {
    run == [] || (now <= Reading(run[0], now) && (run[0].Add? ==> run[0].interval >= 0)
                  && Forward(run[1..], Reading(run[0], now)))
  }

  /** No task is scheduled before `c`, and none goes back in time. */
  ghost predicate NotBefore(heap: seq<Task>, c: int) {
    forall i :: 0 <= i < |heap| ==> c <= heap[i].clock && heap[i].interval >= 0
  }

  ghost predicate Ascending(tasks: seq<Task>, c: int) {
    && (forall i :: 0 <= i < |tasks| ==> c <= tasks[i].clock)
    && (forall i, j :: 0 <= i < j < |tasks| ==> tasks[i].clock <= tasks[j].clock)
  }

  lemma NotBeforeNext(s: State, e: Event, c: int, now: int)
    requires NotBefore(s.heap, c) && c <= now <= Reading(e, now) && Possible(s, e)
    requires e.Add? ==> e.interval >= 0
    ensures NotBefore(Next(s, e).heap, if Executes(s, e) then s.heap[e.index].clock else c)
    ensures Executes(s, e) ==> c <= s.heap[e.index].clock <= Reading(e, now)
  {
  }

  /** Tasks are executed in the order of the clocks they were scheduled for, tasks added later included. */
  lemma {:induction false} InOrder(s: State, run: seq<Event>, c: int, now: int)
    requires PossibleRun(s, run) && NotBefore(s.heap, c) && c <= now && Forward(run, now)
    ensures Ascending(Executed(s, run), c)
    decreases |run|
  {
    if run != [] {
      NotBeforeNext(s, run[0], c, now);
      var d := if Executes(s, run[0]) then s.heap[run[0].index].clock else c;
      InOrder(Next(s, run[0]), run[1..], d, Reading(run[0], now));
    }
  }

  // ---------------------------------------------------------------- where tasks go

  /** Where task `i` is after an event that leaves it alone. */
  function Moved(s: State, e: Event, i: nat): nat
    requires Possible(s, e) && i < |s.heap|
  {
    if Removes(s, e) && e.index < i then i - 1 else i
  }

  predicate Picks(e: Event, i: nat) {
    e.Work? && e.index == i
  }

  lemma MovedTo(s: State, e: Event, i: nat)
    requires Possible(s, e) && i < |s.heap| && !Picks(e, i)
    ensures Moved(s, e, i) < |Next(s, e).heap| && Next(s, e).heap[Moved(s, e, i)] == s.heap[i]
  {
  }

  /** Task `i` is neither executed nor removed in the whole run. */
  ghost predicate Waits(s: State, run: seq<Event>, i: nat)
    decreases |run|
  {
    && i < |s.heap|
    && (run == [] || (Possible(s, run[0]) && !Picks(run[0], i)
                      && Waits(Next(s, run[0]), run[1..], Moved(s, run[0], i))))
  }

  /** Where task `i` is after a run in which it waits. */
  ghost function MovedOver(s: State, run: seq<Event>, i: nat): nat
    requires Waits(s, run, i)
    decreases |run|
  {
    if run == [] then i else MovedOver(Next(s, run[0]), run[1..], Moved(s, run[0], i))
  }

  lemma {:induction false} WaitsUnchanged(s: State, run: seq<Event>, i: nat)
    requires Waits(s, run, i)
    ensures PossibleRun(s, run)
    ensures MovedOver(s, run, i) < |After(s, run).heap| && After(s, run).heap[MovedOver(s, run, i)] == s.heap[i]
    decreases |run|
  {
    if run != [] {
      MovedTo(s, run[0], i);
      WaitsUnchanged(Next(s, run[0]), run[1..], Moved(s, run[0], i));
    }
  }

  // ---------------------------------------------------------------- periods

  /** Task `i` is not removed in the run. */
  ghost predicate Stays(s: State, run: seq<Event>, i: nat)
    decreases |run|
  {
    && i < |s.heap|
    && (run == [] || (Possible(s, run[0]) && !(Picks(run[0], i) && Removes(s, run[0]))
                      && Stays(Next(s, run[0]), run[1..], Moved(s, run[0], i))))
  }

  /** How often it is executed, and where it is afterwards. */
  ghost function TimesExecuted(s: State, run: seq<Event>, i: nat): nat
    requires Stays(s, run, i)
    decreases |run|
  {
    if run == [] then 0
    else (if Picks(run[0], i) then 1 else 0) + TimesExecuted(Next(s, run[0]), run[1..], Moved(s, run[0], i))
  }

  ghost function PlaceAfter(s: State, run: seq<Event>, i: nat): nat
    requires Stays(s, run, i)
    decreases |run|
  {
    if run == [] then i else PlaceAfter(Next(s, run[0]), run[1..], Moved(s, run[0], i))
  }

  lemma StaysStep(s: State, e: Event, i: nat)
    requires Possible(s, e) && i < |s.heap| && !(Picks(e, i) && Removes(s, e))
    ensures Moved(s, e, i) < |Next(s, e).heap|
    ensures Next(s, e).heap[Moved(s, e, i)] ==
            if Picks(e, i) then s.heap[i].(clock := s.heap[i].clock + s.heap[i].interval) else s.heap[i]
  {
    if !Picks(e, i) { MovedTo(s, e, i); }
  }

  /** The task some intervals later. */
  function Later(t: Task, n: nat): Task {
    t.(clock := t.clock + n * t.interval)
  }

  lemma LaterOnce(t: Task, n: nat)
    ensures Later(t.(clock := t.clock + t.interval), n) == Later(t, n + 1)
    ensures Later(t, 0) == t
  {
  }

  /** Each execution puts the task's clock one interval further, and nothing else changes it. */
  lemma {:induction false} Periodic(s: State, run: seq<Event>, i: nat)
    requires Stays(s, run, i)
    ensures PossibleRun(s, run) && PlaceAfter(s, run, i) < |After(s, run).heap|
    ensures After(s, run).heap[PlaceAfter(s, run, i)] == Later(s.heap[i], TimesExecuted(s, run, i))
    decreases |run|
  {
    LaterOnce(s.heap[i], 0);
    if run != [] {
      var e, t := run[0], s.heap[i];
      StaysStep(s, e, i);
      hide Next, Moved, Picks, Removes, Later;
      Periodic(Next(s, e), run[1..], Moved(s, e, i));
      var n := TimesExecuted(Next(s, e), run[1..], Moved(s, e, i));
      LaterOnce(t, n);
    }
  }

  // ---------------------------------------------------------------- which task a removal takes

  lemma {:induction false} StayApart(s: State, run: seq<Event>, i: nat, j: nat)
    requires Waits(s, run, i) && Waits(s, run, j) && i != j
    ensures MovedOver(s, run, i) != MovedOver(s, run, j)
    decreases |run|
  {
    if run != [] {
      StayApart(Next(s, run[0]), run[1..], Moved(s, run[0], i), Moved(s, run[0], j));
    }
  }

  /**
    Two tasks of one name: whatever happens while both wait, the round that ends the waiting of one of them picks the
    one with the lower clock, or either one of equal clocks. If the name is then at the front of the removals, the
    task picked is the one removed, and the other one stays.
  */
  lemma RemovalTakesLower(s: State, run: seq<Event>, i: nat, j: nat, now: int, k: nat)
    requires Waits(s, run, i) && Waits(s, run, j) && i != j && s.heap[i].name == s.heap[j].name
    requires PossibleRun(s, run) && Possible(After(s, run), Work(now, k))
    requires k == MovedOver(s, run, i) || k == MovedOver(s, run, j)
    ensures k == MovedOver(s, run, i) ==> s.heap[i].clock <= s.heap[j].clock
    ensures k == MovedOver(s, run, j) ==> s.heap[j].clock <= s.heap[i].clock
    ensures s.heap[i].clock != s.heap[j].clock ==>
              (k == MovedOver(s, run, i) <==> s.heap[i].clock < s.heap[j].clock)
    ensures s.heap[i].clock == s.heap[j].clock ==>
              Possible(After(s, run), Work(now, MovedOver(s, run, i)))
              && Possible(After(s, run), Work(now, MovedOver(s, run, j)))
    ensures var t, name := After(s, run), s.heap[i].name;
      t.removals != [] && t.removals[0] == name ==>
        Removes(t, Work(now, k)) && Next(t, Work(now, k)).heap == Without(t.heap, k)
        && (if k == MovedOver(s, run, i) then s.heap[j] else s.heap[i]) in Next(t, Work(now, k)).heap
  {
    WaitsUnchanged(s, run, i);
    WaitsUnchanged(s, run, j);
    StayApart(s, run, i, j);
    var t, other := After(s, run), if k == MovedOver(s, run, i) then MovedOver(s, run, j) else MovedOver(s, run, i);
    MovedTo(t, Work(now, k), other);
  }

  /** So with a name in use twice, the removal can take the new task and leave the old one to run on. */
  lemma OldTaskSurvives(now: int, k: nat)
    requires Possible(OLD_AND_NEW, Work(now, k))
    ensures PossibleRun(State([], [], []), REUSED_NAME) && After(State([], [], []), REUSED_NAME) == OLD_AND_NEW
    ensures Next(OLD_AND_NEW, Work(now, k)) == State(["a"], [Task(10, "a", 10)], [])
  {
    ReusedName();
    assert OLD_AND_NEW.heap[1].clock == 7 && k < 2;
    RemovalTakesLower(OLD_AND_NEW, [], 0, 1, now, k);
  }

  /** A task is added, executed and requested to be removed, and its name is used again. */
  const REUSED_NAME := [Add("a", 10, 0), Work(0, 0), Remove(0), Add("a", 1, 7)]

  const OLD_AND_NEW := State(["a"], [Task(10, "a", 10), Task(7, "a", 1)], ["a"])

  lemma ReusedName()
    ensures PossibleRun(State([], [], []), REUSED_NAME) && After(State([], [], []), REUSED_NAME) == OLD_AND_NEW
  {
    var s0 := State([], [], []);
    var s1 := State(["a"], [Task(0, "a", 10)], []);
    var s2 := State(["a"], [Task(10, "a", 10)], []);
    var s3 := State([], [Task(10, "a", 10)], ["a"]);
    assert Next(s0, Add("a", 10, 0)) == s1 && Next(s1, Work(0, 0)) == s2 && Next(s2, Remove(0)) == s3;
    assert Next(s3, Add("a", 1, 7)) == OLD_AND_NEW;
    hide Next;
    Prepended(s3, Add("a", 1, 7), []);
    Prepended(s2, Remove(0), [Add("a", 1, 7)]);
    Prepended(s1, Work(0, 0), [Remove(0), Add("a", 1, 7)]);
    Prepended(s0, Add("a", 10, 0), [Work(0, 0), Remove(0), Add("a", 1, 7)]);
  }
}
