/** How long a task of the scheduler can wait, and when the order of execution is kept: exact conditions. */
module TimerWaiting {
  import opened Collections
  import opened Timers
  import Arithmetic

  // ---------------------------------------------------------------- the backlog in front of a task

  /** How often a task may still be on top before one that is scheduled for `c`. */
  function Turns(t: Task, c: int): (n: nat) {
    if t.clock > c then 0 else if t.interval >= 1 then (c - t.clock) / t.interval + 1 else 1
  }

  function Backlog(heap: seq<Task>, c: int): (n: nat)
    ensures forall i :: 0 <= i < |heap| ==> Turns(heap[i], c) <= n
  {
    if heap == [] then 0 else Turns(heap[0], c) + Backlog(heap[1..], c)
  }

  /** Executing a task that is scheduled up to `c` takes exactly one of its turns. */
  lemma TurnTaken(t: Task, c: int)
    requires t.interval >= 1 && t.clock <= c
    ensures Turns(Rearmed(t), c) == Turns(t, c) - 1
  {
    Arithmetic.ModShifted(c - t.clock, -1, t.interval);
    if c - t.clock < t.interval { Arithmetic.Euclid(c - t.clock, 0, c - t.clock, t.interval); }
  }

  lemma {:induction false} BacklogUpdate(heap: seq<Task>, i: nat, t: Task, c: int)
    requires i < |heap|
    ensures Backlog(heap[i := t], c) == Backlog(heap, c) - Turns(heap[i], c) + Turns(t, c)
  {
    hide Turns;
    if i > 0 {
      BacklogUpdate(heap[1..], i - 1, t, c);
      assert heap[i := t][1..] == heap[1..][i - 1 := t];
    } else {
      assert heap[i := t][1..] == heap[1..];
    }
  }

  lemma {:induction false} BacklogWithout(heap: seq<Task>, i: nat, c: int)
    requires i < |heap|
    ensures Backlog(Without(heap, i), c) == Backlog(heap, c) - Turns(heap[i], c)
  {
    hide Turns;
    if i > 0 {
      BacklogWithout(heap[1..], i - 1, c);
      assert Without(heap, i)[1..] == Without(heap[1..], i - 1);
    } else {
      assert Without(heap, i) == heap[1..];
    }
  }

  lemma {:induction false} BacklogAppend(heap: seq<Task>, t: Task, c: int)
    ensures Backlog(heap + [t], c) == Backlog(heap, c) + Turns(t, c)
  {
    hide Turns;
    if heap == [] {
      assert heap + [t] == [t];
    } else {
      BacklogAppend(heap[1..], t, c);
      assert (heap + [t])[1..] == heap[1..] + [t];
    }
  }

  /** The turns that an addition brings in. */
  function Brings(e: Event, c: int): nat {
    if e.Add? then Turns(Task(e.now, e.name, e.interval), c) else 0
  }

  /** All other tasks that are scheduled no later than task `i` have an interval of at least a tick. */
  ghost predicate OthersAdvance(heap: seq<Task>, i: nat)
    requires i < |heap|
  {
    forall j :: 0 <= j < |heap| && j != i && heap[j].clock <= heap[i].clock ==> heap[j].interval >= 1
  }

  /** An addition up to `c` has an interval of at least a tick, too. */
  predicate Advances(e: Event, c: int) {
    e.Add? && e.now <= c ==> e.interval >= 1
  }

  lemma AdvanceNext(s: State, e: Event, i: nat)
    requires Possible(s, e) && i < |s.heap| && !Picks(e, i)
    requires OthersAdvance(s.heap, i) && Advances(e, s.heap[i].clock)
    ensures Moved(s, e, i) < |Next(s, e).heap| && Next(s, e).heap[Moved(s, e, i)] == s.heap[i]
    ensures OthersAdvance(Next(s, e).heap, Moved(s, e, i))
  {
    MovedTo(s, e, i);
    var h, t, m := s.heap, Next(s, e).heap, Moved(s, e, i);
    forall j | 0 <= j < |t| && j != m && t[j].clock <= t[m].clock ensures t[j].interval >= 1 {
      if Removes(s, e) {
        assert t[j] == h[if j < e.index then j else j + 1];
      }
    }
  }

  /** Every round that does not pick task `i` takes a turn from the backlog at its clock. */
  lemma BacklogNext(s: State, e: Event, i: nat)
    requires Possible(s, e) && i < |s.heap| && !Picks(e, i)
    requires OthersAdvance(s.heap, i) && Advances(e, s.heap[i].clock)
    ensures var c := s.heap[i].clock;
      Backlog(Next(s, e).heap, c) <= Backlog(s.heap, c) + Brings(e, c) - if e.Work? then 1 else 0
  {
    hide Backlog;
    var c := s.heap[i].clock;
    match e
    case Add(name, interval, now) =>
      if name !in s.names { BacklogAppend(s.heap, Task(now, name, interval), c); }
    case Remove(_) =>
    case Work(_, j) =>
      if Removes(s, e) {
        BacklogWithout(s.heap, j, c);
      } else {
        TurnTaken(s.heap[j], c);
        BacklogUpdate(s.heap, j, Rearmed(s.heap[j]), c);
      }
  }

  function Rounds(run: seq<Event>): nat {
    if run == [] then 0 else (if run[0].Work? then 1 else 0) + Rounds(run[1..])
  }

  ghost predicate AdvancingRun(run: seq<Event>, c: int) {
    forall k :: 0 <= k < |run| ==> Advances(run[k], c)
  }

  function Brought(run: seq<Event>, c: int): nat {
    if run == [] then 0 else Brings(run[0], c) + Brought(run[1..], c)
  }

  /** While a task waits, there are fewer rounds than the backlog at its clock and what is added to it. */
  lemma {:induction false} BoundedWaiting(s: State, run: seq<Event>, i: nat)
    requires Waits(s, run, i) && OthersAdvance(s.heap, i) && AdvancingRun(run, s.heap[i].clock)
    ensures Rounds(run) < Backlog(s.heap, s.heap[i].clock) + Brought(run, s.heap[i].clock)
    decreases |run|
  {
    if run != [] {
      var e, c := run[0], s.heap[i].clock;
      assert Advances(e, c);
      AdvanceNext(s, e, i);
      BacklogNext(s, e, i);
      assert forall k :: 0 <= k < |run[1..]| ==> run[1..][k] == run[k + 1];
      hide OthersAdvance, Advances, Moved, Next, Backlog, Brings;
      BoundedWaiting(Next(s, e), run[1..], Moved(s, e, i));
    } else {
      assert Turns(s.heap[i], s.heap[i].clock) >= 1;
    }
  }

  // ---------------------------------------------------------------- exactly when waiting is bounded

  /** Rounds only: nothing is added and no removal is requested. */
  ghost predicate OnlyRounds(run: seq<Event>) {
    forall k :: 0 <= k < |run| ==> run[k].Work?
  }

  lemma {:induction false} CountRounds(run: seq<Event>, c: int)
    requires OnlyRounds(run)
    ensures Rounds(run) == |run| && Brought(run, c) == 0
  {
    if run != [] { CountRounds(run[1..], c); }
  }

  /** Task `i` waits for at most `n` rounds. */
  ghost predicate WaitsAtMost(s: State, i: nat, n: nat) {
    forall run :: OnlyRounds(run) && Waits(s, run, i) ==> |run| <= n
  }

  lemma {:induction false} TopExists(heap: seq<Task>) returns (k: nat)
    requires heap != []
    ensures IsTop(heap, k)
  {
    k := 0;
    if |heap| > 1 {
      var j := TopExists(heap[1..]);
      assert forall m :: 0 < m < |heap| ==> heap[m] == heap[1..][m - 1];
      if heap[j + 1].clock < heap[0].clock { k := j + 1; }
    }
  }

  /** A task that never advances, scheduled no later than `i`, lets some task other than `i` be on top. */
  lemma OtherTop(heap: seq<Task>, i: nat, j: nat) returns (k: nat)
    requires i < |heap| && j < |heap| && j != i && heap[j].clock <= heap[i].clock
    ensures IsTop(heap, k) && k != i && heap[k].clock <= heap[i].clock
  {
    k := TopExists(heap);
    if k == i { k := j; }
  }

  /** Then `i` can wait for any number of rounds, at any clock reading from its own on. */
  lemma {:induction false} WaitsAnyTime(s: State, i: nat, j: nat, now: int, n: nat) returns (run: seq<Event>)
    requires s.removals == [] && i < |s.heap| && j < |s.heap| && j != i
    requires s.heap[j].clock <= s.heap[i].clock <= now && s.heap[j].interval <= 0
    ensures |run| == n && OnlyRounds(run) && Waits(s, run, i)
    ensures forall k :: 0 <= k < |run| ==> run[k].now == now
    decreases n
  {
    run := [];
    if n > 0 {
      var k := OtherTop(s.heap, i, j);
      var e := Work(now, k);
      var rest := WaitsAnyTime(Next(s, e), i, j, now, n - 1);
      run := [e] + rest;
      assert run[1..] == rest;
    }
  }

  /** Without requested removals, the waiting of a task is bounded iff all others scheduled no later advance. */
  lemma BoundedWithoutRemovals(s: State, i: nat)
    requires s.removals == [] && i < |s.heap|
    ensures (exists n: nat :: WaitsAtMost(s, i, n)) <==> OthersAdvance(s.heap, i)
  {
    var c := s.heap[i].clock;
    if OthersAdvance(s.heap, i) {
      forall run | OnlyRounds(run) && Waits(s, run, i) ensures |run| <= Backlog(s.heap, c) {
        CountRounds(run, c);
        BoundedWaiting(s, run, i);
      }
      assert WaitsAtMost(s, i, Backlog(s.heap, c));
    } else {
      var j :| 0 <= j < |s.heap| && j != i && s.heap[j].clock <= c && !(s.heap[j].interval >= 1);
      forall n: nat ensures !WaitsAtMost(s, i, n) {
        var run := WaitsAnyTime(s, i, j, c, n + 1);
      }
    }
  }

  /** So a task without interval starves every task that is scheduled no earlier. */
  lemma Starves(name: string, task: Task, clock: int, n: nat)
    requires clock <= task.clock
    ensures !WaitsAtMost(State([name, task.name], [Task(clock, name, 0), task], []), 1, n)
  {
    var s := State([name, task.name], [Task(clock, name, 0), task], []);
    assert s.heap[0].interval == 0 && !OthersAdvance(s.heap, 1);
    BoundedWithoutRemovals(s, 1);
  }

  // ---------------------------------------------------------------- waiting while removals are requested

  /** The round that picks task `k` as soon as it is due. */
  function Round(s: State, k: nat): Event
    requires k < |s.heap|
  {
    Work(s.heap[k].clock, k)
  }

  /** A possible round that leaves `j` and `i` alone, and removes a task or executes one that advances. */
  predicate Progress(s: State, k: nat, j: nat, i: nat) {
    IsTop(s.heap, k) && k != j && k != i && (Removes(s, Round(s, k)) || s.heap[k].interval >= 1)
  }

  /** The task is on top and not next to be removed. */
  predicate ExecutedNext(s: State, j: nat) {
    IsTop(s.heap, j) && Executes(s, Round(s, j))
  }

  /** Task `j` comes to be on top without being next to be removed, within `n` rounds of that kind. */
  ghost predicate Reaches(s: State, j: nat, i: nat, n: nat)
    decreases n, 0
  {
    && j < |s.heap| && i < |s.heap|
    && (|| ExecutedNext(s, j)
        || (n > 0 && exists k: nat :: Progress(s, k, j, i) && ReachesAfter(s, Round(s, k), j, i, n - 1)))
  }

  ghost predicate ReachesAfter(s: State, e: Event, j: nat, i: nat, n: nat)
    requires Possible(s, e) && j < |s.heap| && i < |s.heap|
    decreases n, 1
  {
    Reaches(Next(s, e), Moved(s, e, j), Moved(s, e, i), n)
  }

  /** A task that does not advance can get in front of `i` before anything removes it. */
  ghost predicate CanStall(s: State, i: nat)
    requires i < |s.heap|
  {
    exists j: nat :: Stalls(s, i, j)
  }

  ghost predicate Stalls(s: State, i: nat, j: nat)
    requires i < |s.heap|
  {
    && j < |s.heap| && j != i && s.heap[j].interval <= 0 && s.heap[j].clock <= s.heap[i].clock
    && Reaches(s, j, i, Backlog(s.heap, s.heap[j].clock))
  }

  lemma ReachesVia(s: State, k: nat, j: nat, i: nat, n: nat)
    requires j < |s.heap| && i < |s.heap| && Progress(s, k, j, i) && ReachesAfter(s, Round(s, k), j, i, n)
    ensures Reaches(s, j, i, n + 1)
  {
    hide Next, Moved, ReachesAfter, IsTop;
  }

  lemma FirstRound(s: State, j: nat, i: nat, n: nat) returns (k: nat)
    requires Reaches(s, j, i, n) && !ExecutedNext(s, j)
    ensures n > 0 && k < |s.heap| && Possible(s, Round(s, k))
    ensures Progress(s, k, j, i) && ReachesAfter(s, Round(s, k), j, i, n - 1)
  {
    k :| Progress(s, k, j, i) && ReachesAfter(s, Round(s, k), j, i, n - 1);
    hide Next, Moved;
  }

  lemma {:induction false} ReachesMore(s: State, j: nat, i: nat, m: nat, n: nat)
    requires Reaches(s, j, i, m) && m <= n
    ensures Reaches(s, j, i, n)
    decreases m
  {
    hide IsTop, Executes, Progress, Next, Moved, ExecutedNext;
    if !ExecutedNext(s, j) {
      var k := FirstRound(s, j, i, m);
      hide Reaches;
      var e := Round(s, k);
      ReachesMore(Next(s, e), Moved(s, e, j), Moved(s, e, i), m - 1, n - 1);
      ReachesVia(s, k, j, i, n - 1);
    }
  }

  /** A round that removes a task, or executes one that advances, uses up backlog. */
  lemma BacklogRound(s: State, e: Event, c: int)
    requires Possible(s, e) && e.Work? && s.heap[e.index].clock <= c
    requires Removes(s, e) || s.heap[e.index].interval >= 1
    ensures Backlog(Next(s, e).heap, c) < Backlog(s.heap, c)
  {
    hide Backlog;
    if Removes(s, e) {
      BacklogWithout(s.heap, e.index, c);
    } else {
      TurnTaken(s.heap[e.index], c);
      BacklogUpdate(s.heap, e.index, Rearmed(s.heap[e.index]), c);
    }
  }

  lemma ReachesEarlier(s: State, e: Event, j: nat, i: nat)
    requires Possible(s, e) && e.Work? && j < |s.heap| && i < |s.heap| && e.index != j && e.index != i
    requires Removes(s, e) || s.heap[e.index].interval >= 1
    requires Reaches(Next(s, e), Moved(s, e, j), Moved(s, e, i), Backlog(Next(s, e).heap, s.heap[j].clock))
    ensures Reaches(s, j, i, Backlog(s.heap, s.heap[j].clock))
  {
    var k, d, n := e.index, Round(s, e.index), Backlog(Next(s, e).heap, s.heap[j].clock);
    BacklogRound(s, e, s.heap[j].clock);
    hide Backlog;
    assert Next(s, d) == Next(s, e) && Moved(s, d, j) == Moved(s, e, j) && Moved(s, d, i) == Moved(s, e, i);
    assert Progress(s, k, j, i);
    ReachesVia(s, k, j, i, n);
    ReachesMore(s, j, i, n + 1, Backlog(s.heap, s.heap[j].clock));
  }

  /** Where a task was before a round that did not execute it. */
  lemma Origin(s: State, e: Event, m: nat) returns (j: nat)
    requires Possible(s, e) && e.Work? && m < |Next(s, e).heap| && (Executes(s, e) ==> m != e.index)
    ensures j < |s.heap| && j != e.index && Moved(s, e, j) == m && s.heap[j] == Next(s, e).heap[m]
  {
    j := if Removes(s, e) && m >= e.index then m + 1 else m;
  }

  lemma StallsEarlier(s: State, e: Event, i: nat)
    requires Possible(s, e) && e.Work? && i < |s.heap| && e.index != i
    ensures Executes(s, e) && s.heap[e.index].interval <= 0 ==> CanStall(s, i)
    ensures Moved(s, e, i) < |Next(s, e).heap| && (CanStall(Next(s, e), Moved(s, e, i)) ==> CanStall(s, i))
  {
    var k, t, h := e.index, Next(s, e), Moved(s, e, i);
    MovedTo(s, e, i);
    hide Backlog;
    if Executes(s, e) && s.heap[k].interval <= 0 {
      assert Stalls(s, i, k);
    } else if CanStall(t, h) {
      var m: nat :| Stalls(t, h, m);
      var j := Origin(s, e, m);
      ReachesEarlier(s, e, j, i);
      assert Stalls(s, i, j);
    }
  }

  lemma {:induction false} NoStallBounds(s: State, run: seq<Event>, i: nat)
    requires Waits(s, run, i) && OnlyRounds(run) && !CanStall(s, i)
    ensures |run| < Backlog(s.heap, s.heap[i].clock)
    decreases |run|
  {
    if run != [] {
      var e := run[0];
      StallsEarlier(s, e, i);
      MovedTo(s, e, i);
      BacklogRound(s, e, s.heap[i].clock);
      hide Backlog, CanStall, Moved, Next;
      NoStallBounds(Next(s, e), run[1..], Moved(s, e, i));
    } else {
      assert Turns(s.heap[i], s.heap[i].clock) >= 1;
    }
  }

  /** On top, a task that does not advance is executed any number of times. */
  lemma {:induction false} StaysOnTop(s: State, j: nat, i: nat, n: nat) returns (run: seq<Event>)
    requires i < |s.heap| && i != j && ExecutedNext(s, j) && s.heap[j].interval <= 0
    ensures |run| == n && OnlyRounds(run) && Waits(s, run, i)
    decreases n
  {
    run := [];
    if n > 0 {
      var e := Round(s, j);
      var rest := StaysOnTop(Next(s, e), j, i, n - 1);
      run := [e] + rest;
      assert run[1..] == rest;
    }
  }

  lemma {:induction false} LongWait(s: State, j: nat, i: nat, m: nat, n: nat) returns (run: seq<Event>)
    requires Reaches(s, j, i, m) && i != j && s.heap[j].interval <= 0
    ensures |run| >= n && OnlyRounds(run) && Waits(s, run, i)
    decreases m
  {
    if ExecutedNext(s, j) {
      run := StaysOnTop(s, j, i, n);
    } else {
      var k := FirstRound(s, j, i, m);
      var e := Round(s, k);
      MovedTo(s, e, j);
      var rest := LongWait(Next(s, e), Moved(s, e, j), Moved(s, e, i), m - 1, n);
      run := [e] + rest;
      assert run[1..] == rest;
    }
  }

  /**
    Whatever removals are requested, the number of rounds for which a task can wait is bounded exactly if no task that
    does not advance can get in front of it. That is settled by looking at no more rounds than the backlog has turns.
  */
  lemma WaitingBoundedIff(s: State, i: nat)
    requires i < |s.heap|
    ensures (exists n: nat :: WaitsAtMost(s, i, n)) <==> !CanStall(s, i)
  {
    hide Reaches, Backlog;
    if CanStall(s, i) {
      var j: nat :| Stalls(s, i, j);
      forall n: nat ensures !WaitsAtMost(s, i, n) {
        var run := LongWait(s, j, i, Backlog(s.heap, s.heap[j].clock), n + 1);
      }
    } else {
      forall run | OnlyRounds(run) && Waits(s, run, i) ensures |run| <= Backlog(s.heap, s.heap[i].clock) {
        NoStallBounds(s, run, i);
      }
      assert WaitsAtMost(s, i, Backlog(s.heap, s.heap[i].clock));
    }
  }

  // ---------------------------------------------------------------- exactly when rounds are in order

  /** Some task goes back in time and is scheduled no later than every task that stands still. */
  ghost predicate CanGoBack(heap: seq<Task>) {
    exists j :: 0 <= j < |heap| && heap[j].interval < 0 && NoneStandsBefore(heap, heap[j].clock)
  }

  ghost predicate NoneStandsBefore(heap: seq<Task>, c: int) {
    forall k :: 0 <= k < |heap| && heap[k].interval == 0 ==> c <= heap[k].clock
  }

  ghost predicate Orderly(s: State) {
    forall run :: OnlyRounds(run) && PossibleRun(s, run) ==> InOrderOfClock(Executed(s, run))
  }

  ghost predicate InOrderOfClock(tasks: seq<Task>) {
    forall i, j :: 0 <= i < j < |tasks| ==> tasks[i].clock <= tasks[j].clock
  }

  /** Task `j` is the first that goes back in time: all tasks in front of it advance. */
  ghost predicate FirstBack(heap: seq<Task>, j: nat) {
    && j < |heap| && heap[j].interval < 0
    && forall k :: 0 <= k < |heap| && heap[k].clock < heap[j].clock ==> heap[k].interval >= 1
  }

  lemma {:induction false} FirstBackExists(heap: seq<Task>, j: nat) returns (k: nat)
    requires j < |heap| && heap[j].interval < 0 && NoneStandsBefore(heap, heap[j].clock)
    ensures FirstBack(heap, k)
    decreases Earlier(heap, heap[j].clock)
  {
    k := j;
    if !FirstBack(heap, j) {
      var m :| 0 <= m < |heap| && heap[m].clock < heap[j].clock && !(heap[m].interval >= 1);
      FewerEarlier(heap, heap[m].clock, heap[j].clock, m);
      k := FirstBackExists(heap, m);
    }
  }

  /** Number of tasks before a clock. */
  function Earlier(heap: seq<Task>, c: int): nat {
    if heap == [] then 0 else (if heap[0].clock < c then 1 else 0) + Earlier(heap[1..], c)
  }

  lemma {:induction false} FewerEarlier(heap: seq<Task>, b: int, c: int, m: nat)
    requires b <= c
    ensures Earlier(heap, b) <= Earlier(heap, c)
    ensures m < |heap| && b <= heap[m].clock < c ==> Earlier(heap, b) < Earlier(heap, c)
  {
    if heap != [] { FewerEarlier(heap[1..], b, c, if m == 0 then 0 else m - 1); }
  }

  /** Rounds bring such a task to the top, and from there it is executed twice, the second time for an earlier clock. */
  lemma {:induction false} GoesBack(s: State, j: nat, now: int) returns (run: seq<Event>)
    requires s.removals == [] && FirstBack(s.heap, j) && s.heap[j].clock <= now
    ensures OnlyRounds(run) && PossibleRun(s, run) && !InOrderOfClock(Executed(s, run))
    decreases Backlog(s.heap, s.heap[j].clock - 1)
  {
    hide Backlog, Turns, Executed, PossibleRun, InOrderOfClock;
    var k := TopExists(s.heap);
    var c := s.heap[j].clock;
    if s.heap[k].clock == c {
      run := TwiceOnTop(s, j, now);
    } else {
      var e := Work(now, k);
      TurnTaken(s.heap[k], c - 1);
      BacklogUpdate(s.heap, k, Rearmed(s.heap[k]), c - 1);
      var rest := GoesBack(Next(s, e), j, now);
      run := [e] + rest;
      Prepended(s, e, rest);
      StaysOutOfOrder(s.heap[k], Executed(Next(s, e), rest));
    }
  }

  lemma StaysOutOfOrder(t: Task, tasks: seq<Task>)
    requires !InOrderOfClock(tasks)
    ensures !InOrderOfClock([t] + tasks)
  {
    var i, j :| 0 <= i < j < |tasks| && !(tasks[i].clock <= tasks[j].clock);
    assert ([t] + tasks)[i + 1] == tasks[i] && ([t] + tasks)[j + 1] == tasks[j];
  }

  lemma TwiceOnTop(s: State, j: nat, now: int) returns (run: seq<Event>)
    requires IsTop(s.heap, j) && s.heap[j].interval < 0 && s.heap[j].clock <= now && Executes(s, Work(now, j))
    ensures OnlyRounds(run) && PossibleRun(s, run) && !InOrderOfClock(Executed(s, run))
  {
    var e := Work(now, j);
    run := [e, e];
    var t := Next(s, e);
    assert t.heap[j] == Rearmed(s.heap[j]);
    Prepended(t, e, []);
    Prepended(s, e, [e]);
    assert [e] + [e] == run && [e] + [] == [e];
    var executed := Executed(s, run);
    assert executed == [s.heap[j], Rearmed(s.heap[j])];
    assert executed[0].clock > executed[1].clock;
  }

  /** No task before `c`, and every task that goes back in time is behind one that stands still. */
  ghost predicate Held(heap: seq<Task>, c: int) {
    && (forall j :: 0 <= j < |heap| ==> c <= heap[j].clock)
    && forall j :: 0 <= j < |heap| && heap[j].interval < 0 ==> !NoneStandsBefore(heap, heap[j].clock)
  }

  lemma HeldNext(s: State, e: Event, c: int)
    requires s.removals == [] && e.Work? && Possible(s, e) && Held(s.heap, c)
    ensures Held(Next(s, e).heap, s.heap[e.index].clock) && c <= s.heap[e.index].clock
  {
    var h, i, t := s.heap, e.index, Next(s, e).heap;
    assert h[i].interval >= 0;
    forall j | 0 <= j < |t| && t[j].interval < 0 ensures !NoneStandsBefore(t, t[j].clock) {
      var k :| 0 <= k < |h| && h[k].interval == 0 && !(h[j].clock <= h[k].clock);
      assert t[k] == h[k];
    }
  }

  lemma {:induction false} HeldInOrder(s: State, run: seq<Event>, c: int)
    requires s.removals == [] && OnlyRounds(run) && PossibleRun(s, run) && Held(s.heap, c)
    ensures InOrderOfClock(Executed(s, run))
    ensures forall i :: 0 <= i < |Executed(s, run)| ==> c <= Executed(s, run)[i].clock
    decreases |run|
  {
    if run != [] {
      HeldNext(s, run[0], c);
      HeldInOrder(Next(s, run[0]), run[1..], s.heap[run[0].index].clock);
    }
  }

  /** Without requested removals, all rounds are in order iff no task that goes back can get in front. */
  lemma OrderWithoutRemovals(s: State)
    requires s.removals == []
    ensures Orderly(s) <==> !CanGoBack(s.heap)
  {
    if CanGoBack(s.heap) {
      var j :| 0 <= j < |s.heap| && s.heap[j].interval < 0 && NoneStandsBefore(s.heap, s.heap[j].clock);
      var k := FirstBackExists(s.heap, j);
      var run := GoesBack(s, k, s.heap[k].clock);
    } else {
      forall run | OnlyRounds(run) && PossibleRun(s, run) ensures InOrderOfClock(Executed(s, run)) {
        if s.heap != [] {
          var k := TopExists(s.heap);
          HeldInOrder(s, run, s.heap[k].clock);
        } else {
          HeldInOrder(s, run, 0);
        }
      }
    }
  }

  // ---------------------------------------------------------------- order while removals are requested

  /** A task that goes back in time can get to the top before anything removes it. */
  ghost predicate CanReverse(s: State) {
    exists j: nat :: Reverses(s, j)
  }

  ghost predicate Reverses(s: State, j: nat) {
    j < |s.heap| && s.heap[j].interval < 0 && Reaches(s, j, j, Backlog(s.heap, s.heap[j].clock))
  }

  lemma {:induction false} Reversed(s: State, j: nat, m: nat) returns (run: seq<Event>)
    requires Reaches(s, j, j, m) && s.heap[j].interval < 0
    ensures OnlyRounds(run) && PossibleRun(s, run) && !InOrderOfClock(Executed(s, run))
    decreases m
  {
    if ExecutedNext(s, j) {
      run := TwiceOnTop(s, j, s.heap[j].clock);
    } else {
      var k := FirstRound(s, j, j, m);
      var e := Round(s, k);
      MovedTo(s, e, j);
      hide Executed, PossibleRun, InOrderOfClock, Reaches;
      var rest := Reversed(Next(s, e), Moved(s, e, j), m - 1);
      run := [e] + rest;
      Prepended(s, e, rest);
      if Executes(s, e) {
        StaysOutOfOrder(s.heap[k], Executed(Next(s, e), rest));
      } else {
        assert Executed(s, run) == Executed(Next(s, e), rest);
      }
    }
  }

  lemma ReversesEarlier(s: State, e: Event)
    requires Possible(s, e) && e.Work?
    ensures Executes(s, e) && s.heap[e.index].interval < 0 ==> CanReverse(s)
    ensures CanReverse(Next(s, e)) ==> CanReverse(s)
  {
    var k, t := e.index, Next(s, e);
    hide Backlog;
    if Executes(s, e) && s.heap[k].interval < 0 {
      assert Reverses(s, k);
    } else if Executes(s, e) && s.heap[k].interval == 0 {
      assert t.heap == s.heap && t == s;
    } else if CanReverse(t) {
      var m: nat :| Reverses(t, m);
      var j := Origin(s, e, m);
      ReachesEarlier(s, e, j, j);
      assert Reverses(s, j);
    }
  }

  ghost predicate NoneBefore(heap: seq<Task>, c: int) {
    forall j :: 0 <= j < |heap| ==> c <= heap[j].clock
  }

  lemma {:induction false} NoReverseInOrder(s: State, run: seq<Event>, c: int)
    requires OnlyRounds(run) && PossibleRun(s, run) && !CanReverse(s) && NoneBefore(s.heap, c)
    ensures InOrderOfClock(Executed(s, run))
    ensures forall i :: 0 <= i < |Executed(s, run)| ==> c <= Executed(s, run)[i].clock
    decreases |run|
  {
    if run != [] {
      hide CanReverse;
      ReversesEarlier(s, run[0]);
      assert NoneBefore(Next(s, run[0]).heap, s.heap[run[0].index].clock);
      NoReverseInOrder(Next(s, run[0]), run[1..], s.heap[run[0].index].clock);
    }
  }

  /** Whatever removals are requested, all rounds are in order exactly if no task that goes back can get to the top. */
  lemma OrderIff(s: State)
    ensures Orderly(s) <==> !CanReverse(s)
  {
    hide Reaches, Backlog;
    if CanReverse(s) {
      var j: nat :| Reverses(s, j);
      var run := Reversed(s, j, Backlog(s.heap, s.heap[j].clock));
    } else {
      forall run | OnlyRounds(run) && PossibleRun(s, run) ensures InOrderOfClock(Executed(s, run)) {
        if s.heap != [] {
          var k := TopExists(s.heap);
          NoReverseInOrder(s, run, s.heap[k].clock);
        } else {
          NoReverseInOrder(s, run, 0);
        }
      }
    }
  }
}
