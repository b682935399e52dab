/** Whole runs of all receive loops: who is logged in where, and what the loops have read. */
module ConnectionRuns {
  import opened Collections
  import opened Endianness
  import opened Connections
  import DataPackages
  import Framing

  /** The state after the first `k` events. */
  ghost function StateAt(run: seq<Event>, k: nat): State
    requires PossibleRun(run) && k <= |run|
  {
    PrefixPossible(run, k);
    After(run[..k])
  }

  lemma {:induction false} PrefixPossible(run: seq<Event>, k: nat)
    requires PossibleRun(run) && k <= |run|
    ensures PossibleRun(run[..k])
    decreases |run|
  {
    if k < |run| {
      PrefixPossible(run[..|run| - 1], k);
      assert run[..|run| - 1][..k] == run[..k];
    } else {
      assert run[..k] == run;
    }
  }

  lemma StepAt(run: seq<Event>, k: nat)
    requires PossibleRun(run) && k < |run|
    ensures Inv(StateAt(run, k)) && Possible(StateAt(run, k), run[k])
    ensures StateAt(run, k + 1) == Next(StateAt(run, k), run[k]).state
  {
    PrefixPossible(run, k);
    PrefixPossible(run, k + 1);
    assert run[..k + 1][..k] == run[..k];
    RemovedOnce(run[..k], Connection(0));
  }

  // ---------------------------------------------------------------- who is logged in where

  ghost predicate LogsInAt(run: seq<Event>, k: nat, c: Connection)
    requires PossibleRun(run)
  {
    k < |run| && LogsIn(StateAt(run, k), run[k], c)
  }

  /** It is a login of `u`. */
  ghost predicate LoginOf(run: seq<Event>, k: nat, c: Connection, u: UserID)
    requires PossibleRun(run)
  {
    LogsInAt(run, k, c) && run[k].request.user == u
  }

  ghost predicate EndsAt(run: seq<Event>, k: nat, c: Connection)
    requires PossibleRun(run)
  {
    k < |run| && c in StateAt(run, k).registry && c !in StateAt(run, k + 1).registry
  }

  lemma RegisteredStep(run: seq<Event>, m: nat, c: Connection, u: UserID)
    requires PossibleRun(run) && m < |run| && u != NOBODY
    ensures Registered(StateAt(run, m + 1), c, u) <==>
              || LoginOf(run, m, c, u)
              || (Registered(StateAt(run, m), c, u) && !LogsInAt(run, m, c) && !EndsAt(run, m, c))
  {
    StepAt(run, m);
    var s, e, t := StateAt(run, m), run[m], StateAt(run, m + 1);
    hide StateAt, Next, LogsIn, Inv;
    HasConnection(s, c);
    if LogsIn(s, e, c) { LoginStays(s, e, c); }
    if c in t.registry {
      if e.Read? {
        ReadKeeps(s, e, c);
        ReadAfter(s, e, c);
      } else {
        OthersAfter(s, e, c);
        NoLogin(s, e, c);
      }
    }
  }

  /** A read registers no connection. */
  lemma ReadKeeps(s: State, e: Event, c: Connection)
    requires Inv(s) && Possible(s, e) && e.Read? && c in Next(s, e).state.registry
    ensures c in s.registry
  {
    NextInv(s, e);
    hide Next, Inv;
  }

  lemma NoLogin(s: State, e: Event, c: Connection)
    ensures !e.Read? ==> !LogsIn(s, e, c)
  {
  }

  /** The login in step `k` is the latest one on the connection, and the session has not ended since. */
  ghost predicate LoggedInSince(run: seq<Event>, k: nat, n: nat, c: Connection, u: UserID)
    requires PossibleRun(run)
  {
    && k < n && LoginOf(run, k, c, u)
    && forall j: nat :: k < j < n ==> !LogsInAt(run, j, c) && !EndsAt(run, j, c)
  }

  ghost predicate StillLoggedIn(run: seq<Event>, n: nat, c: Connection, u: UserID)
    requires PossibleRun(run)
  {
    exists k: nat :: LoggedInSince(run, k, n, c, u)
  }

  lemma StillLoggedInStep(run: seq<Event>, n: nat, c: Connection, u: UserID)
    requires PossibleRun(run)
    ensures StillLoggedIn(run, n + 1, c, u) <==>
              || LoginOf(run, n, c, u)
              || (StillLoggedIn(run, n, c, u) && !LogsInAt(run, n, c) && !EndsAt(run, n, c))
  {
    hide EndsAt, LogsInAt, LoginOf, PossibleRun, StateAt;
    if LoginOf(run, n, c, u) { assert LoggedInSince(run, n, n + 1, c, u); }
    if StillLoggedIn(run, n, c, u) && !LogsInAt(run, n, c) && !EndsAt(run, n, c) {
      var k: nat :| LoggedInSince(run, k, n, c, u);
      assert LoggedInSince(run, k, n + 1, c, u);
    }
    if StillLoggedIn(run, n + 1, c, u) {
      var k: nat :| LoggedInSince(run, k, n + 1, c, u);
      assert k < n ==> LoggedInSince(run, k, n, c, u);
    }
  }

  /**
    In every interleaving, a connection is registered for a user exactly if the latest login on it that was accepted,
    with a matching password, was one of his, and its session has not ended since.
  */
  lemma {:induction false} LoggedInIff(run: seq<Event>, n: nat, c: Connection, u: UserID)
    requires PossibleRun(run) && n <= |run| && u != NOBODY
    ensures Registered(StateAt(run, n), c, u) <==> StillLoggedIn(run, n, c, u)
  {
    if n > 0 {
      LoggedInIff(run, n - 1, c, u);
      RegisteredStep(run, n - 1, c, u);
      hide Registered, StillLoggedIn, LogsInAt, LoginOf, EndsAt, StateAt, PossibleRun;
      StillLoggedInStep(run, n - 1, c, u);
    } else {
      assert run[..0] == [];
    }
  }

  /** The user then holds the connection with the device that he logged in with. */
  lemma {:induction false} DeviceOfLogin(run: seq<Event>, k: nat, n: nat, c: Connection, u: UserID)
    requires PossibleRun(run) && n <= |run| && LoggedInSince(run, k, n, c, u)
    ensures var t := StateAt(run, n);
      Registered(t, c, u) && Holds(t.devices, u, c) && t.devices[u][c] == run[k].request.device
    decreases n
  {
    var m := n - 1;
    StepAt(run, m);
    var s, e := StateAt(run, m), run[m];
    hide StateAt, PossibleRun, Next, LogsIn, Inv, Holds;
    HasConnection(s, c);
    if k < m {
      assert !LogsInAt(run, m, c) && !EndsAt(run, m, c);
      DeviceOfLogin(run, k, m, c, u);
    } else {
      LoginStays(s, e, c);
    }
    if e.Read? {
      ReadKeeps(s, e, c);
      ReadAfter(s, e, c);
    } else {
      OthersAfter(s, e, c);
      NoLogin(s, e, c);
    }
  }

  /** Logins, connections and their ends leave the users alone. */
  lemma UsersStep(run: seq<Event>, m: nat, u: UserID)
    requires PossibleRun(run) && m < |run|
    ensures u in StateAt(run, m + 1).devices <==> u in StateAt(run, m).devices || run[m] == AddUser(u)
  {
    StepAt(run, m);
    var s, e := StateAt(run, m), run[m];
    hide StateAt, PossibleRun, Inv, DataPackages.Decode, Framing.FirstLength;
    if e.Fail? || e.Read? { HasConnection(s, e.connection); }
    if e.Fail? { CloseInv(s, e.connection); }
    if e.Read? { ReadUsers(s, e); }
  }

  lemma ReadUsers(s: State, e: Event)
    requires Inv(s) && Possible(s, e) && e.Read?
    ensures Next(s, e).state.devices.Keys == s.devices.Keys
  {
    hide DataPackages.Decode, Framing.FirstLength, Inv;
  }

  lemma {:induction false} UsersIff(run: seq<Event>, n: nat, u: UserID)
    requires PossibleRun(run) && n <= |run|
    ensures u in StateAt(run, n).devices <==> exists k: nat :: k < n && run[k] == AddUser(u)
  {
    if n > 0 {
      UsersIff(run, n - 1, u);
      UsersStep(run, n - 1, u);
      hide StateAt, PossibleRun;
    } else {
      assert run[..0] == [];
    }
  }

  // ---------------------------------------------------------------- what a loop has read

  /** What has been read on a connection since it was accepted. */
  function ChunksOf(run: seq<Event>, c: Connection): seq<Framing.Bytes> {
    if run == [] then []
    else
      var last := run[|run| - 1];
      if Begins(last, c) then [] else ChunksOf(run[..|run| - 1], c) + ReadOn(last, c)
  }

  lemma OneMoreChunkOf(run: seq<Event>, m: nat, c: Connection)
    requires m < |run|
    ensures ChunksOf(run[..m + 1], c) == if Begins(run[m], c) then [] else ChunksOf(run[..m], c) + ReadOn(run[m], c)
  {
    assert run[..m + 1][..m] == run[..m];
  }

  /** A read that does not end its session leaves what the server keeps of the stream. */
  lemma ServesAsRead(s: State, e: Event, chunks: seq<Framing.Bytes>)
    requires Inv(s) && Possible(s, e) && e.Read? && e.connection in Next(s, e).state.sessions
    requires Framing.Served(chunks).buffer == s.sessions[e.connection].receiver && !Framing.Served(chunks).closed
    ensures var served := Framing.Served(chunks + [e.chunk]);
      served.buffer == Next(s, e).state.sessions[e.connection].receiver && !served.closed
  {
    var c := e.connection;
    NextInv(s, e);
    HasConnection(s, c);
    HasConnection(Next(s, e).state, c);
    ReadAfter(s, e, c);
    EndsIff(s, c, e.chunk, e.now, e.later, e.request);
    assert (chunks + [e.chunk])[..|chunks|] == chunks;
    hide Inv, Receive, Ends, LogsIn, CountedAfter, Framing.FirstLength;
  }

  ghost predicate Keeps(s: State, c: Connection, chunks: seq<Framing.Bytes>) {
    c in s.sessions && Framing.Served(chunks).buffer == s.sessions[c].receiver && !Framing.Served(chunks).closed
  }

  predicate Begins(e: Event, c: Connection) {
    e.Accept? && e.connection == c
  }

  function ReadOn(e: Event, c: Connection): seq<Framing.Bytes> {
    if e.Read? && e.connection == c then [e.chunk] else []
  }

  lemma KeepsStep(s: State, e: Event, c: Connection, chunks: seq<Framing.Bytes>)
    requires Inv(s) && Possible(s, e) && c in Next(s, e).state.sessions
    requires c in s.sessions ==> Keeps(s, c, chunks)
    ensures Keeps(Next(s, e).state, c, if Begins(e, c) then [] else chunks + ReadOn(e, c))
  {
    NextInv(s, e);
    HasConnection(s, c);
    HasConnection(Next(s, e).state, c);
    hide Next, Inv, Framing.Served;
    if e.Read? {
      ReadKeeps(s, e, c);
      if e.connection == c {
        ServesAsRead(s, e, chunks);
      } else {
        ReadAfter(s, e, c);
        assert chunks + [] == chunks;
      }
    } else {
      OthersAfter(s, e, c);
      assert chunks + [] == chunks;
      NothingRead();
    }
  }

  lemma NothingRead()
    ensures Framing.Served([]) == Framing.Session([], [], false)
  {
  }

  /** The bytes that a loop keeps are those that the server's receive loop keeps of the same reads, and it is open. */
  lemma {:induction false} BuffersServed(run: seq<Event>, n: nat, c: Connection)
    requires PossibleRun(run) && n <= |run| && c in StateAt(run, n).sessions
    ensures var served := Framing.Served(ChunksOf(run[..n], c));
      served.buffer == StateAt(run, n).sessions[c].receiver && !served.closed
  {
    if n > 0 {
      StepAt(run, n - 1);
      OneMoreChunkOf(run, n - 1, c);
      hide StateAt, PossibleRun, Next, Inv, ChunksOf, Framing.Served;
      if c in StateAt(run, n - 1).sessions { BuffersServed(run, n - 1, c); }
      KeepsStep(StateAt(run, n - 1), run[n - 1], c, ChunksOf(run[..n - 1], c));
    }
  }
}
