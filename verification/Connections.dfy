/**
  Connections and who is logged in on them: the manager's registry, every user's own connections, and the
  sessions of the receive loops.
*/
module Connections {
  import opened Endianness
  import DataPackages
  import Framing
  import Identifiers

  datatype Connection = Connection(number: nat)

  type UserID = Identifiers.UserID

  /** Marks a connection on which nobody is logged in. */
  const NOBODY: UserID := -1

  const TEXT := 1
  const HEART_BEAT := 4
  const MAX_HEART_BEATS := 10

  /** Ten seconds in ticks of a nanosecond. */
  const CHECK_INTERVAL := 10_000_000_000

  datatype Device = UnknownDevice | PersonalComputer | Phone | Web

  type Devices = map<UserID, map<Connection, Device>>

  /** What one receive loop knows: the session's user id, the unread bytes and the heartbeat counter. */
  datatype Session = Session(user: UserID, receiver: seq<Byte>, beats: nat, since: int)

  /** An attempt to remove a connection from the registry, and how it ended. */
  datatype Attempt = Attempt(connection: Connection, outcome: Outcome)

  /** `attempts` is the history of all removals that were attempted; no operation reads it. */
  datatype State = State(
    registry: map<Connection, UserID>,
    devices: Devices,
    sessions: map<Connection, Session>,
    attempts: seq<Attempt>)

  const INITIAL := State(map[], map[], map[], [])

  datatype Error = SocketPointerExisted | SocketPointerNotExisted | NullSocketPointer | UserNotExisted

  /** `Undefined` is a dereference of the end of the user map. */
  datatype Outcome = Done | Threw(error: Error) | Undefined

  datatype Step = Step(state: State, outcome: Outcome)

  // ---------------------------------------------------------------- the registry

  function Register(s: State, c: Connection): Step {
    if c in s.registry then Step(s, Threw(SocketPointerExisted))
    else Step(s.(registry := s.registry[c := NOBODY]), Done)
  }

  /** Takes the connection away from the user it is registered for. */
  function Detach(s: State, c: Connection): (r: Step)
    requires c in s.registry
    ensures r.state.devices.Keys == s.devices.Keys
    ensures r.state.registry == s.registry && r.state.sessions == s.sessions && r.state.attempts == s.attempts
  {
    var u := s.registry[c];
    if u == NOBODY then Step(s, Done)
    else if u !in s.devices then Step(s, Undefined)
    else if c !in s.devices[u] then Step(s, Threw(NullSocketPointer))
    else Step(s.(devices := s.devices[u := s.devices[u] - {c}]), Done)
  }

  /** Gives the connection to a user. */
  function Attach(s: State, c: Connection, u: UserID, device: Device): (r: Step)
    requires u in s.devices
    ensures r.state.sessions == s.sessions && r.state.attempts == s.attempts
  {
    if c in s.devices[u] then Step(s, Threw(SocketPointerExisted))
    else Step(s.(registry := s.registry[c := u], devices := s.devices[u := s.devices[u][c := device]]), Done)
  }

  function Modify(s: State, c: Connection, u: UserID, device: Device): (r: Step)
    ensures r.state.sessions == s.sessions && r.state.attempts == s.attempts
  {
    if u !in s.devices then Step(s, Threw(UserNotExisted))
    else if c !in s.registry then Step(s, Threw(SocketPointerNotExisted))
    else
      var detached := Detach(s, c);
      if detached.outcome != Done then detached else Attach(detached.state, c, u, device)
  }

  /** The removal of a connection, but for the history. */
  function TakeOff(s: State, c: Connection): (r: Step)
    ensures r.state.sessions == s.sessions && r.state.attempts == s.attempts
  {
    if c !in s.registry then Step(s, Threw(SocketPointerNotExisted))
    else
      var detached := Detach(s, c);
      if detached.outcome != Done then detached
      else Step(detached.state.(registry := s.registry - {c}), Done)
  }

  function Remove(s: State, c: Connection): (r: Step)
    ensures r.state.sessions == s.sessions
  {
    var r := TakeOff(s, c);
    Step(r.state.(attempts := s.attempts + [Attempt(c, r.outcome)]), r.outcome)
  }

  // ---------------------------------------------------------------- a session

  /** What a packet that is no heartbeat asks for, or an exception while it is processed or answered. */
  datatype Request =
    | Login(user: UserID, passwordMatches: bool, device: Device)
    | Other
    | Throws(standard: bool)

  /** The session's user id follows the registry only if the registry was updated. */
  function LogIn(s: State, c: Connection, u: UserID, passwordMatches: bool, device: Device): Step
    requires c in s.sessions
  {
    if u !in s.devices || !passwordMatches then Step(s, Done)
    else
      var r := Modify(s, c, u, device);
      if r.outcome != Done then r
      else Step(r.state.(sessions := s.sessions[c := s.sessions[c].(user := u)]), Done)
  }

  /** The end of a receive loop, on whichever path. */
  function Close(s: State, c: Connection): Step {
    var r := Remove(s, c);
    Step(r.state.(sessions := s.sessions - {c}), r.outcome)
  }

  /** The heartbeats since the last check, and when that was. */
  datatype Counter = Counter(beats: nat, since: int) | TooMany

  /** The clock is read once for the check and once more for the new time of the last check. */
  function Beat(beats: nat, since: int, now: int, later: int): Counter {
    if now - since < CHECK_INTERVAL then Counter(beats + 1, since)
    else if beats + 1 > MAX_HEART_BEATS then TooMany
    else Counter(0, later)
  }

  function HeartBeat(s: State, c: Connection, now: int, later: int): Step
    requires c in s.sessions
  {
    match Beat(s.sessions[c].beats, s.sessions[c].since, now, later)
    case TooMany => Close(s, c)
    case Counter(beats, since) =>
      Step(s.(sessions := s.sessions[c := s.sessions[c].(beats := beats, since := since)]), Done)
  }

  function Serve(s: State, c: Connection, message: seq<Byte>, now: int, later: int, request: Request): Step
    requires c in s.sessions
  {
    match DataPackages.Decode(message)
    case Failed(_) => Close(s, c)
    case Decoded(p) =>
      if p.kind == HEART_BEAT then HeartBeat(s, c, now, later)
      else
        match request
        case Throws(_) => Close(s, c)
        case Login(u, matches, device) => if p.kind == TEXT then LogIn(s, c, u, matches, device) else Step(s, Done)
        case Other => Step(s, Done)
  }

  /** One read from the socket: at most one message is served. */
  function Receive(s: State, c: Connection, chunk: seq<Byte>, now: int, later: int, request: Request): Step
    requires c in s.sessions
  {
    var buffer := s.sessions[c].receiver + chunk;
    var t := s.(sessions := s.sessions[c := s.sessions[c].(receiver := buffer)]);
    if !Framing.Complete(buffer) then Step(t, Done)
    else if Framing.Stuck(buffer) then Close(t, c)
    else
      var n := Framing.FirstLength(buffer);
      Serve(s.(sessions := s.sessions[c := s.sessions[c].(receiver := buffer[n..])]), c, buffer[..n], now, later,
            request)
  }

  datatype Event =
    | AddUser(user: UserID)
    | Accept(connection: Connection, now: int)
    | Fail(connection: Connection)
    | Read(connection: Connection, chunk: seq<Byte>, now: int, later: int, request: Request)

  /** A new connection object and a new user id are really new. */
  predicate Possible(s: State, e: Event) {
    match e
    case AddUser(u) => u != NOBODY && u !in s.devices
    case Accept(c, _) => c !in s.registry && c !in s.sessions
    case Fail(c) => c in s.sessions
    case Read(c, _, _, _, _) => c in s.sessions
  }

  /** `Fail` is a failed handshake, a failed read or a timeout. */
  function Next(s: State, e: Event): Step
    requires Possible(s, e)
  {
    match e
    case AddUser(u) => Step(s.(devices := s.devices[u := map[]]), Done)
    case Accept(c, now) =>
      var r := Register(s, c);
      if r.outcome != Done then r
      else Step(r.state.(sessions := s.sessions[c := Session(NOBODY, [], 0, now)]), Done)
    case Fail(c) => Close(s, c)
    case Read(c, chunk, now, later, request) => Receive(s, c, chunk, now, later, request)
  }

  // ---------------------------------------------------------------- the invariant

  predicate Holds(devices: Devices, u: UserID, c: Connection) {
    u in devices && c in devices[u]
  }

  predicate Registered(s: State, c: Connection, u: UserID) {
    c in s.registry && s.registry[c] == u
  }

  /** Registry, users and sessions agree on who is logged in where. */
  ghost predicate Inv(s: State) {
    && NOBODY !in s.devices
    && (forall u, c :: u != NOBODY ==> (Registered(s, c, u) <==> Holds(s.devices, u, c)))
    && s.sessions.Keys == s.registry.Keys
    && (forall c :: c in s.sessions ==> s.sessions[c].user == s.registry[c])
  }

  /** Each connection belongs to at most one user. */
  lemma OneUserPerConnection(s: State, c: Connection, u: UserID, v: UserID)
    requires Inv(s) && Holds(s.devices, u, c) && Holds(s.devices, v, c)
    ensures u == v && u == s.registry[c] == s.sessions[c].user
  {
    assert Registered(s, c, u) && Registered(s, c, v);
  }

  lemma DetachWorks(s: State, c: Connection)
    requires Inv(s) && c in s.registry
    ensures var r := Detach(s, c);
      && r.outcome == Done && r.state == s.(devices := r.state.devices) && r.state.devices.Keys == s.devices.Keys
      && forall u, x :: Holds(r.state.devices, u, x) <==> Holds(s.devices, u, x) && x != c
  {
    var u := s.registry[c];
    assert u != NOBODY ==> Registered(s, c, u) && Holds(s.devices, u, c);
    forall v, x ensures Holds(Detach(s, c).state.devices, v, x) <==> Holds(s.devices, v, x) && x != c {
      assert Holds(s.devices, v, c) ==> v == u by {
        if Holds(s.devices, v, c) { assert Registered(s, c, v); }
      }
    }
  }

  /** Logging in, as the same or as another user, never throws. */
  lemma ModifyWorks(s: State, c: Connection, u: UserID, device: Device)
    requires Inv(s) && c in s.registry && u in s.devices
    ensures var r := Modify(s, c, u, device);
      && r.outcome == Done && r.state == s.(registry := s.registry[c := u], devices := r.state.devices)
      && r.state.devices.Keys == s.devices.Keys
      && (forall v, x :: Holds(r.state.devices, v, x) <==> (if x == c then v == u else Holds(s.devices, v, x)))
  {
    DetachWorks(s, c);
    var d := Detach(s, c).state.devices;
    assert !Holds(d, u, c);
    var t := Modify(s, c, u, device).state.devices;
    assert t == d[u := d[u][c := device]];
    forall v, x ensures Holds(t, v, x) <==> (if x == c then v == u else Holds(s.devices, v, x)) {
      assert Holds(d, v, x) <==> Holds(s.devices, v, x) && x != c;
      assert Holds(t, v, x) <==> Holds(d, v, x) || (v == u && x == c);
    }
  }

  // ---------------------------------------------------------------- how the registry fails, in any state

  /** A connection is registered once. */
  lemma RegisterFails(s: State, c: Connection)
    ensures c in s.registry ==> Register(s, c) == Step(s, Threw(SocketPointerExisted))
    ensures c !in s.registry ==> Register(s, c).outcome == Done
  {
  }

  /** The user it is registered for must exist and hold it. */
  lemma DetachFails(s: State, c: Connection)
    requires c in s.registry && s.registry[c] != NOBODY
    ensures s.registry[c] !in s.devices ==> Detach(s, c) == Step(s, Undefined)
    ensures s.registry[c] in s.devices && !Holds(s.devices, s.registry[c], c) ==>
              Detach(s, c) == Step(s, Threw(NullSocketPointer))
    ensures Holds(s.devices, s.registry[c], c) ==> Detach(s, c).outcome == Done
  {
  }

  /** The checks in their order; a new user who holds the connection already throws after the old one has lost it. */
  lemma ModifyFails(s: State, c: Connection, u: UserID, device: Device)
    ensures u !in s.devices ==> Modify(s, c, u, device) == Step(s, Threw(UserNotExisted))
    ensures u in s.devices && c !in s.registry ==> Modify(s, c, u, device) == Step(s, Threw(SocketPointerNotExisted))
    ensures u in s.devices && c in s.registry && s.registry[c] != NOBODY ==>
              && (s.registry[c] !in s.devices ==> Modify(s, c, u, device) == Step(s, Undefined))
              && (s.registry[c] in s.devices && !Holds(s.devices, s.registry[c], c) ==>
                    Modify(s, c, u, device) == Step(s, Threw(NullSocketPointer)))
              && (Holds(s.devices, s.registry[c], c) && u != s.registry[c] && Holds(s.devices, u, c) ==>
                    var r := Modify(s, c, u, device);
                    r.outcome == Threw(SocketPointerExisted) && r.state.registry == s.registry
                    && !Holds(r.state.devices, s.registry[c], c) && Holds(r.state.devices, u, c))
    ensures u in s.devices && c in s.registry && s.registry[c] == NOBODY && Holds(s.devices, u, c) ==>
              Modify(s, c, u, device) == Step(s, Threw(SocketPointerExisted))
  {
  }

  /** The session keeps its user when the registry could not be changed. */
  lemma LogInFails(s: State, c: Connection, u: UserID, device: Device)
    requires c in s.sessions && u in s.devices && Modify(s, c, u, device).outcome != Done
    ensures LogIn(s, c, u, true, device).outcome == Modify(s, c, u, device).outcome
    ensures LogIn(s, c, u, true, device).state.sessions == s.sessions
  {
    hide Modify;
  }

  /** A removal that fails leaves the registry as it is. */
  lemma RemoveFails(s: State, c: Connection)
    ensures var r := Remove(s, c);
            var o := if c !in s.registry then Threw(SocketPointerNotExisted)
                     else if s.registry[c] == NOBODY || Holds(s.devices, s.registry[c], c) then Done
                     else if s.registry[c] in s.devices then Threw(NullSocketPointer) else Undefined;
      && r.outcome == o && r.state.attempts == s.attempts + [Attempt(c, o)]
      && r.state.registry.Keys == (if o == Done then s.registry.Keys - {c} else s.registry.Keys)
      && (o != Done ==> r.state.registry == s.registry && r.state.devices == s.devices)
  {
  }

  lemma LogInInv(s: State, c: Connection, u: UserID, passwordMatches: bool, device: Device)
    requires Inv(s) && c in s.sessions
    ensures LogIn(s, c, u, passwordMatches, device).outcome == Done
    ensures Inv(LogIn(s, c, u, passwordMatches, device).state)
  {
    if u in s.devices && passwordMatches {
      ModifyWorks(s, c, u, device);
      var t := LogIn(s, c, u, passwordMatches, device).state;
      forall v, x | v != NOBODY ensures Registered(t, x, v) <==> Holds(t.devices, v, x) {
        assert x != c ==> (Registered(t, x, v) <==> Registered(s, x, v));
      }
    }
  }

  /** Closing never throws, so the connection is removed on the first attempt. */
  lemma CloseInv(s: State, c: Connection)
    requires Inv(s) && c in s.sessions
    ensures var r := Close(s, c);
      && r.outcome == Done && Inv(r.state)
      && r.state.registry == s.registry - {c} && r.state.sessions == s.sessions - {c}
      && r.state.attempts == s.attempts + [Attempt(c, Done)]
      && r.state.devices.Keys == s.devices.Keys && (forall u :: !Holds(r.state.devices, u, c))
  {
    DetachWorks(s, c);
    var t := Close(s, c).state;
    forall v, x | v != NOBODY ensures Registered(t, x, v) <==> Holds(t.devices, v, x) {
      assert x != c ==> (Registered(t, x, v) <==> Registered(s, x, v));
    }
  }

  /** Changes of one session that leave its user alone. */
  lemma SessionInv(s: State, c: Connection, session: Session)
    requires Inv(s) && c in s.sessions && session.user == s.sessions[c].user
    ensures Inv(s.(sessions := s.sessions[c := session]))
  {
  }

  /** What every event does to the registry: it adds a connection, keeps all, or drops the one of the event. */
  ghost predicate Regular(s: State, e: Event, r: Step)
    requires Possible(s, e)
  {
    && r.outcome == Done && Inv(r.state)
    && match e
       case AddUser(u) => r.state.registry == s.registry && r.state.attempts == s.attempts
       case Accept(c, _) => r.state.registry == s.registry[c := NOBODY] && r.state.attempts == s.attempts
       case Fail(c) => Removed(s, c, r.state)
       case Read(c, _, _, _, _) => Removed(s, c, r.state) || Kept(s, r.state)
  }

  /** The connection is gone after one attempt, which succeeded. */
  ghost predicate Removed(s: State, c: Connection, t: State) {
    t.registry == s.registry - {c} && t.attempts == s.attempts + [Attempt(c, Done)]
  }

  ghost predicate Kept(s: State, t: State) {
    t.registry.Keys == s.registry.Keys && t.attempts == s.attempts
  }

  lemma ServeInv(s: State, c: Connection, message: seq<Byte>, now: int, later: int, request: Request)
    requires Inv(s) && c in s.sessions
    ensures var r := Serve(s, c, message, now, later, request);
      && r.outcome == Done && Inv(r.state)
      && (Removed(s, c, r.state) || Kept(s, r.state))
  {
    hide DataPackages.Decode, Inv;
    CloseInv(s, c);
    if request.Login? {
      LogInInv(s, c, request.user, request.passwordMatches, request.device);
      LogInKeys(s, c, request.user, request.passwordMatches, request.device);
    }
    var counter := Beat(s.sessions[c].beats, s.sessions[c].since, now, later);
    if counter.Counter? {
      SessionInv(s, c, s.sessions[c].(beats := counter.beats, since := counter.since));
    }
  }

  lemma LogInKeys(s: State, c: Connection, u: UserID, passwordMatches: bool, device: Device)
    requires Inv(s) && c in s.sessions
    ensures Kept(s, LogIn(s, c, u, passwordMatches, device).state)
  {
  }

  lemma ReceiveInv(s: State, c: Connection, chunk: seq<Byte>, now: int, later: int, request: Request)
    requires Inv(s) && c in s.sessions
    ensures Regular(s, Read(c, chunk, now, later, request), Receive(s, c, chunk, now, later, request))
  {
    hide Inv, Serve, Close, Framing.Complete, Framing.Stuck, Framing.FirstLength;
    var session := s.sessions[c];
    var buffer := session.receiver + chunk;
    SessionInv(s, c, session.(receiver := buffer));
    CloseInv(s.(sessions := s.sessions[c := session.(receiver := buffer)]), c);
    if Framing.Complete(buffer) {
      var n := Framing.FirstLength(buffer);
      CompleteLength(buffer);
      SessionInv(s, c, session.(receiver := buffer[n..]));
      ServeInv(s.(sessions := s.sessions[c := session.(receiver := buffer[n..])]), c, buffer[..n], now, later, request);
    }
  }

  lemma CompleteLength(buffer: seq<Byte>)
    requires Framing.Complete(buffer)
    ensures Framing.FirstLength(buffer) <= |buffer|
  {
  }

  lemma NextInv(s: State, e: Event)
    requires Inv(s) && Possible(s, e)
    ensures Regular(s, e, Next(s, e))
  {
    var t := Next(s, e).state;
    match e
    case AddUser(u) =>
      forall v, c | v != NOBODY ensures Registered(t, c, v) <==> Holds(t.devices, v, c) {
        assert Registered(t, c, v) <==> Registered(s, c, v);
      }
    case Accept(c, now) =>
      forall v, x | v != NOBODY ensures Registered(t, x, v) <==> Holds(t.devices, v, x) {
        assert Registered(t, x, v) <==> Registered(s, x, v);
      }
    case Fail(c) => CloseInv(s, c);
    case Read(c, chunk, now, later, request) => ReceiveInv(s, c, chunk, now, later, request);
  }

  // ---------------------------------------------------------------- runs of all receive loops

  ghost predicate PossibleRun(run: seq<Event>)
    decreases |run|, 0
  {
    run == [] || (PossibleRun(run[..|run| - 1]) && Possible(After(run[..|run| - 1]), run[|run| - 1]))
  }

  ghost function After(run: seq<Event>): State
    requires PossibleRun(run)
    decreases |run|, 1
  {
    if run == [] then INITIAL else Next(After(run[..|run| - 1]), run[|run| - 1]).state
  }

  /** How often a connection was registered. */
  ghost function Accepted(run: seq<Event>, c: Connection): nat {
    if run == [] then 0
    else
      var e := run[|run| - 1];
      Accepted(run[..|run| - 1], c) + if e.Accept? && e.connection == c then 1 else 0
  }

  /** How often its removal was attempted. */
  function Attempts(attempts: seq<Attempt>, c: Connection): nat {
    if attempts == [] then 0
    else
      Attempts(attempts[..|attempts| - 1], c) + if attempts[|attempts| - 1].connection == c then 1 else 0
  }

  lemma OneMoreAttempt(attempts: seq<Attempt>, a: Attempt, c: Connection)
    ensures Attempts(attempts + [a], c) == Attempts(attempts, c) + if a.connection == c then 1 else 0
  {
    assert (attempts + [a])[..|attempts|] == attempts;
  }

  ghost predicate AllDone(attempts: seq<Attempt>) {
    forall k :: 0 <= k < |attempts| ==> attempts[k].outcome == Done
  }

  lemma AttemptStep(s: State, e: Event, c: Connection)
    requires Inv(s) && Possible(s, e)
    ensures var r := Next(s, e);
      && r.outcome == Done && Inv(r.state)
      && (AllDone(s.attempts) ==> AllDone(r.state.attempts))
      && Attempts(r.state.attempts, c) + (if c in r.state.registry then 1 else 0) ==
         Attempts(s.attempts, c) + (if c in s.registry then 1 else 0)
           + if e.Accept? && e.connection == c then 1 else 0
  {
    hide Inv, Next, Attempts;
    NextInv(s, e);
    if e.Fail? || e.Read? {
      HasConnection(s, e.connection);
      OneMoreAttempt(s.attempts, Attempt(e.connection, Done), c);
    }
  }

  /**
    In every interleaving, nothing throws, and the removal of each registered connection is attempted exactly once,
    with success, when its loop ends, and not before.
  */
  lemma {:induction false} RemovedOnce(run: seq<Event>, c: Connection)
    requires PossibleRun(run)
    ensures Inv(After(run))
    ensures run != [] ==> Next(After(run[..|run| - 1]), run[|run| - 1]).outcome == Done
    ensures AllDone(After(run).attempts)
    ensures Accepted(run, c) == Attempts(After(run).attempts, c) + if c in After(run).registry then 1 else 0
  {
    if run != [] {
      hide Inv, Next, Attempts, AllDone;
      RemovedOnce(run[..|run| - 1], c);
      AttemptStep(After(run[..|run| - 1]), run[|run| - 1], c);
    } else {
      InitialInv();
    }
  }

  lemma HasConnection(s: State, c: Connection)
    requires Inv(s)
    ensures c in s.sessions <==> c in s.registry
  {
  }

  lemma InitialInv()
    ensures Inv(INITIAL)
  {
  }

  // ---------------------------------------------------------------- what a read does to its session

  /** The bytes that are there with the read. */
  function Gathered(s: State, e: Event): seq<Byte>
    requires e.Read? && e.connection in s.sessions
  {
    s.sessions[e.connection].receiver + e.chunk
  }

  /** The packet of the complete message at the front of them. */
  function PacketOf(buffer: seq<Byte>): DataPackages.Decoding
    requires Framing.HasFrame(buffer)
  {
    DataPackages.Decode(buffer[..Framing.FirstLength(buffer)])
  }

  predicate HasPacket(buffer: seq<Byte>, kind: int) {
    Framing.HasFrame(buffer) && PacketOf(buffer).Decoded? && PacketOf(buffer).package.kind == kind
  }

  /** With the event, a text packet on `c` asks for the login of an existing user, and the password matches. */
  predicate LogsIn(s: State, e: Event, c: Connection) {
    && e.Read? && e.connection == c && c in s.sessions && HasPacket(Gathered(s, e), 1)
    && e.request.Login? && e.request.passwordMatches && e.request.user in s.devices
  }

  /** `c` is as before, or it is registered for `u` instead, who holds it with the device. */
  ghost predicate Follows(s: State, t: State, c: Connection, takes: bool, u: UserID, device: Device)
    requires c in s.registry && c in t.registry
  {
    if takes then t.registry[c] == u && Holds(t.devices, u, c) && t.devices[u][c] == device
    else t.registry[c] == s.registry[c] && SameDevice(s.devices, t.devices, s.registry[c], c)
  }

  predicate SameDevice(before: Devices, after: Devices, u: UserID, c: Connection) {
    Holds(before, u, c) ==> Holds(after, u, c) && after[u][c] == before[u][c]
  }

  lemma LogInAfter(s: State, c: Connection, u: UserID, passwordMatches: bool, device: Device, d: Connection)
    requires Inv(s) && c in s.sessions && d in s.registry
    ensures var t, takes := LogIn(s, c, u, passwordMatches, device).state, passwordMatches && u in s.devices;
      && t.registry.Keys == s.registry.Keys && Follows(s, t, d, takes && d == c, u, device)
      && t.sessions == (if takes then s.sessions[c := s.sessions[c].(user := u)] else s.sessions)
      && (!takes ==> t == s)
  {
    if passwordMatches && u in s.devices {
      ModifyWorks(s, c, u, device);
      DevicesAfterModify(s, c, u, device);
    }
  }

  lemma DevicesAfterModify(s: State, c: Connection, u: UserID, device: Device)
    requires Inv(s) && c in s.registry && u in s.devices
    ensures var t := Modify(s, c, u, device).state;
      && Holds(t.devices, u, c) && t.devices[u][c] == device
      && (forall v, d :: d != c && Holds(s.devices, v, d) ==>
            Holds(t.devices, v, d) && t.devices[v][d] == s.devices[v][d])
  {
    DetachWorks(s, c);
    assert !Holds(Detach(s, c).state.devices, u, c);
  }

  lemma CloseKeeps(s: State, c: Connection, d: Connection)
    requires Inv(s) && c in s.sessions && d in s.registry && d != c
    ensures d in Close(s, c).state.registry && Follows(s, Close(s, c).state, d, false, NOBODY, UnknownDevice)
    ensures Close(s, c).state.sessions == s.sessions - {c}
  {
    CloseInv(s, c);
    DetachWorks(s, c);
  }

  /** The message asks for a login that takes effect. */
  predicate Takes(s: State, message: seq<Byte>, request: Request) {
    && DataPackages.Decode(message).Decoded? && DataPackages.Decode(message).package.kind == 1
    && request.Login? && request.passwordMatches && request.user in s.devices
  }

  /** The heartbeats counted after a message, and since when. */
  function CountedAfter(session: Session, message: seq<Byte>, now: int, later: int): (nat, int) {
    if DataPackages.Decode(message).Decoded? && DataPackages.Decode(message).package.kind == 4 then
      if now - session.since < 10_000_000_000 then (session.beats + 1, session.since) else (0, later)
    else (session.beats, session.since)
  }

  lemma ServeAfter(s: State, c: Connection, message: seq<Byte>, now: int, later: int, request: Request, d: Connection)
    requires Inv(s) && c in s.sessions && d in s.registry
    requires d in Serve(s, c, message, now, later, request).state.registry
    ensures var t, takes := Serve(s, c, message, now, later, request).state, Takes(s, message, request);
            var user := if takes then request.user else s.sessions[c].user;
            var counted := CountedAfter(s.sessions[c], message, now, later);
      && (takes && d == c ==> Follows(s, t, d, true, request.user, request.device))
      && (!(takes && d == c) ==> Follows(s, t, d, false, NOBODY, UnknownDevice))
      && d in t.sessions && t.sessions[d] ==
           if d != c then s.sessions[d]
           else Session(user, s.sessions[c].receiver, counted.0, counted.1)
  {
    hide DataPackages.Decode, Close, LogIn;
    if d == c { CloseInv(s, c); } else { CloseKeeps(s, c, d); }
    if request.Login? {
      LogInAfter(s, c, request.user, request.passwordMatches, request.device, d);
    }
  }

  /** The session of a connection that stays, after a read on it. */
  function SessionAfter(s: State, e: Event): Session
    requires e.Read? && e.connection in s.sessions
  {
    var session, buffer := s.sessions[e.connection], Gathered(s, e);
    if !Framing.HasFrame(buffer) then session.(receiver := buffer)
    else
      var n := Framing.FirstLength(buffer);
      var counted := CountedAfter(session, buffer[..n], e.now, e.later);
      Session(if LogsIn(s, e, e.connection) then e.request.user else session.user, buffer[n..], counted.0, counted.1)
  }

  /** A read serves its own connection by the packet that it completes, and leaves all others alone. */
  lemma ReadAfter(s: State, e: Event, d: Connection)
    requires Inv(s) && Possible(s, e) && e.Read? && d in s.registry && d in Next(s, e).state.registry
    ensures var t := Next(s, e).state;
      && (LogsIn(s, e, d) ==> Follows(s, t, d, true, e.request.user, e.request.device))
      && (!LogsIn(s, e, d) ==> Follows(s, t, d, false, NOBODY, UnknownDevice))
      && d in t.sessions && t.sessions[d] == if d == e.connection then SessionAfter(s, e) else s.sessions[d]
  {
    hide DataPackages.Decode, Close, Serve, CountedAfter, Inv, Framing.FirstLength;
    var c, session, buffer := e.connection, s.sessions[e.connection], Gathered(s, e);
    HasConnection(s, c);
    if Framing.HasFrame(buffer) {
      var n := Framing.FirstLength(buffer);
      CompleteLength(buffer);
      var s1 := s.(sessions := s.sessions[c := session.(receiver := buffer[n..])]);
      SessionInv(s, c, session.(receiver := buffer[n..]));
      ServeAfter(s1, c, buffer[..n], e.now, e.later, e.request, d);
      CountedSame(session, session.(receiver := buffer[n..]), buffer[..n], e.now, e.later);
    } else {
      var s1 := s.(sessions := s.sessions[c := session.(receiver := buffer)]);
      SessionInv(s, c, session.(receiver := buffer));
      HasConnection(s1, d);
      if Framing.Stuck(buffer) {
        StuckIsComplete(buffer);
        CloseInv(s1, c);
        if d != c { CloseKeeps(s1, c, d); }
      }
    }
  }

  /** Other events leave the connections that stay as they are; a new one is nobody's. */
  lemma OthersAfter(s: State, e: Event, d: Connection)
    requires Inv(s) && Possible(s, e) && !e.Read? && d in Next(s, e).state.registry
    ensures var t := Next(s, e).state;
      && d in t.sessions
      && (d in s.registry ==>
            d in s.sessions && t.sessions[d] == s.sessions[d] && Follows(s, t, d, false, NOBODY, UnknownDevice))
      && (d !in s.registry ==>
            e.Accept? && e.connection == d && t.registry[d] == NOBODY && t.sessions[d] == Session(NOBODY, [], 0, e.now))
  {
    hide Close;
    if e.Fail? {
      CloseInv(s, e.connection);
      HasConnection(s, d);
      CloseKeeps(s, e.connection, d);
    }
  }

  /** A login that takes effect does not end the session. */
  lemma LoginStays(s: State, e: Event, c: Connection)
    requires Inv(s) && Possible(s, e) && LogsIn(s, e, c)
    ensures c in Next(s, e).state.registry && e.request.user != NOBODY
  {
    var buffer := Gathered(s, e);
    HasConnection(s, c);
    EndsIff(s, c, e.chunk, e.now, e.later, e.request);
    hide DataPackages.Decode, Framing.FirstLength, Receive;
  }

  lemma CountedSame(session: Session, other: Session, message: seq<Byte>, now: int, later: int)
    requires other.beats == session.beats && other.since == session.since
    ensures CountedAfter(other, message, now, later) == CountedAfter(session, message, now, later)
  {
    hide DataPackages.Decode;
  }

  // ---------------------------------------------------------------- when a session ends

  /** The ways in which a complete message ends its session. */
  predicate Ends(s: Session, message: seq<Byte>, now: int, request: Request) {
    match DataPackages.Decode(message)
    case Failed(_) => true
    case Decoded(p) =>
      if p.kind == 4 then now - s.since >= 10_000_000_000 && s.beats >= 10 else request.Throws?
  }

  lemma ServeEndsIff(s: State, c: Connection, message: seq<Byte>, now: int, later: int, request: Request)
    requires Inv(s) && c in s.sessions
    ensures c !in Serve(s, c, message, now, later, request).state.registry <==>
              Ends(s.sessions[c], message, now, request)
  {
    hide DataPackages.Decode, Inv, Close, LogIn;
    HasConnection(s, c);
    CloseInv(s, c);
    if request.Login? { LogInKeys(s, c, request.user, request.passwordMatches, request.device); }
  }

  /** A read ends the session exactly for a length of zero or for a complete message that ends it. */
  lemma EndsIff(s: State, c: Connection, chunk: seq<Byte>, now: int, later: int, request: Request)
    requires Inv(s) && c in s.sessions
    ensures var session, buffer := s.sessions[c], s.sessions[c].receiver + chunk;
      c !in Receive(s, c, chunk, now, later, request).state.registry <==>
        || Framing.Stuck(buffer)
        || (Framing.HasFrame(buffer) && Ends(session, buffer[..Framing.FirstLength(buffer)], now, request))
  {
    hide DataPackages.Decode, Framing.FirstLength, Inv, Close, Serve;
    var session, buffer := s.sessions[c], s.sessions[c].receiver + chunk;
    StuckIsComplete(buffer);
    HasConnection(s, c);
    SessionInv(s, c, session.(receiver := buffer));
    CloseInv(s.(sessions := s.sessions[c := session.(receiver := buffer)]), c);
    if Framing.HasFrame(buffer) {
      var n := Framing.FirstLength(buffer);
      CompleteLength(buffer);
      SessionInv(s, c, session.(receiver := buffer[n..]));
      ServeEndsIff(s.(sessions := s.sessions[c := session.(receiver := buffer[n..])]), c, buffer[..n], now, later,
                   request);
    }
  }

  lemma StuckIsComplete(buffer: seq<Byte>)
    ensures Framing.Stuck(buffer) ==> Framing.Complete(buffer)
  {
  }

  /** The two clock readings at a heartbeat; the second one is made only at a check. */
  datatype Readings = Readings(now: int, later: int)

  /** The counter after heartbeats at the given times. */
  function Beats(counter: Counter, times: seq<Readings>): Counter
    decreases |times|
  {
    if times == [] || counter == TooMany then counter
    else Beats(Beat(counter.beats, counter.since, times[0].now, times[0].later), times[1..])
  }

  /** Heartbeats within ten seconds of the last check are counted. */
  lemma {:induction false} BeatsCounted(beats: nat, since: int, times: seq<Readings>)
    requires forall i :: 0 <= i < |times| ==> times[i].now - since < 10_000_000_000
    ensures Beats(Counter(beats, since), times) == Counter(beats + |times|, since)
    decreases |times|
  {
    if times != [] {
      assert forall i :: 0 <= i < |times[1..]| ==> times[1..][i] == times[i + 1];
      BeatsCounted(beats + 1, since, times[1..]);
    }
  }

  lemma {:induction false} BeatsInTwo(counter: Counter, first: seq<Readings>, second: seq<Readings>)
    ensures Beats(counter, first + second) == Beats(Beats(counter, first), second)
    decreases |first|
  {
    if first == [] {
      assert first + second == second;
    } else if counter != TooMany {
      assert (first + second)[1..] == first[1..] + second;
      BeatsInTwo(Beat(counter.beats, counter.since, first[0].now, first[0].later), first[1..], second);
    }
  }

  /** The first one after that makes the check: more than ten are too many, and otherwise counting starts anew. */
  lemma CheckedAfterTenSeconds(since: int, times: seq<Readings>, check: Readings)
    requires forall i :: 0 <= i < |times| ==> times[i].now - since < 10_000_000_000
    requires check.now - since >= 10_000_000_000
    ensures Beats(Counter(0, since), times + [check]) == if |times| >= 10 then TooMany else Counter(0, check.later)
  {
    BeatsCounted(0, since, times);
    BeatsInTwo(Counter(0, since), times, [check]);
    assert [check][1..] == [];
  }

  /** Heartbeats that come at least a second after the last reading of the one before never end a session. */
  lemma {:induction false} SlowBeatsTolerated(counter: Counter, last: int, times: seq<Readings>)
    requires counter.Counter? && counter.since + counter.beats * (CHECK_INTERVAL / 10) <= last
    requires counter.beats > 0 ==> last - counter.since < CHECK_INTERVAL
    requires times != [] ==> last + CHECK_INTERVAL / 10 <= times[0].now
    requires forall i :: 0 <= i < |times| ==> times[i].now <= times[i].later
    requires forall i :: 0 < i < |times| ==> times[i - 1].later + CHECK_INTERVAL / 10 <= times[i].now
    ensures Beats(counter, times) != TooMany
    decreases |times|
  {
    if times != [] {
      var t, rest := times[0], times[1..];
      var next := Beat(counter.beats, counter.since, t.now, t.later);
      assert forall i :: 0 <= i < |rest| ==> rest[i] == times[i + 1];
      assert forall i :: 0 < i < |rest| ==> rest[i - 1] == times[i];
      SlowBeatsTolerated(next, if t.now - counter.since < CHECK_INTERVAL then t.now else t.later, rest);
    }
  }

  // ---------------------------------------------------------------- the gate in front of the commands

  const NORMAL_TYPE: bv8 := 0

  /** The test that is to keep commands from sessions without login: it masks with the type that has no bits. */
  predicate Refused(user: UserID, isLogin: bool, known: bool, commandType: bv8) {
    user == NOBODY && !isLogin && (!known || (commandType & NORMAL_TYPE) != 0)
  }

  /** It refuses exactly what is no command at all. */
  lemma RefusedIff(user: UserID, isLogin: bool, known: bool, commandType: bv8)
    ensures Refused(user, isLogin, known, commandType) <==> user == NOBODY && !isLogin && !known
  {
    assert commandType & 0 == 0;
  }
}
