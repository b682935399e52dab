/** The manager's connection registry and the users' connections on the heap, and the receive loop of a connection. */
module ConnectionServer {
  import opened Endianness
  import opened Connections
  import DataPackages
  import Framing

  class User {
    const id: UserID
    var connections: map<Connection, Device>

    constructor (id: UserID)
      ensures this.id == id && connections == map[]
    {
      this.id, connections := id, map[];
    }

    method AddConnection(c: Connection, device: Device) returns (o: Outcome)
      modifies this
      ensures o == if c in old(connections) then Threw(SocketPointerExisted) else Done
      ensures connections == if o == Done then old(connections)[c := device] else old(connections)
    {
      if c in connections {
        return Threw(SocketPointerExisted);
      }
      connections := connections[c := device];
      return Done;
    }

    method RemoveConnection(c: Connection) returns (o: Outcome)
      modifies this
      ensures o == if c in old(connections) then Done else Threw(NullSocketPointer)
      ensures connections == old(connections) - {c}
    {
      if c !in connections {
        return Threw(NullSocketPointer);
      }
      connections := connections - {c};
      return Done;
    }
  }

  /** What the socket yields: a failure, or some bytes together with what a message in them will ask for. */
  datatype Input =
    | ReadFailed
    | Chunk(bytes: seq<Byte>, now: int, later: int, request: Request)

  function EventOf(c: Connection, input: Input): Event {
    match input
    case ReadFailed => Fail(c)
    case Chunk(bytes, now, later, request) => Read(c, bytes, now, later, request)
  }

  /** The events of one connection until its session ends. */
  function Loop(s: State, c: Connection, inputs: seq<Input>): State
    decreases |inputs|
  {
    if inputs == [] || c !in s.sessions then s
    else Loop(Next(s, EventOf(c, inputs[0])).state, c, inputs[1..])
  }

  /** How the handling of a message leaves the loop: not, by a return, or by an exception. */
  datatype Exit = Stay | Return | Caught | Escaped

  /** `abs` is the abstract state; `Valid` ties it to the real fields. */
  class Manager {
    var registry: map<Connection, UserID>
    var users: map<UserID, User>
    ghost var abs: State

    ghost predicate Valid()
      reads this, users.Values
    {
      && abs.registry == registry && abs.devices.Keys == users.Keys
      && forall u :: u in users ==> users[u].id == u && users[u].connections == abs.devices[u]
    }

    constructor ()
      ensures Valid() && abs == INITIAL
    {
      registry, users, abs := map[], map[], INITIAL;
    }

    method AddNewUser(u: UserID)
      requires Valid() && Possible(abs, AddUser(u))
      modifies this
      ensures Valid() && abs == Next(old(abs), AddUser(u)).state
    {
      var user := new User(u);
      users := users[u := user];
      abs := abs.(devices := abs.devices[u := map[]]);
    }

    method RegisterConnection(c: Connection) returns (o: Outcome)
      requires Valid()
      modifies this
      ensures Valid() && Step(abs, o) == Register(old(abs), c) && users == old(users)
    {
      if c in registry {
        return Threw(SocketPointerExisted);
      }
      registry := registry[c := NOBODY];
      abs := abs.(registry := registry);
      return Done;
    }

    /** The lookup of the user does not test for the end of the map. */
    method DetachConnection(c: Connection) returns (o: Outcome)
      requires Valid() && c in registry
      modifies this`abs, users.Values
      ensures Valid() && Step(abs, o) == Detach(old(abs), c)
    {
      if registry[c] == NOBODY {
        return Done;
      }
      if registry[c] !in users {
        return Undefined;
      }
      var u := registry[c];
      o := users[u].RemoveConnection(c);
      if o == Done {
        abs := abs.(devices := abs.devices[u := abs.devices[u] - {c}]);
      }
    }

    method AttachConnection(c: Connection, u: UserID, device: Device) returns (o: Outcome)
      requires Valid() && u in users
      modifies this`registry, this`abs, users.Values
      ensures Valid() && Step(abs, o) == Attach(old(abs), c, u, device)
    {
      o := users[u].AddConnection(c, device);
      if o == Done {
        registry := registry[c := u];
        abs := abs.(registry := registry, devices := abs.devices[u := abs.devices[u][c := device]]);
      }
    }

    method ModifyUserOfConnection(c: Connection, u: UserID, device: Device) returns (o: Outcome)
      requires Valid()
      modifies this, users.Values
      ensures Valid() && Step(abs, o) == Modify(old(abs), c, u, device) && users == old(users)
    {
      hide Detach, Attach;
      if u !in users {
        return Threw(UserNotExisted);
      }
      if c !in registry {
        return Threw(SocketPointerNotExisted);
      }
      o := DetachConnection(c);
      if o == Done {
        o := AttachConnection(c, u, device);
      }
    }

    method RemoveConnection(c: Connection) returns (o: Outcome)
      requires Valid()
      modifies this, users.Values
      ensures Valid() && Step(abs, o) == Remove(old(abs), c) && users == old(users)
    {
      hide TakeOff;
      o := TakeOffConnection(c);
      abs := abs.(attempts := abs.attempts + [Attempt(c, o)]);
    }

    method TakeOffConnection(c: Connection) returns (o: Outcome)
      requires Valid()
      modifies this, users.Values
      ensures Valid() && Step(abs, o) == TakeOff(old(abs), c) && users == old(users)
    {
      if c !in registry {
        return Threw(SocketPointerNotExisted);
      }
      o := DetachConnection(c);
      if o == Done {
        registry := registry - {c};
        abs := abs.(registry := registry);
      }
    }

    /** An attempt to end a loop: the session goes away with the loop's variables. */
    method CloseConnection(c: Connection) returns (o: Outcome)
      requires Valid()
      modifies this, users.Values
      ensures Valid() && Step(abs, o) == Close(old(abs), c) && users == old(users)
    {
      hide Remove;
      o := RemoveConnection(c);
      abs := abs.(sessions := abs.sessions - {c});
    }

    /** The session's user id is set after the registry, so not if that throws. */
    method Login(c: Connection, user: UserID, u: UserID, passwordMatches: bool, device: Device)
      returns (user': UserID, o: Outcome)
      requires Valid() && c in abs.sessions && abs.sessions[c].user == user
      modifies this, users.Values
      ensures Valid() && Step(abs, o) == LogIn(old(abs), c, u, passwordMatches, device) && users == old(users)
      ensures abs.sessions == old(abs).sessions[c := old(abs).sessions[c].(user := user')]
    {
      hide Modify;
      user', o := user, Done;
      assert abs.sessions[c := abs.sessions[c].(user := user)] == abs.sessions;
      if u !in users || !passwordMatches {
        return;
      }
      o := ModifyUserOfConnection(c, u, device);
      if o == Done {
        user' := u;
        abs := abs.(sessions := abs.sessions[c := abs.sessions[c].(user := u)]);
      }
    }

    /** The local variables of the receive loop are the session. */
    ghost predicate At(c: Connection, session: Session)
      reads this
    {
      c in abs.sessions && abs.sessions[c] == session
    }

    method CountHeartBeat(c: Connection, ghost session: Session, beats: nat, since: int, now: int, later: int)
      returns (exit: Exit, beats': nat, since': int)
      requires Valid() && Inv(abs) && At(c, session) && session.beats == beats && session.since == since
      modifies this, users.Values
      ensures Valid() && users == old(users)
      ensures exit == Stay || exit == Return
      ensures abs == HeartBeat(old(abs), c, now, later).state
      ensures exit == Stay ==> At(c, session.(beats := beats', since := since'))
      ensures exit == Return ==> c !in abs.sessions
    {
      exit, beats', since' := Stay, beats + 1, since;
      if now - since >= CHECK_INTERVAL {
        since' := later;
        if beats' > MAX_HEART_BEATS {
          CloseInv(abs, c);
          var o := CloseConnection(c);
          return if o == Done then Return else Caught, beats', since';
        }
        beats' := 0;
      }
      abs := abs.(sessions := abs.sessions[c := session.(beats := beats', since := since')]);
    }

    /** One complete message; exceptions leave the closing to the caller. */
    method HandleMessage(c: Connection, ghost session: Session, message: seq<Byte>, now: int, later: int,
                         request: Request, user: UserID, beats: nat, since: int)
      returns (exit: Exit, user': UserID, beats': nat, since': int)
      requires Valid() && Inv(abs) && At(c, session)
      requires session.user == user && session.beats == beats && session.since == since
      modifies this, users.Values
      ensures Valid() && users == old(users)
      ensures exit == Stay || exit == Return ==> abs == Serve(old(abs), c, message, now, later, request).state
      ensures exit == Stay ==> At(c, session.(user := user', beats := beats', since := since'))
      ensures exit == Return ==> c !in abs.sessions
      ensures exit == Caught || exit == Escaped ==>
        abs == old(abs) && Serve(abs, c, message, now, later, request) == Close(abs, c)
    {
      hide Inv, Close, LogIn, HeartBeat, DataPackages.Decode;
      exit, user', beats', since' := Stay, user, beats, since;
      var pack := DataPackages.StringToPackage(Little, message);
      if pack.Failed? {
        exit := Caught;
        return;
      }
      if pack.package.kind == HEART_BEAT {
        exit, beats', since' := CountHeartBeat(c, session, beats, since, now, later);
        return;
      }
      match request {
        case Throws(standard) =>
          exit := if standard then Caught else Escaped;
        case Login(u, matches, device) =>
          if pack.package.kind == TEXT {
            var o;
            user', o := Login(c, user, u, matches, device);
          }
        case Other =>
      }
    }

    /** One round of the loop: a read from the socket, and the message that it may complete. */
    method ReadOnce(c: Connection, ghost session: Session, receiver: Framing.Package, input: Input,
                    user: UserID, beats: nat, since: int)
      returns (exit: Exit, user': UserID, beats': nat, since': int)
      requires Valid() && Inv(abs) && At(c, session)
      requires session == Session(user, receiver.buffer, beats, since)
      modifies this, users.Values, receiver
      ensures Valid() && users == old(users) && Inv(abs)
      ensures exit == Stay || exit == Return ==> abs == Next(old(abs), EventOf(c, input)).state
      ensures exit == Stay ==> At(c, Session(user', receiver.buffer, beats', since'))
      ensures exit == Return ==> c !in abs.sessions
      ensures exit == Caught || exit == Escaped ==>
        c in abs.sessions && Close(abs, c) == Next(old(abs), EventOf(c, input)) && abs.attempts == old(abs.attempts)
    {
      hide Inv, Close, Serve, Framing.FirstLength;
      exit, user', beats', since' := Stay, user, beats, since;
      NextInv(abs, EventOf(c, input));
      match input {
        case ReadFailed =>
          exit := Caught;
        case Chunk(bytes, now, later, request) =>
          receiver.Write(bytes);
          SessionInv(abs, c, session.(receiver := receiver.buffer));
          var ready := receiver.CanRead();
          if !ready {
            abs := abs.(sessions := abs.sessions[c := session.(receiver := receiver.buffer)]);
            return;
          }
          ghost var buffer := receiver.buffer;
          var r := receiver.Read();
          SessionInv(abs, c, session.(receiver := receiver.buffer));
          abs := abs.(sessions := abs.sessions[c := session.(receiver := receiver.buffer)]);
          if r.Failed? {
            exit := Caught;
            return;
          }
          assert r.bytes == buffer[..Framing.FirstLength(buffer)];
          assert receiver.buffer == buffer[Framing.FirstLength(buffer)..];
          exit, user', beats', since' :=
            HandleMessage(c, session.(receiver := receiver.buffer), r.bytes, now, later, request, user, beats, since);
      }
    }

    /**
      The receive loop of an accepted connection. It is closed in three places: at too many heartbeats, behind the
      handler inside the loop, and behind the handlers around the loop. A removal that threw in one of the first two
      would be followed by the next. `ended` says whether the loop was left; then there was one attempt, with success.
    */
    method Process(c: Connection, accepted: int, handshake: bool, inputs: seq<Input>) returns (ended: bool)
      requires Valid() && Inv(abs) && Possible(abs, Accept(c, accepted))
      modifies this, users.Values
      ensures Valid() && Inv(abs)
      ensures abs == Loop(Next(old(abs), Accept(c, accepted)).state, c, if handshake then inputs else [ReadFailed])
      ensures ended <==> c !in abs.sessions
      ensures abs.attempts == old(abs.attempts) + if ended then [Attempt(c, Done)] else []
    {
      hide Inv, Close, Receive, Loop;
      NextInv(abs, Accept(c, accepted));
      var o := RegisterConnection(c);
      abs := abs.(sessions := abs.sessions[c := Session(NOBODY, [], 0, accepted)]);
      ghost var start := abs;
      var exit := if handshake then Stay else Escaped;
      var receiver := new Framing.Package();
      var user, beats: nat, since, k := NOBODY, 0, accepted, 0;
      ghost var events := if handshake then inputs else [ReadFailed];
      assert events[0..] == events;
      CloseInv(abs, c);
      LoopFails(abs, c);
      while exit == Stay
        invariant k <= |inputs| && Valid() && Inv(abs) && users == old(users)
        invariant exit == Stay ==> At(c, Session(user, receiver.buffer, beats, since)) && events == inputs
        invariant exit == Stay || exit == Escaped ==> c in abs.sessions && abs.attempts == old(abs.attempts)
        invariant exit == Stay ==> Loop(abs, c, inputs[k..]) == Loop(start, c, events)
        invariant exit == Escaped ==> Close(abs, c).state == Loop(start, c, events)
        invariant exit == Return ==> Closed(c, old(abs.attempts)) && abs == Loop(start, c, events)
        invariant exit != Caught
        decreases |inputs| - k, exit == Stay
      {
        if k == |inputs| {
          assert inputs[k..] == [];
          LoopEnds(abs, c);
          return false;
        }
        LoopStep(abs, c, inputs, k);
        ReadSteps(abs, c, inputs[k], inputs[k + 1..]);
        exit, user, beats, since := ReadOnce(c, abs.sessions[c], receiver, inputs[k], user, beats, since);
        k := k + 1;
        if exit == Caught || exit == Escaped { CloseInv(abs, c); }
        if exit == Caught {
          o := CloseConnection(c);
          exit := if o == Done then Return else Escaped;
        }
      }
      if exit == Escaped {
        CloseInv(abs, c);
        o := CloseConnection(c);
      }
      return true;
    }

    ghost predicate Closed(c: Connection, attempts: seq<Attempt>)
      reads this
    {
      c !in abs.sessions && abs.attempts == attempts + [Attempt(c, Done)]
    }
  }

  /** A round either keeps the session and attempts no removal, or ends the session and all that follows. */
  lemma ReadSteps(s: State, c: Connection, input: Input, rest: seq<Input>)
    requires Inv(s) && c in s.sessions
    ensures var t := Next(s, EventOf(c, input)).state;
      && (c in t.sessions ==> t.attempts == s.attempts)
      && (c !in t.sessions ==> t.attempts == s.attempts + [Attempt(c, Done)] && Loop(t, c, rest) == t)
  {
    hide Next;
    var t := Next(s, EventOf(c, input)).state;
    NextInv(s, EventOf(c, input));
    HasConnection(s, c);
    HasConnection(t, c);
  }

  lemma LoopEnds(s: State, c: Connection)
    ensures Loop(s, c, []) == s
  {
  }

  lemma LoopFails(s: State, c: Connection)
    requires c in s.sessions && c !in Close(s, c).state.sessions
    ensures Loop(s, c, [ReadFailed]) == Close(s, c).state
  {
    assert [ReadFailed][1..] == [];
    hide Close;
  }

  lemma LoopStep(s: State, c: Connection, inputs: seq<Input>, k: nat)
    requires k < |inputs| && c in s.sessions
    ensures Loop(s, c, inputs[k..]) == Loop(Next(s, EventOf(c, inputs[k])).state, c, inputs[k + 1..])
  {
    assert inputs[k..][1..] == inputs[k + 1..];
  }
}
