/**
  The server's objects: users and group rooms on the heap, the managers' maps, and the commands that update
  them in place. Every method is tied to the operation of the same name on the abstract state.
*/
module SocialServer {
  import opened Collections
  import opened Identifiers
  import opened GroupVerifications
  import opened SocialGraph
  import F = FriendGraph
  import G = GroupGraph

  /** What one user keeps. */
  datatype UserRecords = UserRecords(
    friends: set<UserID>,
    listings: map<UserID, VerificationType>,
    groups: set<GroupID>,
    mirror: seq<Entry>)

  function RecordsOf(s: State, u: UserID): UserRecords {
    UserRecords(F.FriendsOf(s.friends.friends, u), F.ListingsOf(s.friends.listings, u),
                G.GroupsOf(s.groups.groups, u), G.MirrorOf(s.groups.mirrors, u))
  }

  ghost predicate KeysTied(s: State, users: set<UserID>) {
    && s.friends.friends.Keys == s.friends.listings.Keys == users
    && s.groups.groups.Keys == s.groups.mirrors.Keys == users
    && forall u :: Sorted(G.MirrorOf(s.groups.mirrors, u))
  }

  lemma AfterFriends(s: State, users: set<UserID>, u: UserID, friends: set<UserID>)
    requires KeysTied(s, users) && u in users
    ensures var t := s.(friends := s.friends.(friends := s.friends.friends[u := friends]));
      && KeysTied(t, users)
      && forall w :: RecordsOf(t, w) == if w == u then RecordsOf(s, u).(friends := friends) else RecordsOf(s, w)
  {
  }

  lemma AfterListings(s: State, users: set<UserID>, u: UserID, listings: map<UserID, VerificationType>)
    requires KeysTied(s, users) && u in users
    ensures var t := s.(friends := s.friends.(listings := s.friends.listings[u := listings]));
      && KeysTied(t, users)
      && forall w :: RecordsOf(t, w) == if w == u then RecordsOf(s, u).(listings := listings) else RecordsOf(s, w)
  {
  }

  lemma AfterGroups(s: State, users: set<UserID>, u: UserID, groups: set<GroupID>)
    requires KeysTied(s, users) && u in users
    ensures var t := s.(groups := s.groups.(groups := s.groups.groups[u := groups]));
      && KeysTied(t, users)
      && forall w :: RecordsOf(t, w) == if w == u then RecordsOf(s, u).(groups := groups) else RecordsOf(s, w)
  {
  }

  lemma AfterMirror(s: State, users: set<UserID>, u: UserID, mirror: seq<Entry>)
    requires KeysTied(s, users) && u in users && Sorted(mirror)
    ensures var t := s.(groups := s.groups.(mirrors := s.groups.mirrors[u := mirror]));
      && KeysTied(t, users)
      && forall w :: RecordsOf(t, w) == if w == u then RecordsOf(s, u).(mirror := mirror) else RecordsOf(s, w)
  {
    hide Sorted;
    var t := s.(groups := s.groups.(mirrors := s.groups.mirrors[u := mirror]));
    forall w ensures G.MirrorOf(t.groups.mirrors, w) == if w == u then mirror else G.MirrorOf(s.groups.mirrors, w) {}
  }

  lemma AfterNewUser(s: State, users: set<UserID>)
    requires KeysTied(s, users)
    ensures var t, u := SocialGraph.AddNewUser(s).state, s.nextUser;
      && KeysTied(t, users + {u})
      && forall w :: RecordsOf(t, w) == if w == u then UserRecords({}, map[], {}, []) else RecordsOf(s, w)
  {
    var t, u := SocialGraph.AddNewUser(s).state, s.nextUser;
    forall w ensures G.MirrorOf(t.groups.mirrors, w) == if w == u then [] else G.MirrorOf(s.groups.mirrors, w) {}
  }

  /** A new user leaves rooms and pending applications alone. */
  lemma KeptByAddition(s: State)
    ensures SocialGraph.AddNewUser(s) == Step(SocialGraph.AddNewUser(s).state, Registered(s.nextUser))
    ensures var t := SocialGraph.AddNewUser(s).state;
      && t.users == s.users + {s.nextUser} && t.nextUser == s.nextUser + 1
      && t.friends == s.friends.(friends := t.friends.friends, listings := t.friends.listings)
      && t.groups == s.groups.(groups := t.groups.groups, mirrors := t.groups.mirrors)
  {
  }

  /** The rooms and pending applications are no part of what the users keep. */
  lemma SameRecords(s: State, t: State, users: set<UserID>)
    requires KeysTied(s, users)
    requires t.friends.friends == s.friends.friends && t.friends.listings == s.friends.listings
    requires t.groups.groups == s.groups.groups && t.groups.mirrors == s.groups.mirrors
    ensures KeysTied(t, users) && forall w :: RecordsOf(t, w) == RecordsOf(s, w)
  {
  }

  class User {
    const id: UserID
    var friends: set<UserID>
    var listings: map<UserID, VerificationType>
    var groups: set<GroupID>
    var mirror: seq<Entry>

    ghost function Records(): UserRecords
      reads this
    {
      UserRecords(friends, listings, groups, mirror)
    }

    constructor (id: UserID)
      ensures this.id == id && Records() == UserRecords({}, map[], {}, [])
    {
      this.id := id;
      friends, listings, groups, mirror := {}, map[], {}, [];
    }

    method InsertFriend(v: UserID)
      modifies this`friends
      ensures Records() == old(Records()).(friends := friends)
      ensures friends == old(friends) + {v}
    {
      friends := friends + {v};
    }

    method EraseFriend(v: UserID) returns (found: bool)
      modifies this`friends
      ensures Records() == old(Records()).(friends := friends)
      ensures found == (v in old(friends)) && friends == old(friends) - {v}
    {
      if v !in friends {
        return false;
      }
      friends := friends - {v};
      return true;
    }

    method AddFriendVerification(v: UserID, kind: VerificationType)
      modifies this`listings
      ensures Records() == old(Records()).(listings := listings)
      ensures listings == F.Emplace(old(listings), v, kind)
    {
      if v !in listings {
        listings := listings[v := kind];
      }
    }

    method RemoveFriendVerification(v: UserID)
      modifies this`listings
      ensures Records() == old(Records()).(listings := listings)
      ensures listings == old(listings) - {v}
    {
      if v !in listings {
        return;
      }
      listings := listings - {v};
    }

    method InsertGroup(g: GroupID)
      modifies this`groups
      ensures Records() == old(Records()).(groups := groups)
      ensures groups == old(groups) + {g}
    {
      groups := groups + {g};
    }

    method AddGroupVerification(e: Entry)
      modifies this`mirror
      ensures Records() == old(Records()).(mirror := mirror)
      ensures mirror == Insert(old(mirror), e)
    {
      mirror := Insert(mirror, e);
    }

    /** `start` is where the lookup of the group in the multimap lands. */
    method RemoveGroupVerification(g: GroupID, applicator: UserID, start: nat) returns (o: Outcome)
      requires Sorted(mirror) && Lands(mirror, g, start)
      modifies this`mirror
      ensures Records() == old(Records()).(mirror := mirror)
      ensures match EraseFrom(old(mirror), g, applicator, start)
              case Erased(rest) => mirror == rest && o == Returned(true)
              case NotExisted => mirror == old(mirror) && o == Threw(VerificationNotExisted)
              case Untouched => mirror == old(mirror) && o == Returned(true)
              case PastEnd => mirror == old(mirror) && o == Outcome.Undefined
      ensures Sorted(mirror)
    {
      if EraseFrom(mirror, g, applicator, start).Erased? {
        ErasedSorted(mirror, g, applicator, start);
      }
      hide EraseFrom, Sorted;
      var r := RemoveEntry(mirror, g, applicator, start);
      match r {
        case Erased(rest) =>
          mirror := rest;
          return Returned(true);
        case NotExisted => return Threw(VerificationNotExisted);
        case Untouched => return Returned(true);
        case PastEnd => return Outcome.Undefined;
      }
    }
  }

  class GroupRoom {
    const id: GroupID
    const administrator: UserID
    var members: set<UserID>
    var delivery: set<UserID>

    constructor (id: GroupID, administrator: UserID)
      ensures this.id == id && this.administrator == administrator
      ensures members == {administrator} && delivery == {administrator}
    {
      this.id, this.administrator := id, administrator;
      members, delivery := {administrator}, {administrator};
    }

    method AddMember(u: UserID)
      modifies this
      ensures members == old(members) + {u} && delivery == old(delivery) + {u}
    {
      if u !in members {
        members := members + {u};
      }
      if u !in delivery {
        delivery := delivery + {u};
      }
    }

    method RemoveMember(u: UserID)
      modifies this
      ensures members == old(members) - {u} && delivery == old(delivery) - {u}
    {
      if u in members {
        members := members - {u};
      }
      if u in delivery {
        delivery := delivery - {u};
      }
    }

    ghost function Abs(): G.GroupRoom
      reads this
    {
      G.GroupRoom(administrator, members, delivery)
    }
  }

  lemma RemovedAs(s: G.Graph, u: UserID, g: GroupID, applicator: UserID, after: seq<Entry>, o: Outcome)
    requires u in s.mirrors
    requires match Erase(s.mirrors[u], g, applicator)
             case Erased(rest) => after == rest && o == Returned(true)
             case NotExisted => after == s.mirrors[u] && o == Threw(VerificationNotExisted)
             case Untouched => after == s.mirrors[u] && o == Returned(true)
             case PastEnd => after == s.mirrors[u] && o == Outcome.Undefined
    ensures G.RemoveVerification(s, u, g, applicator) == G.Step(s.(mirrors := s.mirrors[u := after]), o)
  {
    hide Erase;
    assert s.mirrors[u := s.mirrors[u]] == s.mirrors;
  }

  /** The managers and their objects. `abs` is the abstract state; `Valid` ties it to the real fields. */
  class Server {
    var users: map<UserID, User>
    var newUserId: UserID
    var pendingFriends: F.Pending
    var privateRooms: F.Rooms
    var pairIndex: F.Index
    var newGroupRoomId: GroupID
    var pendingGroups: G.Pending
    var groupRooms: map<GroupID, GroupRoom>
    var newPrivateRoomId: GroupID
    ghost var abs: State

    constructor ()
      ensures Valid() && abs == INITIAL && fresh(Objects())
    {
      users, groupRooms := map[], map[];
      newUserId, newGroupRoomId, newPrivateRoomId := FIRST_ID, FIRST_ID, FIRST_ID;
      pendingFriends, privateRooms, pairIndex, pendingGroups := map[], map[], map[], map[];
      abs := INITIAL;
    }

    ghost function Objects(): set<object>
      reads this
    {
      {this} + users.Values + groupRooms.Values
    }

    ghost predicate FieldsTied()
      reads this
    {
      abs.users == users.Keys && abs.nextUser == newUserId && FieldsTiedBut()
    }

    /** Objects know their ids, so different ids have different objects. */
    ghost predicate UsersTied(s: State)
      reads this`users, users.Values
    {
      && KeysTied(s, users.Keys)
      && forall u :: u in users ==> users[u].id == u && users[u].Records() == RecordsOf(s, u)
    }

    lemma StillUsersTied(s: State, t: State)
      requires UsersTied(s)
      requires t.friends.friends == s.friends.friends && t.friends.listings == s.friends.listings
      requires t.groups.groups == s.groups.groups && t.groups.mirrors == s.groups.mirrors
      ensures UsersTied(t)
    {
      SameRecords(s, t, users.Keys);
    }

    /** Everything is tied but some records of one user. */
    ghost predicate TiedBut(u: UserID)
      reads this, users.Values, groupRooms.Values
    {
      && FieldsTied() && RoomsTied(abs.groups.rooms) && KeysTied(abs, users.Keys) && u in users
      && (forall w :: w in users ==> users[w].id == w)
      && (forall w :: w in users && w != u ==> users[w].Records() == RecordsOf(abs, w))
    }

    ghost predicate RoomsTied(rooms: G.Rooms)
      reads this`groupRooms, groupRooms.Values
    {
      && rooms.Keys == groupRooms.Keys
      && forall g :: g in groupRooms ==> groupRooms[g].id == g && groupRooms[g].Abs() == rooms[g]
    }

    ghost predicate Valid()
      reads this, users.Values, groupRooms.Values
    {
      FieldsTied() && UsersTied(abs) && RoomsTied(abs.groups.rooms)
    }

    // -------------------------------------------------------------- the abstract state follows one record

    ghost method FollowFriends(u: UserID)
      requires TiedBut(u) && users[u].Records() == RecordsOf(abs, u).(friends := users[u].friends)
      modifies this`abs
      ensures Valid()
      ensures abs == old(abs).(friends := old(abs.friends).(friends := old(abs.friends.friends)[u := users[u].friends]))
    {
      hide RecordsOf, KeysTied, Sorted, RoomsTied;
      AfterFriends(abs, users.Keys, u, users[u].friends);
      abs := abs.(friends := abs.friends.(friends := abs.friends.friends[u := users[u].friends]));
    }

    ghost method FollowListings(u: UserID)
      requires TiedBut(u) && users[u].Records() == RecordsOf(abs, u).(listings := users[u].listings)
      modifies this`abs
      ensures Valid()
      ensures var f := old(abs.friends);
        abs == old(abs).(friends := f.(listings := f.listings[u := users[u].listings]))
    {
      hide RecordsOf, KeysTied, Sorted, RoomsTied;
      AfterListings(abs, users.Keys, u, users[u].listings);
      abs := abs.(friends := abs.friends.(listings := abs.friends.listings[u := users[u].listings]));
    }

    ghost method FollowGroups(u: UserID)
      requires TiedBut(u) && users[u].Records() == RecordsOf(abs, u).(groups := users[u].groups)
      modifies this`abs
      ensures Valid()
      ensures abs == old(abs).(groups := old(abs.groups).(groups := old(abs.groups.groups)[u := users[u].groups]))
    {
      hide RecordsOf, KeysTied, Sorted, RoomsTied;
      AfterGroups(abs, users.Keys, u, users[u].groups);
      abs := abs.(groups := abs.groups.(groups := abs.groups.groups[u := users[u].groups]));
    }

    ghost method FollowMirror(u: UserID)
      requires TiedBut(u) && users[u].Records() == RecordsOf(abs, u).(mirror := users[u].mirror)
      requires Sorted(users[u].mirror)
      modifies this`abs
      ensures Valid()
      ensures abs == old(abs).(groups := old(abs.groups).(mirrors := old(abs.groups.mirrors)[u := users[u].mirror]))
    {
      hide RecordsOf, KeysTied, Sorted, RoomsTied;
      AfterMirror(abs, users.Keys, u, users[u].mirror);
      abs := abs.(groups := abs.groups.(mirrors := abs.groups.mirrors[u := users[u].mirror]));
    }

    // -------------------------------------------------------------- one record at a time

    method InsertFriendOf(u: UserID, v: UserID)
      requires Valid() && u in users
      modifies this`abs, {users[u]}`friends
      ensures Valid() && users == old(users) && groupRooms == old(groupRooms)
      ensures var f := old(abs.friends);
        abs == old(abs).(friends := f.(friends := F.InsertFriend(f.friends, u, v)))
    {
      users[u].InsertFriend(v);
      FollowFriends(u);
    }

    method EraseFriendOf(u: UserID, v: UserID)
      requires Valid() && u in users
      modifies this`abs, {users[u]}`friends
      ensures Valid() && users == old(users) && groupRooms == old(groupRooms)
      ensures var f := old(abs.friends);
        abs == old(abs).(friends := f.(friends := F.EraseFriend(f.friends, u, v)))
    {
      var _ := users[u].EraseFriend(v);
      FollowFriends(u);
    }

    method AddFriendVerificationOf(u: UserID, v: UserID, kind: VerificationType)
      requires Valid() && u in users
      modifies this`abs, {users[u]}`listings
      ensures Valid() && users == old(users) && groupRooms == old(groupRooms)
      ensures var f := old(abs.friends);
        abs == old(abs).(friends := f.(listings := F.EmplaceListing(f.listings, u, v, kind)))
    {
      users[u].AddFriendVerification(v, kind);
      FollowListings(u);
    }

    method RemoveFriendVerificationOf(u: UserID, v: UserID)
      requires Valid() && u in users
      modifies this`abs, {users[u]}`listings
      ensures Valid() && users == old(users) && groupRooms == old(groupRooms)
      ensures var f := old(abs.friends);
        abs == old(abs).(friends := f.(listings := F.EraseListing(f.listings, u, v)))
    {
      users[u].RemoveFriendVerification(v);
      FollowListings(u);
    }

    method InsertGroupOf(u: UserID, g: GroupID)
      requires Valid() && u in users
      modifies this`abs, {users[u]}`groups
      ensures Valid() && users == old(users) && groupRooms == old(groupRooms)
      ensures var s := old(abs.groups);
        abs == old(abs).(groups := s.(groups := G.InsertGroup(s.groups, u, g)))
    {
      users[u].InsertGroup(g);
      FollowGroups(u);
    }

    method AddGroupVerificationOf(u: UserID, e: Entry)
      requires Valid() && u in users
      modifies this`abs, {users[u]}`mirror
      ensures Valid() && users == old(users) && groupRooms == old(groupRooms)
      ensures var s := old(abs.groups);
        abs == old(abs).(groups := s.(mirrors := G.InsertEntry(s.mirrors, u, e)))
    {
      InsertedOne(users[u].mirror, e);
      users[u].AddGroupVerification(e);
      FollowMirror(u);
    }

    method RemoveGroupVerificationOf(u: UserID, g: GroupID, applicator: UserID) returns (o: Outcome)
      requires Valid() && u in users
      modifies this`abs, {users[u]}`mirror
      ensures Valid() && users == old(users) && groupRooms == old(groupRooms)
      ensures var r := G.RemoveVerification(old(abs.groups), u, g, applicator);
        o == r.outcome && abs == old(abs).(groups := r.graph)
    {
      hide Erase, EraseFrom, First, Sorted, G.RemoveVerification;
      ghost var before := abs.groups;
      FromFirst(users[u].mirror, g, applicator);
      o := users[u].RemoveGroupVerification(g, applicator, First(users[u].mirror, g));
      FollowMirror(u);
      RemovedAs(before, u, g, applicator, users[u].mirror, o);
    }

    method AddMemberOf(g: GroupID, u: UserID)
      requires Valid() && g in groupRooms
      modifies this`abs, groupRooms[g]
      ensures Valid() && users == old(users) && groupRooms == old(groupRooms)
      ensures var s := old(abs.groups);
        abs == old(abs).(groups := s.(rooms := G.AddMember(s.rooms, g, u)))
    {
      groupRooms[g].AddMember(u);
      abs := abs.(groups := abs.groups.(rooms := G.AddMember(abs.groups.rooms, g, u)));
    }

    method RemoveMemberOf(g: GroupID, u: UserID)
      requires Valid() && g in groupRooms
      modifies this`abs, groupRooms[g]
      ensures Valid() && users == old(users) && groupRooms == old(groupRooms)
      ensures var s := old(abs.groups);
        abs == old(abs).(groups := s.(rooms := G.RemoveMember(s.rooms, g, u)))
    {
      groupRooms[g].RemoveMember(u);
      abs := abs.(groups := abs.groups.(rooms := G.RemoveMember(abs.groups.rooms, g, u)));
    }

    method SetPendingGroups(pending: G.Pending)
      requires Valid()
      modifies this`abs, this`pendingGroups
      ensures Valid() && users == old(users) && groupRooms == old(groupRooms)
      ensures abs == old(abs).(groups := old(abs.groups).(pending := pending))
    {
      pendingGroups := pending;
      abs := abs.(groups := abs.groups.(pending := pending));
    }

    method SetPendingFriends(pending: F.Pending)
      requires Valid()
      modifies this`abs, this`pendingFriends
      ensures Valid() && users == old(users) && groupRooms == old(groupRooms)
      ensures abs == old(abs).(friends := old(abs.friends).(pending := pending))
    {
      pendingFriends := pending;
      abs := abs.(friends := abs.friends.(pending := pending));
    }

    // -------------------------------------------------------------- Manager

    /** The counter of the group rooms gives a private room its id. */
    method TakeGroupRoomId() returns (id: GroupID)
      requires Valid()
      modifies this`abs, this`newGroupRoomId
      ensures Valid() && users == old(users) && groupRooms == old(groupRooms)
      ensures id == old(abs.friends.nextRoom)
      ensures abs == old(abs).(friends := old(abs.friends).(nextRoom := id + 1))
    {
      id := newGroupRoomId;
      newGroupRoomId := newGroupRoomId + 1;
      abs := abs.(friends := abs.friends.(nextRoom := id + 1));
    }

    method SetPrivateRooms(rooms: F.Rooms, index: F.Index)
      requires Valid()
      modifies this`abs, this`privateRooms, this`pairIndex
      ensures Valid() && users == old(users) && groupRooms == old(groupRooms)
      ensures abs == old(abs).(friends := old(abs.friends).(rooms := rooms, index := index))
    {
      privateRooms, pairIndex := rooms, index;
      abs := abs.(friends := abs.friends.(rooms := rooms, index := index));
    }

    method AddPrivateRoom(a: UserID, b: UserID) returns (o: Outcome)
      requires Valid()
      modifies this`abs, this`newGroupRoomId, this`privateRooms, this`pairIndex
      ensures Valid() && users == old(users) && groupRooms == old(groupRooms)
      ensures var r := F.AddPrivateRoom(users.Keys, old(abs.friends), a, b);
        o == r.outcome && abs == old(abs).(friends := r.graph)
    {
      var id := TakeGroupRoomId();
      if a !in users || b !in users {
        return Threw(UserNotExisted);
      }
      assert privateRooms == abs.friends.rooms && pairIndex == abs.friends.index;
      SetPrivateRooms(privateRooms[id := F.PrivateRoom(a, b, {a, b})], pairIndex[F.PairOf(a, b) := id]);
      return Created(id);
    }

    /** The counter of the private rooms gives a group room its id. */
    method TakePrivateRoomId() returns (id: GroupID)
      requires Valid()
      modifies this`abs, this`newPrivateRoomId
      ensures Valid() && users == old(users) && groupRooms == old(groupRooms)
      ensures id == old(abs.groups.nextRoom)
      ensures abs == old(abs).(groups := old(abs.groups).(nextRoom := id + 1))
    {
      id := newPrivateRoomId;
      newPrivateRoomId := newPrivateRoomId + 1;
      abs := abs.(groups := abs.groups.(nextRoom := id + 1));
    }

    method InsertRoom(room: GroupRoom)
      requires Valid()
      modifies this`abs, this`groupRooms
      ensures Valid() && users == old(users) && groupRooms == old(groupRooms)[room.id := room]
      ensures var s := old(abs.groups);
        abs == old(abs).(groups := s.(rooms := s.rooms[room.id := room.Abs()],
                                      founder := s.founder[room.id := room.administrator]))
    {
      ghost var rooms := abs.groups.rooms[room.id := room.Abs()];
      ghost var t := abs.(groups := abs.groups.(rooms := rooms,
                                                founder := abs.groups.founder[room.id := room.administrator]));
      StillUsersTied(abs, t);
      hide UsersTied;
      groupRooms := groupRooms[room.id := room];
      abs := t;
    }

    method AddGroupRoom(self: UserID) returns (o: Outcome)
      requires Valid()
      modifies this`abs, this`newPrivateRoomId, this`groupRooms
      ensures Valid() && users == old(users) && fresh(groupRooms.Values - old(groupRooms.Values))
      ensures var r := G.AddGroupRoom(users.Keys, old(abs.groups), self);
        o == r.outcome && abs == old(abs).(groups := r.graph)
    {
      ghost var s := abs.groups;
      var id := TakePrivateRoomId();
      if self !in users {
        return Threw(UserNotExisted);
      }
      hide Valid;
      var room := new GroupRoom(id, self);
      OneMoreValue(groupRooms, id, room);
      InsertRoom(room);
      assert abs.groups == G.AddGroupRoom(users.Keys, s, self).graph;
      return Created(id);
    }

    method AddNewUser() returns (o: Outcome)
      requires Valid()
      modifies this`abs, this`users, this`newUserId
      ensures Valid() && groupRooms == old(groupRooms) && fresh(users.Values - old(users.Values))
      ensures Step(abs, o) == SocialGraph.AddNewUser(old(abs))
    {
      hide RecordsOf, KeysTied, RoomsTied, SocialGraph.AddNewUser;
      KeptByAddition(abs);
      var id := newUserId;
      var user := new User(id);
      OneMoreValue(users, id, user);
      users := users[id := user];
      newUserId := id + 1;
      FollowNewUser(old(users.Keys));
      return Registered(id);
    }

    /** The next id has been given to a new object. */
    ghost method FollowNewUser(before: set<UserID>)
      requires KeysTied(abs, before) && abs.users == before && users.Keys == before + {abs.nextUser}
      requires newUserId == abs.nextUser + 1
      requires FieldsTiedBut() && RoomsTied(abs.groups.rooms)
      requires forall w :: w in users ==> users[w].id == w
      requires forall w :: w in users ==>
        users[w].Records() == if w == abs.nextUser then UserRecords({}, map[], {}, []) else RecordsOf(abs, w)
      modifies this`abs
      ensures Valid() && abs == SocialGraph.AddNewUser(old(abs)).state
    {
      hide RecordsOf, KeysTied, RoomsTied, SocialGraph.AddNewUser;
      AfterNewUser(abs, before);
      KeptByAddition(abs);
      abs := SocialGraph.AddNewUser(abs).state;
    }

    /** The managers' fields without those that a new user changes. */
    ghost predicate FieldsTiedBut()
      reads this
    {
      && abs.friends.pending == pendingFriends && abs.friends.rooms == privateRooms
      && abs.friends.index == pairIndex && abs.friends.nextRoom == newGroupRoomId
      && abs.groups.pending == pendingGroups && abs.groups.nextRoom == newPrivateRoomId
    }

    // -------------------------------------------------------------- VerificationManager, friends

    method ApplyFriend(sender: UserID, receiver: UserID) returns (o: Outcome)
      requires Valid()
      modifies Objects()
      ensures Valid() && users == old(users) && groupRooms == old(groupRooms)
      ensures var r := F.Apply(users.Keys, old(abs.friends), sender, receiver);
        o == r.outcome && abs == old(abs).(friends := r.graph)
    {
      if sender == receiver {
        return Threw(InvalidVerification);
      }
      if sender !in users || receiver !in users {
        return Threw(UserNotExisted);
      }
      if F.PairOf(sender, receiver) in pairIndex {
        return Threw(PrivateRoomExisted);
      }
      if F.FriendKey(sender, receiver) in pendingFriends {
        return Threw(VerificationExisted);
      }
      SetPendingFriends(pendingFriends[F.FriendKey(sender, receiver) := false]);
      AddFriendVerificationOf(sender, receiver, Sent);
      AddFriendVerificationOf(receiver, sender, Received);
      return Returned(true);
    }

    method RemoveFriendApplication(sender: UserID, receiver: UserID) returns (o: Outcome)
      requires Valid()
      modifies Objects()
      ensures Valid() && users == old(users) && groupRooms == old(groupRooms)
      ensures var r := F.RemoveApplication(users.Keys, old(abs.friends), sender, receiver);
        o == r.outcome && abs == old(abs).(friends := r.graph)
    {
      if sender == receiver {
        return Threw(InvalidVerification);
      }
      if F.FriendKey(sender, receiver) !in pendingFriends {
        return Returned(true);
      }
      SetPendingFriends(pendingFriends - {F.FriendKey(sender, receiver)});
      if sender !in users {
        return Threw(UserNotExisted);
      }
      RemoveFriendVerificationOf(sender, receiver);
      if receiver !in users {
        return Threw(UserNotExisted);
      }
      RemoveFriendVerificationOf(receiver, sender);
      return Returned(true);
    }

    method AcceptFriendApplication(sender: UserID, receiver: UserID) returns (o: Outcome)
      requires Valid()
      modifies Objects()
      ensures Valid() && users == old(users) && groupRooms == old(groupRooms)
      ensures var r := F.AcceptApplication(users.Keys, old(abs.friends), sender, receiver);
        o == r.outcome && abs == old(abs).(friends := r.graph)
    {
      if sender == receiver {
        return Threw(InvalidVerification);
      }
      if F.FriendKey(sender, receiver) !in pendingFriends {
        return Threw(VerificationNotExisted);
      }
      SetPendingFriends(pendingFriends[F.FriendKey(sender, receiver) := true]);
      o := AddPrivateRoom(sender, receiver);
      if o.Threw? {
        return;
      }
      InsertFriendOf(sender, receiver);
      InsertFriendOf(receiver, sender);
      o := RemoveFriendApplication(sender, receiver);
    }

    // -------------------------------------------------------------- VerificationManager, groups

    method ApplyGroup(sender: UserID, g: GroupID) returns (o: Outcome)
      requires Valid()
      modifies Objects()
      ensures Valid() && users == old(users) && groupRooms == old(groupRooms)
      ensures var r := G.Apply(users.Keys, old(abs.groups), sender, g);
        o == r.outcome && abs == old(abs).(groups := r.graph)
    {
      if g !in groupRooms {
        return Threw(GroupRoomNotExisted);
      }
      if sender !in users {
        return Threw(UserNotExisted);
      }
      if G.GroupKey(sender, g) in pendingGroups {
        return Threw(VerificationNotExisted);
      }
      SetPendingGroups(pendingGroups[G.GroupKey(sender, g) := false]);
      AddGroupVerificationOf(sender, Entry(g, sender, Sent));
      var admin := groupRooms[g].administrator;
      if admin !in users {
        return Threw(UserNotExisted);
      }
      AddGroupVerificationOf(admin, Entry(g, sender, Received));
      return Returned(true);
    }

    method RemoveGroupApplication(sender: UserID, g: GroupID) returns (o: Outcome)
      requires Valid()
      modifies Objects()
      ensures Valid() && users == old(users) && groupRooms == old(groupRooms)
      ensures var r := G.RemoveApplication(users.Keys, old(abs.groups), sender, g);
        o == r.outcome && abs == old(abs).(groups := r.graph)
    {
      if G.GroupKey(sender, g) !in pendingGroups {
        return Threw(VerificationNotExisted);
      }
      SetPendingGroups(pendingGroups - {G.GroupKey(sender, g)});
      if g !in groupRooms {
        return Threw(GroupRoomNotExisted);
      }
      var admin := groupRooms[g].administrator;
      if admin !in users {
        return Threw(UserNotExisted);
      }
      o := RemoveGroupVerificationOf(admin, g, sender);
      if o != Returned(true) {
        return;
      }
      if sender !in users {
        return Threw(UserNotExisted);
      }
      o := RemoveGroupVerificationOf(sender, g, sender);
    }

    method AcceptGroupApplication(sender: UserID, g: GroupID) returns (o: Outcome)
      requires Valid()
      modifies Objects()
      ensures Valid() && users == old(users) && groupRooms == old(groupRooms)
      ensures var r := G.AcceptApplication(users.Keys, old(abs.groups), sender, g);
        o == r.outcome && abs == old(abs).(groups := r.graph)
    {
      if G.GroupKey(sender, g) !in pendingGroups {
        return Threw(VerificationNotExisted);
      }
      SetPendingGroups(pendingGroups[G.GroupKey(sender, g) := true]);
      if g !in groupRooms {
        return Threw(GroupRoomNotExisted);
      }
      if sender !in users {
        return Threw(UserNotExisted);
      }
      AddMemberOf(g, sender);
      InsertGroupOf(sender, g);
      o := RemoveGroupApplication(sender, g);
    }

    // -------------------------------------------------------------- User, on behalf of `self`

    method AddFriend(self: UserID, other: UserID) returns (o: Outcome)
      requires Valid()
      modifies Objects()
      ensures Valid() && users == old(users) && groupRooms == old(groupRooms)
      ensures var r := F.AddFriend(users.Keys, old(abs.friends), self, other);
        o == r.outcome && abs == old(abs).(friends := r.graph)
    {
      if self == other || other !in users {
        return Returned(false);
      }
      if F.PairOf(self, other) in pairIndex || F.FriendKey(self, other) in pendingFriends {
        return Returned(false);
      }
      o := ApplyFriend(self, other);
    }

    method AcceptFriend(self: UserID, other: UserID) returns (o: Outcome)
      requires Valid()
      modifies Objects()
      ensures Valid() && users == old(users) && groupRooms == old(groupRooms)
      ensures var r := F.AcceptFriend(users.Keys, old(abs.friends), self, other);
        o == r.outcome && abs == old(abs).(friends := r.graph)
    {
      if self == other || other !in users || F.FriendKey(other, self) !in pendingFriends {
        return Returned(false);
      }
      o := AcceptFriendApplication(other, self);
    }

    method RejectFriend(self: UserID, other: UserID) returns (o: Outcome)
      requires Valid()
      modifies Objects()
      ensures Valid() && users == old(users) && groupRooms == old(groupRooms)
      ensures var r := F.RejectFriend(users.Keys, old(abs.friends), self, other);
        o == r.outcome && abs == old(abs).(friends := r.graph)
    {
      if self == other || other !in users || F.FriendKey(other, self) !in pendingFriends {
        return Returned(false);
      }
      o := RemoveFriendApplication(other, self);
    }

    method RemoveFriend(self: UserID, other: UserID) returns (o: Outcome)
      requires Valid() && self in users
      modifies Objects()
      ensures Valid() && users == old(users) && groupRooms == old(groupRooms)
      ensures var r := F.RemoveFriend(users.Keys, old(abs.friends), self, other);
        o == r.outcome && abs == old(abs).(friends := r.graph)
    {
      if self == other || other !in users || other !in users[self].friends {
        return Returned(false);
      }
      EraseFriendOf(self, other);
      EraseFriendOf(other, other);
      return Returned(true);
    }

    method SendFriendMessage(self: UserID, other: UserID) returns (o: Outcome)
      requires Valid() && self in users
      ensures F.Step(abs.friends, o) == F.SendMessage(users.Keys, abs.friends, self, other)
    {
      if other !in users || other !in users[self].friends {
        return Returned(false);
      }
      if F.PairOf(self, other) !in pairIndex {
        return Threw(PrivateRoomNotExisted);
      }
      var id := pairIndex[F.PairOf(self, other)];
      if id !in privateRooms {
        return Threw(PrivateRoomNotExisted);
      }
      return if self in privateRooms[id].delivery then Delivered(id, privateRooms[id].delivery) else Dropped;
    }

    method CreateGroup(self: UserID) returns (o: Outcome)
      requires Valid() && self in users
      modifies Objects()
      ensures Valid() && users == old(users) && fresh(Objects() - old(Objects()))
      ensures var r := G.CreateGroup(users.Keys, old(abs.groups), self);
        o == r.outcome && abs == old(abs).(groups := r.graph)
    {
      var id := newPrivateRoomId;
      assert id == abs.groups.nextRoom;
      hide Valid;
      ghost var s := abs.groups;
      o := AddGroupRoom(self);
      assert o == Created(id) && abs.groups == G.AddGroupRoom(users.Keys, s, self).graph;
      InsertGroupOf(self, id);
      assert abs.groups == G.CreateGroup(users.Keys, s, self).graph;
    }

    method AddGroup(self: UserID, g: GroupID) returns (o: Outcome)
      requires Valid()
      modifies Objects()
      ensures Valid() && users == old(users) && groupRooms == old(groupRooms)
      ensures var r := G.AddGroup(users.Keys, old(abs.groups), self, g);
        o == r.outcome && abs == old(abs).(groups := r.graph)
    {
      if g !in groupRooms || self in groupRooms[g].members || G.GroupKey(self, g) in pendingGroups {
        return Returned(false);
      }
      o := ApplyGroup(self, g);
    }

    method AcceptGroup(self: UserID, g: GroupID, u: UserID) returns (o: Outcome)
      requires Valid()
      modifies Objects()
      ensures Valid() && users == old(users) && groupRooms == old(groupRooms)
      ensures var r := G.AcceptGroup(users.Keys, old(abs.groups), self, g, u);
        o == r.outcome && abs == old(abs).(groups := r.graph)
    {
      if g !in groupRooms || u in groupRooms[g].members || self != groupRooms[g].administrator {
        return Returned(false);
      }
      o := AcceptGroupApplication(u, g);
    }

    method RejectGroup(self: UserID, g: GroupID, u: UserID) returns (o: Outcome)
      requires Valid()
      modifies Objects()
      ensures Valid() && users == old(users) && groupRooms == old(groupRooms)
      ensures var r := G.RejectGroup(users.Keys, old(abs.groups), self, g, u);
        o == r.outcome && abs == old(abs).(groups := r.graph)
    {
      if g !in groupRooms || u in groupRooms[g].members || self != groupRooms[g].administrator {
        return Returned(false);
      }
      if G.GroupKey(u, g) !in pendingGroups {
        return Returned(false);
      }
      o := RemoveGroupApplication(u, g);
    }

    method RemoveGroup(self: UserID, g: GroupID) returns (o: Outcome)
      requires Valid()
      modifies Objects()
      ensures Valid() && users == old(users) && groupRooms.Values <= old(groupRooms.Values)
      ensures var r := G.RemoveGroup(old(abs.groups), self, g);
        o == r.outcome && abs == old(abs).(groups := r.graph)
    {
      if g !in groupRooms || self != groupRooms[g].administrator {
        return Returned(false);
      }
      groupRooms := groupRooms - {g};
      ghost var t := abs.(groups := abs.groups.(rooms := abs.groups.rooms - {g}));
      StillUsersTied(abs, t);
      abs := t;
      return Returned(true);
    }

    method LeaveGroup(self: UserID, g: GroupID) returns (o: Outcome)
      requires Valid()
      modifies Objects()
      ensures Valid() && users == old(users) && groupRooms == old(groupRooms)
      ensures var r := G.LeaveGroup(old(abs.groups), self, g);
        o == r.outcome && abs == old(abs).(groups := r.graph)
    {
      if g !in groupRooms {
        return Returned(false);
      }
      RemoveMemberOf(g, self);
      return Returned(groupRooms[g].administrator != self);
    }

    method SendGroupMessage(self: UserID, g: GroupID) returns (o: Outcome)
      requires Valid() && self in users
      ensures G.Step(abs.groups, o) == G.SendMessage(abs.groups, self, g)
    {
      if g !in groupRooms || g !in users[self].groups {
        return Returned(false);
      }
      return if self in groupRooms[g].members then Delivered(g, groupRooms[g].delivery) else Dropped;
    }

    // -------------------------------------------------------------- commands

    method FriendCommand(self: UserID, c: Command) returns (o: Outcome)
      requires Valid() && self in users && IsFriendCommand(c)
      modifies Objects()
      ensures Valid() && users == old(users) && groupRooms == old(groupRooms)
      ensures var r := FriendStep(users.Keys, old(abs.friends), self, c);
        o == r.outcome && abs == old(abs).(friends := r.graph)
    {
      match c {
        case AddFriend(u) => o := AddFriend(self, u);
        case AcceptFriend(u) => o := AcceptFriend(self, u);
        case RejectFriend(u) => o := RejectFriend(self, u);
        case RemoveFriend(u) => o := RemoveFriend(self, u);
        case SendFriendMessage(u) => o := SendFriendMessage(self, u);
      }
    }

    method GroupCommand(self: UserID, c: Command) returns (o: Outcome)
      requires Valid() && self in users && !IsFriendCommand(c) && !c.Register?
      modifies Objects()
      ensures Valid() && users == old(users) && fresh(Objects() - old(Objects()))
      ensures var r := GroupStep(users.Keys, old(abs.groups), self, c);
        o == r.outcome && abs == old(abs).(groups := r.graph)
    {
      match c {
        case CreateGroup => o := CreateGroup(self);
        case AddGroup(g) => o := AddGroup(self, g);
        case AcceptGroup(g, u) => o := AcceptGroup(self, g, u);
        case RejectGroup(g, u) => o := RejectGroup(self, g, u);
        case RemoveGroup(g) => o := RemoveGroup(self, g);
        case LeaveGroup(g) => o := LeaveGroup(self, g);
        case SendGroupMessage(g) => o := SendGroupMessage(self, g);
      }
    }

    /** One command of a session, with the checks its parameters and its executor get first. */
    method Execute(executor: UserID, c: Command) returns (o: Outcome)
      requires Valid()
      modifies Objects()
      ensures Valid() && fresh(Objects() - old(Objects()))
      ensures Step(abs, o) == SocialGraph.Execute(old(abs), executor, c)
    {
      if c.Register? {
        if !c.emailOk {
          return Returned(false);
        }
        o := AddNewUser();
        return;
      }
      if IsFriendCommand(c) && c.user !in users {
        return Returned(false);
      }
      if (c.AddGroup? || c.SendGroupMessage?) && c.group !in groupRooms {
        return Returned(false);
      }
      if executor !in users {
        return if c.CreateGroup? then Returned(false) else Threw(UserNotExisted);
      }
      if IsFriendCommand(c) {
        o := FriendCommand(executor, c);
        if c.AcceptFriend? && o.Returned? {
          o := Returned(true);
        }
      } else {
        o := GroupCommand(executor, c);
      }
    }
  }
}
