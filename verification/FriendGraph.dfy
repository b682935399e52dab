/**
  Friends, friend applications and private rooms: one function per server operation on the friend half
  of the server's state, and the invariant that ties the redundant maps together.
*/
module FriendGraph {
  import opened Identifiers

  /** Key of a friend application; the two directions are different keys. */
  datatype FriendKey = FriendKey(applicator: UserID, controller: UserID)

  /** Key of the pair index. Its equality ignores the order of the two users, so the pair is normalised. */
  datatype PairKey = PairKey(low: UserID, high: UserID)

  function PairOf(a: UserID, b: UserID): PairKey {
    if a <= b then PairKey(a, b) else PairKey(b, a)
  }

  /** A private room; both users are in its delivery set. */
  datatype PrivateRoom = PrivateRoom(user1: UserID, user2: UserID, delivery: set<UserID>)

  type Friends = map<UserID, set<UserID>>
  type Listings = map<UserID, map<UserID, VerificationType>>
  type Pending = map<FriendKey, bool>
  type Rooms = map<GroupID, PrivateRoom>
  type Index = map<PairKey, GroupID>

  /** `friends` and `listings` are the records the users keep; the other fields belong to the managers. */
  datatype Graph = Graph(
    friends: Friends,
    listings: Listings,
    pending: Pending,
    rooms: Rooms,
    index: Index,
    nextRoom: GroupID)

  const EMPTY := Graph(map[], map[], map[], map[], map[], FIRST_ID)

  datatype Step = Step(graph: Graph, outcome: Outcome)

  // ---------------------------------------------------------------- the records of one user

  function FriendsOf(friends: Friends, u: UserID): set<UserID> {
    if u in friends then friends[u] else {}
  }

  function ListingsOf(listings: Listings, u: UserID): map<UserID, VerificationType> {
    if u in listings then listings[u] else map[]
  }

  function InsertFriend(friends: Friends, u: UserID, v: UserID): Friends {
    friends[u := FriendsOf(friends, u) + {v}]
  }

  function EraseFriend(friends: Friends, u: UserID, v: UserID): Friends {
    friends[u := FriendsOf(friends, u) - {v}]
  }

  /** Insertion into a map that leaves an existing entry alone. */
  function Emplace<K, V>(m: map<K, V>, k: K, v: V): map<K, V> {
    if k in m then m else m[k := v]
  }

  function EmplaceListing(listings: Listings, u: UserID, v: UserID, kind: VerificationType): Listings {
    listings[u := Emplace(ListingsOf(listings, u), v, kind)]
  }

  function EraseListing(listings: Listings, u: UserID, v: UserID): Listings {
    listings[u := ListingsOf(listings, u) - {v}]
  }

  // ---------------------------------------------------------------- operations

  predicate HasPrivateRoom(s: Graph, a: UserID, b: UserID) {
    PairOf(a, b) in s.index
  }

  function AddPrivateRoom(users: set<UserID>, s: Graph, a: UserID, b: UserID): Step {
    var id := s.nextRoom;
    if a !in users || b !in users then Step(s.(nextRoom := id + 1), Threw(UserNotExisted))
    else Step(s.(nextRoom := id + 1,
                 rooms := s.rooms[id := PrivateRoom(a, b, {a, b})],
                 index := s.index[PairOf(a, b) := id]),
              Created(id))
  }

  function Apply(users: set<UserID>, s: Graph, sender: UserID, receiver: UserID): Step {
    if sender == receiver then Step(s, Threw(InvalidVerification))
    else if sender !in users || receiver !in users then Step(s, Threw(UserNotExisted))
    else if HasPrivateRoom(s, sender, receiver) then Step(s, Threw(PrivateRoomExisted))
    else if FriendKey(sender, receiver) in s.pending then Step(s, Threw(VerificationExisted))
    else
      var one := EmplaceListing(s.listings, sender, receiver, Sent);
      Step(s.(pending := s.pending[FriendKey(sender, receiver) := false],
              listings := EmplaceListing(one, receiver, sender, Received)),
           Returned(true))
  }

  function RemoveApplication(users: set<UserID>, s: Graph, sender: UserID, receiver: UserID): Step {
    if sender == receiver then Step(s, Threw(InvalidVerification))
    else if FriendKey(sender, receiver) !in s.pending then Step(s, Returned(true))
    else
      var pending := s.pending - {FriendKey(sender, receiver)};
      if sender !in users then Step(s.(pending := pending), Threw(UserNotExisted))
      else
        var one := EraseListing(s.listings, sender, receiver);
        if receiver !in users then Step(s.(pending := pending, listings := one), Threw(UserNotExisted))
        else Step(s.(pending := pending, listings := EraseListing(one, receiver, sender)), Returned(true))
  }

  function AcceptApplication(users: set<UserID>, s: Graph, sender: UserID, receiver: UserID): Step {
    if sender == receiver then Step(s, Threw(InvalidVerification))
    else if FriendKey(sender, receiver) !in s.pending then Step(s, Threw(VerificationNotExisted))
    else
      var flagged := s.(pending := s.pending[FriendKey(sender, receiver) := true]);
      var added := AddPrivateRoom(users, flagged, sender, receiver);
      if added.outcome.Threw? then added
      else
        var one := InsertFriend(s.friends, sender, receiver);
        RemoveApplication(users, added.graph.(friends := InsertFriend(one, receiver, sender)), sender, receiver)
  }

  function AddFriend(users: set<UserID>, s: Graph, self: UserID, other: UserID): Step {
    if self == other || other !in users then Step(s, Returned(false))
    else if HasPrivateRoom(s, self, other) then Step(s, Returned(false))
    else if FriendKey(self, other) in s.pending then Step(s, Returned(false))
    else Apply(users, s, self, other)
  }

  function AcceptFriend(users: set<UserID>, s: Graph, self: UserID, other: UserID): Step {
    if self == other || other !in users || FriendKey(other, self) !in s.pending then Step(s, Returned(false))
    else AcceptApplication(users, s, other, self)
  }

  function RejectFriend(users: set<UserID>, s: Graph, self: UserID, other: UserID): Step {
    if self == other || other !in users || FriendKey(other, self) !in s.pending then Step(s, Returned(false))
    else RemoveApplication(users, s, other, self)
  }

  /** Both removals erase the same id, so the other user's friend set loses its owner, not `self`. */
  function RemoveFriend(users: set<UserID>, s: Graph, self: UserID, other: UserID): Step {
    if self == other || other !in users || other !in FriendsOf(s.friends, self) then Step(s, Returned(false))
    else Step(s.(friends := EraseFriend(EraseFriend(s.friends, self, other), other, other)), Returned(true))
  }

  /** The room is looked up by the pair, and it drops what comes from outside its delivery set. */
  function SendMessage(users: set<UserID>, s: Graph, self: UserID, other: UserID): Step {
    if other !in users || other !in FriendsOf(s.friends, self) then Step(s, Returned(false))
    else if !HasPrivateRoom(s, self, other) then Step(s, Threw(PrivateRoomNotExisted))
    else
      var id := s.index[PairOf(self, other)];
      if id !in s.rooms then Step(s, Threw(PrivateRoomNotExisted))
      else if self !in s.rooms[id].delivery then Step(s, Dropped)
      else Step(s, Delivered(id, s.rooms[id].delivery))
  }

  function AddUser(s: Graph, u: UserID): Graph {
    s.(friends := s.friends[u := {}], listings := s.listings[u := map[]])
  }

  // ---------------------------------------------------------------- the invariant

  predicate IsFriend(friends: Friends, u: UserID, f: UserID) {
    f in FriendsOf(friends, u)
  }

  datatype Listing = Nothing | Listed(kind: VerificationType)

  /** What `a` is shown about an application between `a` and `b`. */
  function ListingOf(listings: Listings, a: UserID, b: UserID): Listing {
    if b in ListingsOf(listings, a) then Listed(listings[a][b]) else Nothing
  }

  function Opposite(l: Listing): Listing {
    match l
    case Nothing => Nothing
    case Listed(Sent) => Listed(Received)
    case Listed(Received) => Listed(Sent)
  }

  /** The pair names an existing private room of exactly these two users. */
  predicate HasItsRoom(users: set<UserID>, rooms: Rooms, k: PairKey, id: GroupID) {
    && k.low < k.high && k.low in users && k.high in users
    && id in rooms && PairOf(rooms[id].user1, rooms[id].user2) == k && rooms[id].delivery == {k.low, k.high}
  }

  /** A friend is another user, and the two have a private room. */
  ghost predicate FriendsHaveRooms(users: set<UserID>, friends: Friends, index: Index, rooms: Rooms) {
    && (forall u, f :: IsFriend(friends, u, f) ==> u in users && f in users && f != u && PairOf(u, f) in index)
    && (forall k :: k in index ==> HasItsRoom(users, rooms, k, index[k]))
  }

  /** The two listings of a pair are opposite, and a Sent listing is backed by a pending application. */
  ghost predicate ListingsDual(listings: Listings, pending: Pending) {
    && (forall a, b :: ListingOf(listings, b, a) == Opposite(ListingOf(listings, a, b)))
    && (forall a, b :: ListingOf(listings, a, b) == Listed(Sent) ==> FriendKey(a, b) in pending)
  }

  /** Applications are between two different users, and none is flagged as accepted. */
  ghost predicate ApplicantsExist(users: set<UserID>, pending: Pending) {
    forall k :: k in pending ==>
      k.applicator in users && k.controller in users && k.applicator != k.controller && !pending[k]
  }

  ghost predicate Inv(users: set<UserID>, s: Graph) {
    && s.friends.Keys == s.listings.Keys == users
    && (forall r :: r in s.rooms ==> r < s.nextRoom)
    && FriendsHaveRooms(users, s.friends, s.index, s.rooms)
    && ListingsDual(s.listings, s.pending)
    && ApplicantsExist(users, s.pending)
  }

  // ---------------------------------------------------------------- every operation keeps it

  lemma AddUserInv(users: set<UserID>, s: Graph, u: UserID)
    requires Inv(users, s) && u !in users
    ensures Inv(users + {u}, AddUser(s, u))
  {
    var t := AddUser(s, u);
    forall v, f ensures IsFriend(t.friends, v, f) == IsFriend(s.friends, v, f) {}
    forall a, b ensures ListingOf(t.listings, a, b) == ListingOf(s.listings, a, b) {}
    forall k | k in t.index ensures HasItsRoom(users + {u}, t.rooms, k, t.index[k]) {
      assert HasItsRoom(users, s.rooms, k, s.index[k]);
    }
  }

  /** What an application changes in the listings: empty ones of the pair are filled, others stay. */
  lemma ListingAfterApply(users: set<UserID>, s: Graph, a: UserID, b: UserID, x: UserID, y: UserID)
    requires Apply(users, s, a, b).outcome == Returned(true)
    ensures ListingOf(Apply(users, s, a, b).graph.listings, x, y) ==
            if ListingOf(s.listings, x, y) != Nothing then ListingOf(s.listings, x, y)
            else if x == a && y == b then Listed(Sent)
            else if x == b && y == a then Listed(Received)
            else Nothing
  {
  }

  lemma ApplyInv(users: set<UserID>, s: Graph, a: UserID, b: UserID)
    requires Inv(users, s)
    ensures Inv(users, Apply(users, s, a, b).graph)
  {
    var t := Apply(users, s, a, b).graph;
    if t != s {
      forall x, y
        ensures ListingOf(t.listings, y, x) == Opposite(ListingOf(t.listings, x, y))
        ensures ListingOf(t.listings, x, y) == Listed(Sent) ==> FriendKey(x, y) in t.pending
      {
        ListingAfterApply(users, s, a, b, x, y);
        ListingAfterApply(users, s, a, b, y, x);
      }
    }
  }

  lemma ListingAfterRemove(users: set<UserID>, s: Graph, a: UserID, b: UserID, x: UserID, y: UserID)
    requires a != b && FriendKey(a, b) in s.pending && a in users && b in users
    ensures ListingOf(RemoveApplication(users, s, a, b).graph.listings, x, y) ==
            if (x == a && y == b) || (x == b && y == a) then Nothing else ListingOf(s.listings, x, y)
  {
  }

  /** The removed application itself may have its flag set, as it has in the middle of an acceptance. */
  lemma RemoveApplicationInv(users: set<UserID>, s: Graph, a: UserID, b: UserID)
    requires a != b && FriendKey(a, b) in s.pending && a in users && b in users
    requires Inv(users, s.(pending := s.pending[FriendKey(a, b) := false]))
    ensures Inv(users, RemoveApplication(users, s, a, b).graph)
    ensures RemoveApplication(users, s, a, b).outcome == Returned(true)
  {
    var t := RemoveApplication(users, s, a, b).graph;
    forall x, y
      ensures ListingOf(t.listings, y, x) == Opposite(ListingOf(t.listings, x, y))
      ensures ListingOf(t.listings, x, y) == Listed(Sent) ==> FriendKey(x, y) in t.pending
    {
      ListingAfterRemove(users, s, a, b, x, y);
      ListingAfterRemove(users, s, a, b, y, x);
    }
  }

  /** The state of an acceptance just before the application is removed. */
  function Befriended(users: set<UserID>, s: Graph, a: UserID, b: UserID): Graph {
    var flagged := s.(pending := s.pending[FriendKey(a, b) := true]);
    AddPrivateRoom(users, flagged, a, b).graph.(friends := InsertFriend(InsertFriend(s.friends, a, b), b, a))
  }

  lemma BefriendedFriends(friends: Friends, a: UserID, b: UserID, u: UserID, f: UserID)
    ensures IsFriend(InsertFriend(InsertFriend(friends, a, b), b, a), u, f) ==
            (IsFriend(friends, u, f) || (u == a && f == b) || (u == b && f == a))
  {
  }

  lemma BefriendedInv(users: set<UserID>, s: Graph, a: UserID, b: UserID)
    requires Inv(users, s) && FriendKey(a, b) in s.pending
    ensures Inv(users, Befriended(users, s, a, b).(pending := s.pending))
  {
    var t := Befriended(users, s, a, b);
    forall k | k in t.index ensures HasItsRoom(users, t.rooms, k, t.index[k]) {
      if k != PairOf(a, b) { assert HasItsRoom(users, s.rooms, k, s.index[k]); }
    }
    forall u, f | IsFriend(t.friends, u, f)
      ensures u in users && f in users && f != u && PairOf(u, f) in t.index
    {
      BefriendedFriends(s.friends, a, b, u, f);
    }
  }

  lemma AcceptApplicationInv(users: set<UserID>, s: Graph, a: UserID, b: UserID)
    requires Inv(users, s) && FriendKey(a, b) in s.pending
    ensures Inv(users, AcceptApplication(users, s, a, b).graph)
    ensures AcceptApplication(users, s, a, b).outcome == Returned(true)
  {
    var m := Befriended(users, s, a, b);
    BefriendedInv(users, s, a, b);
    assert m.pending[FriendKey(a, b) := false] == s.pending;
    RemoveApplicationInv(users, m, a, b);
    assert AcceptApplication(users, s, a, b) == RemoveApplication(users, m, a, b);
  }

  /** What an acceptance leaves behind, apart from the listings. */
  lemma AcceptApplicationFields(users: set<UserID>, s: Graph, a: UserID, b: UserID)
    requires Inv(users, s) && FriendKey(a, b) in s.pending
    ensures var t := AcceptApplication(users, s, a, b).graph;
      && t.friends == InsertFriend(InsertFriend(s.friends, a, b), b, a)
      && t.pending == s.pending - {FriendKey(a, b)}
      && t.rooms == s.rooms[s.nextRoom := PrivateRoom(a, b, {a, b})]
      && t.index == s.index[PairOf(a, b) := s.nextRoom]
  {
    assert s.pending[FriendKey(a, b) := true] - {FriendKey(a, b)} == s.pending - {FriendKey(a, b)};
  }

  lemma RemoveFriendInv(users: set<UserID>, s: Graph, a: UserID, b: UserID)
    requires Inv(users, s) && a in users
    ensures Inv(users, RemoveFriend(users, s, a, b).graph)
  {
    var t := RemoveFriend(users, s, a, b).graph;
    forall u, f | IsFriend(t.friends, u, f) ensures IsFriend(s.friends, u, f) {}
  }

  // ---------------------------------------------------------------- how the operations fail, in any state

  /** A room for somebody who does not exist is refused, but its id is used up. */
  lemma AddPrivateRoomFails(users: set<UserID>, s: Graph, a: UserID, b: UserID)
    ensures var r := AddPrivateRoom(users, s, a, b);
      && (r.outcome == Threw(UserNotExisted) <==> !({a, b} <= users))
      && (r.outcome == Created(s.nextRoom) <==> {a, b} <= users)
      && (r.outcome.Threw? ==> r.graph.rooms == s.rooms && r.graph.index == s.index)
      && r.graph.nextRoom == s.nextRoom + 1
      && r.graph.friends == s.friends && r.graph.listings == s.listings && r.graph.pending == s.pending
  {
  }

  lemma ApplyFails(users: set<UserID>, s: Graph, a: UserID, b: UserID)
    ensures var r, exist := Apply(users, s, a, b), {a, b} <= users;
      && (r.outcome == Threw(InvalidVerification) <==> a == b)
      && (r.outcome == Threw(UserNotExisted) <==> a != b && !exist)
      && (r.outcome == Threw(PrivateRoomExisted) <==> a != b && exist && PairOf(a, b) in s.index)
      && (r.outcome == Threw(VerificationExisted) <==>
            a != b && exist && PairOf(a, b) !in s.index && FriendKey(a, b) in s.pending)
      && (r.outcome == Returned(true) || (r.outcome.Threw? && r.graph == s))
  {
  }

  /** A user who does not exist is noticed only when his list is to be changed. */
  lemma RemoveApplicationFails(users: set<UserID>, s: Graph, a: UserID, b: UserID)
    ensures var r, pending := RemoveApplication(users, s, a, b), FriendKey(a, b) in s.pending;
      && (r.outcome == Threw(InvalidVerification) <==> a == b)
      && (r.outcome == Threw(UserNotExisted) <==> a != b && pending && !({a, b} <= users))
      && (r.outcome == Returned(true) <==> a != b && (pending ==> {a, b} <= users))
      && (a == b || !pending ==> r.graph == s)
      && (a != b && pending ==>
            && FriendKey(a, b) !in r.graph.pending
            && (forall k :: k != FriendKey(a, b) ==> (k in r.graph.pending <==> k in s.pending))
            && (ListingOf(r.graph.listings, a, b) == if a in users then Nothing else ListingOf(s.listings, a, b)))
      && (r.outcome.Threw? ==> ListingOf(r.graph.listings, b, a) == ListingOf(s.listings, b, a))
  {
  }

  /** The flag is set before the room is made, and the room takes an id before the users are looked up. */
  lemma AcceptApplicationFails(users: set<UserID>, s: Graph, a: UserID, b: UserID)
    ensures var r, pending := AcceptApplication(users, s, a, b), FriendKey(a, b) in s.pending;
      && (r.outcome == Threw(InvalidVerification) <==> a == b)
      && (r.outcome == Threw(VerificationNotExisted) <==> a != b && !pending)
      && (r.outcome == Threw(UserNotExisted) <==> a != b && pending && !({a, b} <= users))
      && (a == b || !pending ==> r.graph == s)
      && (r.outcome == Threw(UserNotExisted) ==>
            && r.graph.nextRoom == s.nextRoom + 1 && r.graph.pending == s.pending[FriendKey(a, b) := true]
            && r.graph.friends == s.friends && r.graph.listings == s.listings
            && r.graph.rooms == s.rooms && r.graph.index == s.index)
  {
  }

  /** Acceptances and rejections of what is not there are refused beforehand. */
  lemma AnswerFails(users: set<UserID>, s: Graph, self: UserID, other: UserID)
    requires Inv(users, s) && self in users
    ensures AcceptFriend(users, s, self, other).outcome == Returned(FriendKey(other, self) in s.pending)
    ensures RejectFriend(users, s, self, other).outcome == Returned(FriendKey(other, self) in s.pending)
    ensures FriendKey(other, self) !in s.pending ==>
              AcceptFriend(users, s, self, other).graph == s && RejectFriend(users, s, self, other).graph == s
  {
  }

  /** A message needs a listed friend, a room of the pair, and the room's consent. */
  lemma SendFails(users: set<UserID>, s: Graph, self: UserID, other: UserID)
    ensures var r, listed := SendMessage(users, s, self, other), other in users && IsFriend(s.friends, self, other);
            var hasRoom := PairOf(self, other) in s.index && s.index[PairOf(self, other)] in s.rooms;
      && r.graph == s
      && (r.outcome == Returned(false) <==> !listed)
      && (r.outcome == Threw(PrivateRoomNotExisted) <==> listed && !hasRoom)
      && (r.outcome == Dropped <==>
            listed && hasRoom && self !in s.rooms[s.index[PairOf(self, other)]].delivery)
  {
  }
}
