/**
  Groups, group applications and group rooms: one function per server operation on the group half of the
  server's state, and the invariant that ties the redundant maps together.
*/
module GroupGraph {
  import opened Identifiers
  import opened GroupVerifications

  /** Key of a group application. */
  datatype GroupKey = GroupKey(applicator: UserID, controller: GroupID)

  /** A group room: the member map and the delivery set of the underlying room are kept apart. */
  datatype GroupRoom = GroupRoom(administrator: UserID, members: set<UserID>, delivery: set<UserID>)

  type Groups = map<UserID, set<GroupID>>
  type Mirrors = map<UserID, seq<Entry>>
  type Pending = map<GroupKey, bool>
  type Rooms = map<GroupID, GroupRoom>
  type Founders = map<GroupID, UserID>

  /**
    `groups` and `mirrors` are the records the users keep; the other fields belong to the managers.
    `founder` is a history of who created which group; no operation reads it.
  */
  datatype Graph = Graph(
    groups: Groups,
    mirrors: Mirrors,
    pending: Pending,
    rooms: Rooms,
    nextRoom: GroupID,
    founder: Founders)

  const EMPTY := Graph(map[], map[], map[], map[], FIRST_ID, map[])

  datatype Step = Step(graph: Graph, outcome: Outcome)

  // ---------------------------------------------------------------- the records of one user

  function GroupsOf(groups: Groups, u: UserID): set<GroupID> {
    if u in groups then groups[u] else {}
  }

  function MirrorOf(mirrors: Mirrors, u: UserID): seq<Entry> {
    if u in mirrors then mirrors[u] else []
  }

  function InsertGroup(groups: Groups, u: UserID, g: GroupID): Groups {
    groups[u := GroupsOf(groups, u) + {g}]
  }

  function InsertEntry(mirrors: Mirrors, u: UserID, e: Entry): Mirrors {
    mirrors[u := Insert(MirrorOf(mirrors, u), e)]
  }

  /** `Returned(true)` means that the removal came to a regular end. The lookup lands on the group's first entry. */
  ghost function RemoveVerification(s: Graph, u: UserID, g: GroupID, applicator: UserID): Step {
    match Erase(MirrorOf(s.mirrors, u), g, applicator)
    case Erased(rest) => Step(s.(mirrors := s.mirrors[u := rest]), Returned(true))
    case NotExisted => Step(s, Threw(VerificationNotExisted))
    case Untouched => Step(s, Returned(true))
    case PastEnd => Step(s, Undefined)
  }

  /** The same when the lookup lands at `start`. */
  ghost function RemoveVerificationFrom(s: Graph, u: UserID, g: GroupID, applicator: UserID, start: nat): Step {
    match EraseFrom(MirrorOf(s.mirrors, u), g, applicator, start)
    case Erased(rest) => Step(s.(mirrors := s.mirrors[u := rest]), Returned(true))
    case NotExisted => Step(s, Threw(VerificationNotExisted))
    case Untouched => Step(s, Returned(true))
    case PastEnd => Step(s, Undefined)
  }

  // ---------------------------------------------------------------- operations

  function AddGroupRoom(users: set<UserID>, s: Graph, self: UserID): Step {
    var id := s.nextRoom;
    if self !in users then Step(s.(nextRoom := id + 1), Threw(UserNotExisted))
    else Step(s.(nextRoom := id + 1,
                 rooms := s.rooms[id := GroupRoom(self, {self}, {self})],
                 founder := s.founder[id := self]),
              Created(id))
  }

  function CreateGroup(users: set<UserID>, s: Graph, self: UserID): Step {
    var added := AddGroupRoom(users, s, self);
    if added.outcome.Threw? then added
    else Step(added.graph.(groups := InsertGroup(s.groups, self, s.nextRoom)), added.outcome)
  }

  function Apply(users: set<UserID>, s: Graph, sender: UserID, g: GroupID): Step {
    if g !in s.rooms then Step(s, Threw(GroupRoomNotExisted))
    else if sender !in users then Step(s, Threw(UserNotExisted))
    else if GroupKey(sender, g) in s.pending then Step(s, Threw(VerificationNotExisted))
    else
      var pending := s.pending[GroupKey(sender, g) := false];
      var one := InsertEntry(s.mirrors, sender, Entry(g, sender, Sent));
      var admin := s.rooms[g].administrator;
      if admin !in users then Step(s.(pending := pending, mirrors := one), Threw(UserNotExisted))
      else Step(s.(pending := pending, mirrors := InsertEntry(one, admin, Entry(g, sender, Received))), Returned(true))
  }

  ghost function RemoveApplication(users: set<UserID>, s: Graph, sender: UserID, g: GroupID): Step {
    if GroupKey(sender, g) !in s.pending then Step(s, Threw(VerificationNotExisted))
    else
      var s := s.(pending := s.pending - {GroupKey(sender, g)});
      if g !in s.rooms then Step(s, Threw(GroupRoomNotExisted))
      else if s.rooms[g].administrator !in users then Step(s, Threw(UserNotExisted))
      else
        var first := RemoveVerification(s, s.rooms[g].administrator, g, sender);
        if first.outcome != Returned(true) then first
        else if sender !in users then Step(first.graph, Threw(UserNotExisted))
        else RemoveVerification(first.graph, sender, g, sender)
  }

  /** The same when the two lookups land at `i` and `j`. */
  ghost function RemoveApplicationFrom(users: set<UserID>, s: Graph, sender: UserID, g: GroupID, i: nat, j: nat): Step {
    if GroupKey(sender, g) !in s.pending then Step(s, Threw(VerificationNotExisted))
    else
      var s := s.(pending := s.pending - {GroupKey(sender, g)});
      if g !in s.rooms then Step(s, Threw(GroupRoomNotExisted))
      else if s.rooms[g].administrator !in users then Step(s, Threw(UserNotExisted))
      else
        var first := RemoveVerificationFrom(s, s.rooms[g].administrator, g, sender, i);
        if first.outcome != Returned(true) then first
        else if sender !in users then Step(first.graph, Threw(UserNotExisted))
        else RemoveVerificationFrom(first.graph, sender, g, sender, j)
  }

  function AddMember(rooms: Rooms, g: GroupID, u: UserID): Rooms
    requires g in rooms
  {
    rooms[g := rooms[g].(members := rooms[g].members + {u}, delivery := rooms[g].delivery + {u})]
  }

  function RemoveMember(rooms: Rooms, g: GroupID, u: UserID): Rooms
    requires g in rooms
  {
    rooms[g := rooms[g].(members := rooms[g].members - {u}, delivery := rooms[g].delivery - {u})]
  }

  ghost function AcceptApplication(users: set<UserID>, s: Graph, sender: UserID, g: GroupID): Step {
    if GroupKey(sender, g) !in s.pending then Step(s, Threw(VerificationNotExisted))
    else
      var flagged := s.(pending := s.pending[GroupKey(sender, g) := true]);
      if g !in s.rooms then Step(flagged, Threw(GroupRoomNotExisted))
      else if sender !in users then Step(flagged, Threw(UserNotExisted))
      else
        RemoveApplication(users,
          flagged.(rooms := AddMember(s.rooms, g, sender), groups := InsertGroup(s.groups, sender, g)), sender, g)
  }

  function AddGroup(users: set<UserID>, s: Graph, self: UserID, g: GroupID): Step {
    if g !in s.rooms || self in s.rooms[g].members then Step(s, Returned(false))
    else if GroupKey(self, g) in s.pending then Step(s, Returned(false))
    else Apply(users, s, self, g)
  }

  /** Only the administrator of a live group decides, and only on somebody who is not a member. */
  predicate MayDecide(s: Graph, self: UserID, g: GroupID, u: UserID) {
    g in s.rooms && u !in s.rooms[g].members && self == s.rooms[g].administrator
  }

  ghost function AcceptGroup(users: set<UserID>, s: Graph, self: UserID, g: GroupID, u: UserID): Step {
    if !MayDecide(s, self, g, u) then Step(s, Returned(false)) else AcceptApplication(users, s, u, g)
  }

  ghost function RejectGroup(users: set<UserID>, s: Graph, self: UserID, g: GroupID, u: UserID): Step {
    if !MayDecide(s, self, g, u) || GroupKey(u, g) !in s.pending then Step(s, Returned(false))
    else RemoveApplication(users, s, u, g)
  }

  /** Applications for the group and the group sets of its members stay behind. */
  function RemoveGroup(s: Graph, self: UserID, g: GroupID): Step {
    if g !in s.rooms || self != s.rooms[g].administrator then Step(s, Returned(false))
    else Step(s.(rooms := s.rooms - {g}), Returned(true))
  }

  /** The member is removed before the administrator is refused, and the user's group set is not touched. */
  function LeaveGroup(s: Graph, self: UserID, g: GroupID): Step {
    if g !in s.rooms then Step(s, Returned(false))
    else Step(s.(rooms := RemoveMember(s.rooms, g, self)), Returned(s.rooms[g].administrator != self))
  }

  /** The command looks at the user's group set, the room at its member map. */
  function SendMessage(s: Graph, self: UserID, g: GroupID): Step {
    if g !in s.rooms || g !in GroupsOf(s.groups, self) then Step(s, Returned(false))
    else if self !in s.rooms[g].members then Step(s, Dropped)
    else Step(s, Delivered(g, s.rooms[g].delivery))
  }

  function AddUser(s: Graph, u: UserID): Graph {
    s.(groups := s.groups[u := {}], mirrors := s.mirrors[u := []])
  }

  // ---------------------------------------------------------------- the invariant

  predicate IsMember(rooms: Rooms, g: GroupID, u: UserID) {
    g in rooms && u in rooms[g].members
  }

  predicate ListsGroup(groups: Groups, u: UserID, g: GroupID) {
    g in GroupsOf(groups, u)
  }

  function Copies(mirrors: Mirrors, u: UserID, e: Entry): nat {
    multiset(MirrorOf(mirrors, u))[e]
  }

  /** A live group's member map equals its delivery set, and all members list the group. */
  ghost predicate MembersAgree(users: set<UserID>, groups: Groups, rooms: Rooms, founder: Founders) {
    && (forall g :: g in founder ==> founder[g] in users)
    && (forall g :: g in rooms ==>
          g in founder && rooms[g].administrator == founder[g] && rooms[g].members == rooms[g].delivery)
    && (forall g, m :: IsMember(rooms, g, m) ==> m in users && ListsGroup(groups, m, g))
    && (forall u, g :: ListsGroup(groups, u, g) ==> g in founder)
  }

  /** Applications name users and groups that were created, never a member, and none is flagged as accepted. */
  ghost predicate ApplicantsOutside(users: set<UserID>, pending: Pending, rooms: Rooms, founder: Founders) {
    forall k :: k in pending ==>
      && k.applicator in users && k.controller in founder && !pending[k]
      && !IsMember(rooms, k.controller, k.applicator)
  }

  /** How often `u` holds `e` when exactly the pending applications are mirrored. */
  function Mirrored(pending: Pending, founder: Founders, u: UserID, e: Entry): nat {
    if GroupKey(e.user, e.group) in pending && e.group in founder &&
       u == (if e.kind == Sent then e.user else founder[e.group])
    then 1 else 0
  }

  /** Every user's multimap is ordered and holds one entry for each application he sent or administers. */
  ghost predicate MirrorsExact(mirrors: Mirrors, pending: Pending, founder: Founders) {
    && (forall u :: Sorted(MirrorOf(mirrors, u)))
    && (forall u, e :: Copies(mirrors, u, e) == Mirrored(pending, founder, u, e))
  }

  ghost predicate Inv(users: set<UserID>, s: Graph) {
    && s.groups.Keys == s.mirrors.Keys == users
    && (forall g :: g in s.founder ==> g < s.nextRoom)
    && MembersAgree(users, s.groups, s.rooms, s.founder)
    && ApplicantsOutside(users, s.pending, s.rooms, s.founder)
    && MirrorsExact(s.mirrors, s.pending, s.founder)
  }

  // ---------------------------------------------------------------- every operation keeps it

  lemma AddUserInv(users: set<UserID>, s: Graph, u: UserID)
    requires Inv(users, s) && u !in users
    ensures Inv(users + {u}, AddUser(s, u))
  {
    var t := AddUser(s, u);
    forall v, g ensures ListsGroup(t.groups, v, g) == ListsGroup(s.groups, v, g) {}
    forall v ensures MirrorOf(t.mirrors, v) == MirrorOf(s.mirrors, v) {}
    forall v, e ensures Copies(t.mirrors, v, e) == Mirrored(t.pending, t.founder, v, e) {
      assert Copies(s.mirrors, v, e) == Mirrored(s.pending, s.founder, v, e);
    }
  }

  lemma CreateGroupInv(users: set<UserID>, s: Graph, u: UserID)
    requires Inv(users, s) && u in users
    ensures Inv(users, CreateGroup(users, s, u).graph)
  {
    var t, g := CreateGroup(users, s, u).graph, s.nextRoom;
    forall w, h ensures ListsGroup(t.groups, w, h) == (ListsGroup(s.groups, w, h) || (w == u && h == g)) {}
    forall h, m ensures IsMember(t.rooms, h, m) == if h == g then m == u else IsMember(s.rooms, h, m) {}
    forall w, e ensures Copies(t.mirrors, w, e) == Mirrored(t.pending, t.founder, w, e) {
      assert Copies(s.mirrors, w, e) == Mirrored(s.pending, s.founder, w, e);
    }
  }

  lemma AfterInsert(mirrors: Mirrors, u: UserID, e: Entry, w: UserID, x: Entry)
    ensures Copies(InsertEntry(mirrors, u, e), w, x) == Copies(mirrors, w, x) + if w == u && x == e then 1 else 0
    ensures Sorted(MirrorOf(mirrors, w)) ==> Sorted(MirrorOf(InsertEntry(mirrors, u, e), w))
  {
    InsertedOne(MirrorOf(mirrors, u), e);
  }

  /** An application adds one copy at the applicant and one at the administrator, even if they are the same. */
  lemma AfterBothInserts(mirrors: Mirrors, u: UserID, admin: UserID, g: GroupID, w: UserID, x: Entry)
    ensures var after := InsertEntry(InsertEntry(mirrors, u, Entry(g, u, Sent)), admin, Entry(g, u, Received));
      && Copies(after, w, x) == Copies(mirrors, w, x)
         + (if w == u && x == Entry(g, u, Sent) then 1 else 0)
         + (if w == admin && x == Entry(g, u, Received) then 1 else 0)
      && (Sorted(MirrorOf(mirrors, w)) ==> Sorted(MirrorOf(after, w)))
  {
    AfterInsert(mirrors, u, Entry(g, u, Sent), w, x);
    AfterInsert(InsertEntry(mirrors, u, Entry(g, u, Sent)), admin, Entry(g, u, Received), w, x);
  }

  lemma ApplyMirrors(s: Graph, u: UserID, g: GroupID, pending: Pending, mirrors: Mirrors)
    requires MirrorsExact(s.mirrors, s.pending, s.founder)
    requires g in s.founder && GroupKey(u, g) !in s.pending
    requires pending == s.pending[GroupKey(u, g) := false]
    requires mirrors ==
      InsertEntry(InsertEntry(s.mirrors, u, Entry(g, u, Sent)), s.founder[g], Entry(g, u, Received))
    ensures MirrorsExact(mirrors, pending, s.founder)
  {
    hide Copies, MirrorOf, InsertEntry, Sorted;
    forall w ensures Sorted(MirrorOf(mirrors, w)) {
      AfterBothInserts(s.mirrors, u, s.founder[g], g, w, Entry(g, u, Sent));
    }
    forall w, e ensures Copies(mirrors, w, e) == Mirrored(pending, s.founder, w, e) {
      assert Copies(s.mirrors, w, e) == Mirrored(s.pending, s.founder, w, e);
      AfterBothInserts(s.mirrors, u, s.founder[g], g, w, e);
    }
  }

  lemma ApplyInv(users: set<UserID>, s: Graph, u: UserID, g: GroupID)
    requires Inv(users, s) && u in users
    requires g in s.rooms && u !in s.rooms[g].members && GroupKey(u, g) !in s.pending
    ensures Inv(users, Apply(users, s, u, g).graph)
    ensures Apply(users, s, u, g).outcome == Returned(true)
  {
    var t := Apply(users, s, u, g).graph;
    ApplyMirrors(s, u, g, t.pending, t.mirrors);
  }

  /** A removal that does not pass over all entries of the pair (g, applicator) takes one of the copies `u` holds. */
  lemma AfterRemoveFrom(s: Graph, u: UserID, g: GroupID, applicator: UserID, start: nat)
    returns (kind: VerificationType)
    requires u in s.mirrors && Ahead(s.mirrors[u], g, applicator, start)
    ensures var r := RemoveVerificationFrom(s, u, g, applicator, start);
      && r.outcome == Returned(true)
      && r.graph == s.(mirrors := r.graph.mirrors) && r.graph.mirrors.Keys == s.mirrors.Keys
      && (forall w :: Sorted(MirrorOf(s.mirrors, w)) ==> Sorted(MirrorOf(r.graph.mirrors, w)))
      && (forall w, e :: Copies(s.mirrors, w, e) ==
            Copies(r.graph.mirrors, w, e) + if w == u && e == Entry(g, applicator, kind) then 1 else 0)
  {
    kind := ErasedOneFrom(s.mirrors[u], g, applicator, start);
    hide EraseFrom, Sorted, Position;
    var rest := EraseFrom(s.mirrors[u], g, applicator, start).rest;
    var after := s.mirrors[u := rest];
    assert RemoveVerificationFrom(s, u, g, applicator, start).graph.mirrors == after;
    assert after.Keys == s.mirrors.Keys;
    forall w ensures Sorted(MirrorOf(s.mirrors, w)) ==> Sorted(MirrorOf(after, w)) {
      assert MirrorOf(after, w) == if w == u then rest else MirrorOf(s.mirrors, w);
    }
    forall w, e
      ensures Copies(s.mirrors, w, e) ==
              Copies(after, w, e) + if w == u && e == Entry(g, applicator, kind) then 1 else 0
    {
      assert MirrorOf(after, w) == if w == u then rest else MirrorOf(s.mirrors, w);
    }
  }

  lemma LooksUpFirst(s: Graph, u: UserID, g: GroupID, applicator: UserID)
    ensures RemoveVerification(s, u, g, applicator) ==
            RemoveVerificationFrom(s, u, g, applicator, First(MirrorOf(s.mirrors, u), g))
  {
    FromFirst(MirrorOf(s.mirrors, u), g, applicator);
    hide Erase, EraseFrom, First;
  }

  /** With a lookup that lands on the first entry of the group, a copy is enough. */
  lemma AfterRemove(s: Graph, u: UserID, g: GroupID, applicator: UserID, has: VerificationType)
    returns (kind: VerificationType)
    requires u in s.mirrors && Copies(s.mirrors, u, Entry(g, applicator, has)) > 0
    ensures var r := RemoveVerification(s, u, g, applicator);
      && r.outcome == Returned(true)
      && r.graph == s.(mirrors := r.graph.mirrors) && r.graph.mirrors.Keys == s.mirrors.Keys
      && (forall w :: Sorted(MirrorOf(s.mirrors, w)) ==> Sorted(MirrorOf(r.graph.mirrors, w)))
      && (forall w, e :: Copies(s.mirrors, w, e) ==
            Copies(r.graph.mirrors, w, e) + if w == u && e == Entry(g, applicator, kind) then 1 else 0)
  {
    assert Entry(g, applicator, has) in s.mirrors[u];
    FromFirst(s.mirrors[u], g, applicator);
    LooksUpFirst(s, u, g, applicator);
    hide RemoveVerification, RemoveVerificationFrom, Sorted, First;
    kind := AfterRemoveFrom(s, u, g, applicator, First(s.mirrors[u], g));
  }

  /** Both copies of one application, wherever they were, are gone, and no other copy is. */
  lemma BothCopiesGone(before: Mirrors, between: Mirrors, after: Mirrors, pending: Pending, founder: Founders,
                       u: UserID, g: GroupID, kind1: VerificationType, kind2: VerificationType, w: UserID, e: Entry)
    requires forall x :: Copies(before, w, x) == Mirrored(pending, founder, w, x)
    requires GroupKey(u, g) in pending && g in founder
    requires forall x ::
      Copies(before, w, x) == Copies(between, w, x) + if w == founder[g] && x == Entry(g, u, kind1) then 1 else 0
    requires forall x ::
      Copies(between, w, x) == Copies(after, w, x) + if w == u && x == Entry(g, u, kind2) then 1 else 0
    ensures Copies(after, w, e) == Mirrored(pending - {GroupKey(u, g)}, founder, w, e)
  {
    assert Copies(before, w, Entry(g, u, Sent)) == Mirrored(pending, founder, w, Entry(g, u, Sent));
    assert Copies(before, w, Entry(g, u, Received)) == Mirrored(pending, founder, w, Entry(g, u, Received));
    assert Copies(before, w, e) == Mirrored(pending, founder, w, e);
  }

  /** When the multimaps mirror exactly, both removals find their entry, also when they search the same user. */
  lemma RemoveApplicationMirrors(users: set<UserID>, s: Graph, u: UserID, g: GroupID)
    requires MirrorsExact(s.mirrors, s.pending, s.founder) && s.mirrors.Keys == users
    requires GroupKey(u, g) in s.pending && g in s.rooms && g in s.founder && u in users
    requires s.rooms[g].administrator == s.founder[g] && s.founder[g] in users
    ensures var r := RemoveApplication(users, s, u, g);
      && r.outcome == Returned(true)
      && r.graph == s.(mirrors := r.graph.mirrors, pending := s.pending - {GroupKey(u, g)})
      && r.graph.mirrors.Keys == s.mirrors.Keys
      && MirrorsExact(r.graph.mirrors, r.graph.pending, s.founder)
  {
    var admin := s.founder[g];
    var s0 := s.(pending := s.pending - {GroupKey(u, g)});
    assert Copies(s0.mirrors, admin, Entry(g, u, Received)) == 1;
    assert Copies(s0.mirrors, u, Entry(g, u, Sent)) == 1;
    assert u == admin ==> Copies(s0.mirrors, u, Entry(g, u, Received)) == 1;
    var kind1 := AfterRemove(s0, admin, g, u, Received);
    var s1 := RemoveVerification(s0, admin, g, u).graph;
    var left := if u == admin && kind1 == Sent then Received else Sent;
    assert Copies(s1.mirrors, u, Entry(g, u, left)) == 1;
    var kind2 := AfterRemove(s1, u, g, u, left);
    var t := RemoveVerification(s1, u, g, u).graph;
    forall w, e ensures Copies(t.mirrors, w, e) == Mirrored(t.pending, t.founder, w, e) {
      BothCopiesGone(s.mirrors, s1.mirrors, t.mirrors, s.pending, s.founder, u, g, kind1, kind2, w, e);
    }
  }

  /** A removal that passes over all entries of the pair leaves the multimap as it is. */
  lemma PassedOver(s: Graph, u: UserID, g: GroupID, applicator: UserID, start: nat)
    requires !Ahead(MirrorOf(s.mirrors, u), g, applicator, start)
    ensures RemoveVerificationFrom(s, u, g, applicator, start).graph == s
  {
    hide Position;
  }

  /**
    Wherever the two lookups land among the entries of the group, an answered application is removed from both
    multimaps exactly if neither lookup has passed over the entry.
  */
  lemma RemoveApplicationFromIff(users: set<UserID>, s: Graph, u: UserID, g: GroupID, i: nat, j: nat)
    requires MirrorsExact(s.mirrors, s.pending, s.founder) && s.mirrors.Keys == users
    requires GroupKey(u, g) in s.pending && g in s.rooms && g in s.founder && u in users
    requires s.rooms[g].administrator == s.founder[g] && s.founder[g] in users
    ensures var r := RemoveApplicationFrom(users, s, u, g, i, j);
            var first := RemoveVerificationFrom(s, s.founder[g], g, u, i).graph;
      (r.outcome == Returned(true) && MirrorsExact(r.graph.mirrors, r.graph.pending, s.founder)) <==>
        Ahead(s.mirrors[s.founder[g]], g, u, i) && Ahead(MirrorOf(first.mirrors, u), g, u, j)
  {
    hide RemoveVerificationFrom, MirrorsExact, Ahead, Mirrored;
    var admin := s.founder[g];
    var s0 := s.(pending := s.pending - {GroupKey(u, g)});
    OnlyMirrors(s, s0, admin, g, u, i);
    var r1 := RemoveVerificationFrom(s0, admin, g, u, i);
    if r1.outcome == Returned(true) {
      OnlyMirrors(r1.graph, r1.graph, u, g, u, j);
      if Ahead(s.mirrors[admin], g, u, i) {
        FirstFound(s, u, g, i, j);
      } else {
        PassedOver(s0, admin, g, u, i);
        FirstPassedOver(s, u, g, j);
      }
    } else if Ahead(s.mirrors[admin], g, u, i) {
      var _ := AfterRemoveFrom(s0, admin, g, u, i);
    }
  }

  lemma OnlyMirrors(s: Graph, t: Graph, u: UserID, g: GroupID, applicator: UserID, start: nat)
    requires s.mirrors == t.mirrors
    ensures RemoveVerificationFrom(s, u, g, applicator, start).graph.mirrors ==
            RemoveVerificationFrom(t, u, g, applicator, start).graph.mirrors
    ensures RemoveVerificationFrom(t, u, g, applicator, start).graph.pending == t.pending
  {
    hide EraseFrom;
  }

  /** A pending application is mirrored by one copy at either end, and none is left in exact mirrors afterwards. */
  lemma CopiesOfPending(s: Graph, u: UserID, g: GroupID, after: Mirrors)
    requires MirrorsExact(s.mirrors, s.pending, s.founder) && GroupKey(u, g) in s.pending && g in s.founder
    ensures Copies(s.mirrors, s.founder[g], Entry(g, u, Received)) == 1
    ensures Copies(s.mirrors, u, Entry(g, u, Sent)) == 1
    ensures MirrorsExact(after, s.pending - {GroupKey(u, g)}, s.founder) ==>
              forall w, kind :: Copies(after, w, Entry(g, u, kind)) == 0
  {
    assert Copies(s.mirrors, s.founder[g], Entry(g, u, Received)) ==
           Mirrored(s.pending, s.founder, s.founder[g], Entry(g, u, Received));
    assert Copies(s.mirrors, u, Entry(g, u, Sent)) == Mirrored(s.pending, s.founder, u, Entry(g, u, Sent));
    if MirrorsExact(after, s.pending - {GroupKey(u, g)}, s.founder) {
      forall w, kind ensures Copies(after, w, Entry(g, u, kind)) == 0 {
        assert Copies(after, w, Entry(g, u, kind)) ==
               Mirrored(s.pending - {GroupKey(u, g)}, s.founder, w, Entry(g, u, kind));
      }
    }
  }

  lemma FirstFound(s: Graph, u: UserID, g: GroupID, i: nat, j: nat)
    requires MirrorsExact(s.mirrors, s.pending, s.founder) && GroupKey(u, g) in s.pending && g in s.founder
    requires u in s.mirrors && s.founder[g] in s.mirrors && Ahead(s.mirrors[s.founder[g]], g, u, i)
    ensures var pending := s.pending - {GroupKey(u, g)};
            var s1 := RemoveVerificationFrom(s.(pending := pending), s.founder[g], g, u, i).graph;
            var r := RemoveVerificationFrom(s1, u, g, u, j);
      (r.outcome == Returned(true) && MirrorsExact(r.graph.mirrors, pending, s.founder)) <==>
        Ahead(MirrorOf(s1.mirrors, u), g, u, j)
  {
    var admin, s0 := s.founder[g], s.(pending := s.pending - {GroupKey(u, g)});
    var kind1 := AfterRemoveFrom(s0, admin, g, u, i);
    var s1 := RemoveVerificationFrom(s0, admin, g, u, i).graph;
    var r := RemoveVerificationFrom(s1, u, g, u, j);
    CopiesOfPending(s, u, g, r.graph.mirrors);
    hide RemoveVerificationFrom, Ahead, Mirrored, Sorted, Copies;
    var left := if u == admin && kind1 == Sent then Received else Sent;
    assert Copies(s1.mirrors, u, Entry(g, u, left)) == 1;
    if Ahead(MirrorOf(s1.mirrors, u), g, u, j) {
      var kind2 := AfterRemoveFrom(s1, u, g, u, j);
      forall w, e ensures Copies(r.graph.mirrors, w, e) == Mirrored(s0.pending, s.founder, w, e) {
        BothCopiesGone(s.mirrors, s1.mirrors, r.graph.mirrors, s.pending, s.founder, u, g, kind1, kind2, w, e);
      }
    } else {
      PassedOver(s1, u, g, u, j);
    }
  }

  /** When the administrator's entry has stayed, nothing that follows makes up for it. */
  lemma FirstPassedOver(s: Graph, u: UserID, g: GroupID, j: nat)
    requires MirrorsExact(s.mirrors, s.pending, s.founder) && GroupKey(u, g) in s.pending && g in s.founder
    requires u in s.mirrors
    ensures var pending := s.pending - {GroupKey(u, g)};
      !MirrorsExact(RemoveVerificationFrom(s.(pending := pending), u, g, u, j).graph.mirrors, pending, s.founder)
  {
    var s0 := s.(pending := s.pending - {GroupKey(u, g)});
    var after := RemoveVerificationFrom(s0, u, g, u, j).graph.mirrors;
    CopiesOfPending(s, u, g, after);
    hide RemoveVerificationFrom, MirrorsExact, Ahead, Sorted, Copies;
    if Ahead(s.mirrors[u], g, u, j) {
      var kind := AfterRemoveFrom(s0, u, g, u, j);
      var admin, e := s.founder[g], Entry(g, u, if kind == Received then Sent else Received);
      assert Copies(after, if kind == Received then u else admin, e) == 1;
    } else {
      PassedOver(s0, u, g, u, j);
      assert Copies(after, u, Entry(g, u, Sent)) == 1;
    }
  }

  lemma RejectInv(users: set<UserID>, s: Graph, u: UserID, g: GroupID)
    requires Inv(users, s) && GroupKey(u, g) in s.pending && g in s.rooms
    ensures Inv(users, RemoveApplication(users, s, u, g).graph)
    ensures RemoveApplication(users, s, u, g).outcome == Returned(true)
  {
    RemoveApplicationMirrors(users, s, u, g);
  }

  /** The state of an acceptance just before the application is removed. */
  function Joined(s: Graph, u: UserID, g: GroupID): Graph
    requires g in s.rooms
  {
    s.(pending := s.pending[GroupKey(u, g) := true],
       rooms := AddMember(s.rooms, g, u), groups := InsertGroup(s.groups, u, g))
  }

  lemma JoinedMembers(users: set<UserID>, s: Graph, u: UserID, g: GroupID, m: Graph)
    requires MembersAgree(users, s.groups, s.rooms, s.founder)
    requires ApplicantsOutside(users, s.pending, s.rooms, s.founder)
    requires g in s.rooms && GroupKey(u, g) in s.pending && m == Joined(s, u, g)
    ensures MembersAgree(users, m.groups, m.rooms, m.founder)
    ensures ApplicantsOutside(users, m.pending - {GroupKey(u, g)}, m.rooms, m.founder)
  {
    forall w, h ensures ListsGroup(m.groups, w, h) == (ListsGroup(s.groups, w, h) || (w == u && h == g)) {}
    forall h, w ensures IsMember(m.rooms, h, w) == (IsMember(s.rooms, h, w) || (h == g && w == u)) {}
  }

  lemma JoinedMirrors(s: Graph, u: UserID, g: GroupID, m: Graph)
    requires MirrorsExact(s.mirrors, s.pending, s.founder)
    requires g in s.rooms && GroupKey(u, g) in s.pending && m == Joined(s, u, g)
    ensures MirrorsExact(m.mirrors, m.pending, m.founder)
  {
    forall w, e ensures Copies(m.mirrors, w, e) == Mirrored(m.pending, m.founder, w, e) {
      assert Copies(s.mirrors, w, e) == Mirrored(s.pending, s.founder, w, e);
    }
  }

  lemma AcceptInv(users: set<UserID>, s: Graph, u: UserID, g: GroupID)
    requires Inv(users, s) && g in s.rooms && GroupKey(u, g) in s.pending
    ensures Inv(users, AcceptApplication(users, s, u, g).graph)
    ensures AcceptApplication(users, s, u, g).outcome == Returned(true)
  {
    var m := Joined(s, u, g);
    JoinedMembers(users, s, u, g, m);
    JoinedMirrors(s, u, g, m);
    RemoveApplicationMirrors(users, m, u, g);
    assert AcceptApplication(users, s, u, g) == RemoveApplication(users, m, u, g);
  }

  lemma RemoveGroupInv(users: set<UserID>, s: Graph, self: UserID, g: GroupID)
    requires Inv(users, s)
    ensures Inv(users, RemoveGroup(s, self, g).graph)
  {
    forall h, m | IsMember(RemoveGroup(s, self, g).graph.rooms, h, m) ensures IsMember(s.rooms, h, m) {}
  }

  lemma LeaveGroupInv(users: set<UserID>, s: Graph, self: UserID, g: GroupID)
    requires Inv(users, s)
    ensures Inv(users, LeaveGroup(s, self, g).graph)
  {
    forall h, m | IsMember(LeaveGroup(s, self, g).graph.rooms, h, m) ensures IsMember(s.rooms, h, m) {}
  }

  // ---------------------------------------------------------------- how the operations fail, in any state

  /** A group of somebody who does not exist is refused, but its id is used up. */
  lemma AddGroupRoomFails(users: set<UserID>, s: Graph, u: UserID)
    ensures var r, c := AddGroupRoom(users, s, u), CreateGroup(users, s, u);
      && (r.outcome == Threw(UserNotExisted) <==> u !in users)
      && (r.outcome == Created(s.nextRoom) <==> u in users)
      && (u !in users ==> r.graph.rooms == s.rooms && r.graph.founder == s.founder && c == r)
      && r.graph.nextRoom == s.nextRoom + 1
      && r.graph.groups == s.groups && r.graph.mirrors == s.mirrors && r.graph.pending == s.pending
  {
  }

  /** An administrator who does not exist is noticed only when the applicant's entry has been made. */
  lemma ApplyFails(users: set<UserID>, s: Graph, u: UserID, g: GroupID)
    ensures var r, free := Apply(users, s, u, g), GroupKey(u, g) !in s.pending;
      && (r.outcome == Threw(GroupRoomNotExisted) <==> g !in s.rooms)
      && (r.outcome == Threw(VerificationNotExisted) <==> g in s.rooms && u in users && !free)
      && (r.outcome == Threw(UserNotExisted) <==>
            g in s.rooms && (u !in users || (free && s.rooms[g].administrator !in users)))
      && (r.outcome == Returned(true) <==> g in s.rooms && u in users && free && s.rooms[g].administrator in users)
      && (!(g in s.rooms && u in users && free) ==> r.graph == s)
      && (g in s.rooms && u in users && free ==>
            && GroupKey(u, g) in r.graph.pending
            && (forall k :: k != GroupKey(u, g) ==> (k in r.graph.pending <==> k in s.pending))
            && Copies(r.graph.mirrors, u, Entry(g, u, Sent)) == Copies(s.mirrors, u, Entry(g, u, Sent)) + 1)
  {
    if g in s.rooms && u in users && GroupKey(u, g) !in s.pending {
      var e := Entry(g, u, Sent);
      AfterInsert(s.mirrors, u, e, u, e);
      AfterInsert(InsertEntry(s.mirrors, u, e), s.rooms[g].administrator, Entry(g, u, Received), u, e);
    }
  }

  /** The application is gone before the group and the two users are looked up. */
  lemma RemoveApplicationFails(users: set<UserID>, s: Graph, u: UserID, g: GroupID)
    ensures var r, pending := RemoveApplication(users, s, u, g), GroupKey(u, g) in s.pending;
      && (!pending ==> r == Step(s, Threw(VerificationNotExisted)))
      && r.graph.pending == s.pending - {GroupKey(u, g)}
      && (pending && g !in s.rooms ==> r.outcome == Threw(GroupRoomNotExisted) && r.graph.mirrors == s.mirrors)
      && (pending && g in s.rooms && s.rooms[g].administrator !in users ==>
            r.outcome == Threw(UserNotExisted) && r.graph.mirrors == s.mirrors)
  {
    hide Erase;
  }

  /** The administrator's entry goes first; if it is missing, or else the applicant, the applicant's entry stays. */
  lemma RemoveApplicationStops(users: set<UserID>, s: Graph, u: UserID, g: GroupID)
    requires GroupKey(u, g) in s.pending && g in s.rooms && s.rooms[g].administrator in users
    ensures var r := RemoveApplication(users, s, u, g);
            var first := Erase(MirrorOf(s.mirrors, s.rooms[g].administrator), g, u);
      && (first == NotExisted ==> r.outcome == Threw(VerificationNotExisted) && r.graph.mirrors == s.mirrors)
      && (first == PastEnd ==> r.outcome == Undefined && r.graph.mirrors == s.mirrors)
      && (first.Erased? && u !in users ==>
            && r.outcome == Threw(UserNotExisted)
            && r.graph.mirrors == s.mirrors[s.rooms[g].administrator := first.rest])
      && (first == Untouched && u !in users ==>
            r.outcome == Threw(UserNotExisted) && r.graph.mirrors == s.mirrors)
  {
    hide Erase;
  }

  /** The flag is set before the group and the applicant are looked up. */
  lemma AcceptApplicationFails(users: set<UserID>, s: Graph, u: UserID, g: GroupID)
    ensures var r, pending := AcceptApplication(users, s, u, g), GroupKey(u, g) in s.pending;
            var flagged := s.(pending := s.pending[GroupKey(u, g) := true]);
      && (!pending ==> r == Step(s, Threw(VerificationNotExisted)))
      && (pending && g !in s.rooms ==> r == Step(flagged, Threw(GroupRoomNotExisted)))
      && (pending && g in s.rooms && u !in users ==> r == Step(flagged, Threw(UserNotExisted)))
  {
    hide RemoveApplication;
  }
}
