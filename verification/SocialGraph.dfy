/** The social graph as a whole: its commands, the invariant of every command, and what one command can do. */
module SocialGraph {
  import opened Identifiers
  import GroupVerifications
  import F = FriendGraph
  import G = GroupGraph

  datatype State = State(users: set<UserID>, nextUser: UserID, friends: F.Graph, groups: G.Graph)

  const INITIAL := State({}, FIRST_ID, F.EMPTY, G.EMPTY)

  datatype Step = Step(state: State, outcome: Outcome)

  datatype Command =
    | Register(emailOk: bool)
    | AddFriend(user: UserID)
    | AcceptFriend(user: UserID)
    | RejectFriend(user: UserID)
    | RemoveFriend(user: UserID)
    | SendFriendMessage(user: UserID)
    | CreateGroup
    | AddGroup(group: GroupID)
    | AcceptGroup(group: GroupID, user: UserID)
    | RejectGroup(group: GroupID, user: UserID)
    | RemoveGroup(group: GroupID)
    | LeaveGroup(group: GroupID)
    | SendGroupMessage(group: GroupID)

  predicate IsFriendCommand(c: Command) {
    c.AddFriend? || c.AcceptFriend? || c.RejectFriend? || c.RemoveFriend? || c.SendFriendMessage?
  }

  /** What a command looks up before it asks for its executor. */
  predicate TargetMissing(s: State, c: Command) {
    || (IsFriendCommand(c) && c.user !in s.users)
    || ((c.AddGroup? || c.SendGroupMessage?) && c.group !in s.groups.rooms)
  }

  function AddNewUser(s: State): Step {
    var u := s.nextUser;
    Step(State(s.users + {u}, u + 1, F.AddUser(s.friends, u), G.AddUser(s.groups, u)), Registered(u))
  }

  function FriendStep(users: set<UserID>, f: F.Graph, self: UserID, c: Command): F.Step
    requires IsFriendCommand(c)
  {
    match c
    case AddFriend(u) => F.AddFriend(users, f, self, u)
    case AcceptFriend(u) => F.AcceptFriend(users, f, self, u)
    case RejectFriend(u) => F.RejectFriend(users, f, self, u)
    case RemoveFriend(u) => F.RemoveFriend(users, f, self, u)
    case SendFriendMessage(u) => F.SendMessage(users, f, self, u)
  }

  ghost function GroupStep(users: set<UserID>, g: G.Graph, self: UserID, c: Command): G.Step
    requires !IsFriendCommand(c) && !c.Register?
  {
    match c
    case CreateGroup => G.CreateGroup(users, g, self)
    case AddGroup(r) => G.AddGroup(users, g, self, r)
    case AcceptGroup(r, u) => G.AcceptGroup(users, g, self, r, u)
    case RejectGroup(r, u) => G.RejectGroup(users, g, self, r, u)
    case RemoveGroup(r) => G.RemoveGroup(g, self, r)
    case LeaveGroup(r) => G.LeaveGroup(g, self, r)
    case SendGroupMessage(r) => G.SendMessage(g, self, r)
  }

  /** One command of a session whose user is `executor`, which is -1 when nobody has logged in. */
  ghost function Execute(s: State, executor: UserID, c: Command): Step {
    if c.Register? then
      if c.emailOk then AddNewUser(s) else Step(s, Returned(false))
    else if TargetMissing(s, c) then Step(s, Returned(false))
    else if executor !in s.users then
      // creating a group swallows every exception
      Step(s, if c.CreateGroup? then Returned(false) else Threw(UserNotExisted))
    else if IsFriendCommand(c) then
      var r := FriendStep(s.users, s.friends, executor, c);
      // an acceptance is answered with success whether or not there was an application
      Step(s.(friends := r.graph), if c.AcceptFriend? && r.outcome.Returned? then Returned(true) else r.outcome)
    else
      var r := GroupStep(s.users, s.groups, executor, c);
      Step(s.(groups := r.graph), r.outcome)
  }

  ghost predicate Inv(s: State) {
    && FIRST_ID <= s.nextUser
    && (forall u :: u in s.users ==> FIRST_ID <= u < s.nextUser)
    && F.Inv(s.users, s.friends)
    && G.Inv(s.users, s.groups)
  }

  lemma InitialInv()
    ensures Inv(INITIAL)
  {
  }

  lemma FriendStepInv(users: set<UserID>, f: F.Graph, self: UserID, c: Command)
    requires F.Inv(users, f) && self in users && IsFriendCommand(c)
    ensures F.Inv(users, FriendStep(users, f, self, c).graph)
  {
    match c
    case AddFriend(u) => F.ApplyInv(users, f, self, u);
    case AcceptFriend(u) =>
      if F.FriendKey(u, self) in f.pending { F.AcceptApplicationInv(users, f, u, self); }
    case RejectFriend(u) =>
      if F.FriendKey(u, self) in f.pending {
        assert f.(pending := f.pending[F.FriendKey(u, self) := false]) == f;
        F.RemoveApplicationInv(users, f, u, self);
      }
    case RemoveFriend(u) => F.RemoveFriendInv(users, f, self, u);
    case SendFriendMessage(u) =>
  }

  lemma GroupStepInv(users: set<UserID>, g: G.Graph, self: UserID, c: Command)
    requires G.Inv(users, g) && self in users && !IsFriendCommand(c) && !c.Register?
    ensures G.Inv(users, GroupStep(users, g, self, c).graph)
  {
    match c
    case CreateGroup => G.CreateGroupInv(users, g, self);
    case AddGroup(r) =>
      if !G.AddGroup(users, g, self, r).outcome.Returned? || G.AddGroup(users, g, self, r).outcome.ok {
        G.ApplyInv(users, g, self, r);
      }
    case AcceptGroup(r, u) =>
      if G.MayDecide(g, self, r, u) && G.GroupKey(u, r) in g.pending { G.AcceptInv(users, g, u, r); }
    case RejectGroup(r, u) =>
      if G.MayDecide(g, self, r, u) && G.GroupKey(u, r) in g.pending { G.RejectInv(users, g, u, r); }
    case RemoveGroup(r) => G.RemoveGroupInv(users, g, self, r);
    case LeaveGroup(r) => G.LeaveGroupInv(users, g, self, r);
    case SendGroupMessage(r) =>
  }

  /** Every command of every session keeps the invariant. */
  lemma ExecuteInv(s: State, executor: UserID, c: Command)
    requires Inv(s)
    ensures Inv(Execute(s, executor, c).state)
  {
    hide F.Inv, G.Inv, FriendStep, GroupStep, F.AddUser, G.AddUser;
    if c.Register? {
      F.AddUserInv(s.users, s.friends, s.nextUser);
      G.AddUserInv(s.users, s.groups, s.nextUser);
    } else if executor in s.users {
      if IsFriendCommand(c) {
        FriendStepInv(s.users, s.friends, executor, c);
      } else {
        GroupStepInv(s.users, s.groups, executor, c);
      }
    }
  }

  // ---------------------------------------------------------------- what is thrown

  /** An administrator accepts somebody who has not applied; acceptances do not look before they leap. */
  predicate AcceptsNobody(s: State, executor: UserID, c: Command) {
    && c.AcceptGroup? && c.group in s.groups.rooms && executor == s.groups.rooms[c.group].administrator
    && !G.IsMember(s.groups.rooms, c.group, c.user) && G.GroupKey(c.user, c.group) !in s.groups.pending
  }

  /** The only exceptions are those of a missing executor and of a group acceptance without application. */
  lemma ThrowsIff(s: State, executor: UserID, c: Command)
    requires Inv(s)
    ensures Execute(s, executor, c).outcome != Undefined
    ensures Execute(s, executor, c).outcome.Threw? <==>
              if executor in s.users then AcceptsNobody(s, executor, c)
              else !c.Register? && !c.CreateGroup? && !TargetMissing(s, c)
    ensures Execute(s, executor, c).outcome.Threw? ==> Execute(s, executor, c).state == s
  {
    if executor in s.users && !c.Register? && !TargetMissing(s, c) {
      if IsFriendCommand(c) {
        FriendStepRegular(s.users, s.friends, executor, c);
      } else {
        GroupStepRegular(s, executor, c);
      }
    }
  }

  lemma FriendStepRegular(users: set<UserID>, f: F.Graph, self: UserID, c: Command)
    requires F.Inv(users, f) && self in users && IsFriendCommand(c) && c.user in users
    ensures FriendStep(users, f, self, c).outcome.Returned? || FriendStep(users, f, self, c).outcome.Delivered?
  {
  }

  /** Whoever lists a friend reaches a room of exactly the two: the lookup and the room's own check succeed. */
  lemma ReachesFriend(users: set<UserID>, f: F.Graph, self: UserID, other: UserID)
    requires F.Inv(users, f) && other in users
    ensures F.IsFriend(f.friends, self, other) ==>
              && F.PairOf(self, other) in f.index && F.PairOf(other, self) == F.PairOf(self, other)
              && F.SendMessage(users, f, self, other) ==
                   F.Step(f, Delivered(f.index[F.PairOf(self, other)], {self, other}))
    ensures !F.IsFriend(f.friends, self, other) ==>
              F.SendMessage(users, f, self, other) == F.Step(f, Returned(false))
  {
    if F.IsFriend(f.friends, self, other) {
      var k := F.PairOf(self, other);
      assert F.HasItsRoom(users, f.rooms, k, f.index[k]);
      assert {k.low, k.high} == {self, other};
    }
  }

  lemma GroupStepRegular(s: State, self: UserID, c: Command)
    requires G.Inv(s.users, s.groups) && self in s.users && !IsFriendCommand(c) && !c.Register?
    ensures var r := GroupStep(s.users, s.groups, self, c);
      if AcceptsNobody(s, self, c) then r == G.Step(s.groups, Threw(VerificationNotExisted))
      else r.outcome.Returned? || r.outcome.Created? || r.outcome.Delivered? || r.outcome.Dropped?
  {
    var users, g := s.users, s.groups;
    match c
    case AddGroup(r) =>
      if r in g.rooms && self !in g.rooms[r].members && G.GroupKey(self, r) !in g.pending {
        G.ApplyInv(users, g, self, r);
      }
    case AcceptGroup(r, u) =>
      if G.MayDecide(g, self, r, u) && G.GroupKey(u, r) in g.pending { G.AcceptInv(users, g, u, r); }
    case RejectGroup(r, u) =>
      if G.MayDecide(g, self, r, u) && G.GroupKey(u, r) in g.pending { G.RejectInv(users, g, u, r); }
    case _ =>
  }

  /** Nobody's session, in particular one without login, can do more than register. */
  lemma StrangersChangeNothing(s: State, executor: UserID, c: Command)
    requires Inv(s) && executor !in s.users
    ensures !c.Register? ==> Execute(s, executor, c).state == s
    ensures -1 !in s.users && -1 !in Execute(s, executor, c).state.users
  {
  }

  // ---------------------------------------------------------------- exact conditions of one command

  ghost predicate Symmetric(s: State) {
    forall a, b :: F.IsFriend(s.friends.friends, a, b) <==> F.IsFriend(s.friends.friends, b, a)
  }

  /** The guard of the branch that erases. */
  predicate Unfriends(s: State, executor: UserID, c: Command) {
    c.RemoveFriend? && c.user in s.users && executor in s.users && executor != c.user &&
    F.IsFriend(s.friends.friends, executor, c.user)
  }

  /** Friendship stays symmetric exactly when nobody is unfriended, because unfriending is one-sided. */
  lemma SymmetryKeptIff(s: State, executor: UserID, c: Command)
    requires Inv(s) && Symmetric(s)
    ensures Symmetric(Execute(s, executor, c).state) <==> !Unfriends(s, executor, c)
  {
    hide Execute, Inv;
    var t := Execute(s, executor, c).state;
    if Unfriends(s, executor, c) {
      FriendAfter(s, executor, c, executor, c.user);
      FriendAfter(s, executor, c, c.user, executor);
      assert F.IsFriend(s.friends.friends, c.user, executor);
      assert !F.IsFriend(t.friends.friends, executor, c.user) && F.IsFriend(t.friends.friends, c.user, executor);
    } else {
      hide Unfriends, F.IsFriend;
      forall a, b ensures F.IsFriend(t.friends.friends, a, b) <==> F.IsFriend(t.friends.friends, b, a) {
        FriendAfter(s, executor, c, a, b);
        FriendAfter(s, executor, c, b, a);
      }
    }
  }

  /** `b` accepts, or accepts or rejects, a pending application of `a`. */
  predicate Accepts(s: State, executor: UserID, c: Command, a: UserID, b: UserID) {
    executor == b && c == AcceptFriend(a) && F.FriendKey(a, b) in s.friends.pending
  }

  predicate Consumes(s: State, executor: UserID, c: Command, a: UserID, b: UserID) {
    executor == b && (c == AcceptFriend(a) || c == RejectFriend(a)) && F.FriendKey(a, b) in s.friends.pending
  }

  /** `a` applies to `b`, and is told that he did. */
  ghost predicate Applies(s: State, executor: UserID, c: Command, a: UserID, b: UserID) {
    executor == a && c == AddFriend(b) && Execute(s, executor, c).outcome == Returned(true)
  }

  /** A friend command that is not refused beforehand is a step of the friend graph. */
  lemma ExecutesFriendStep(s: State, executor: UserID, c: Command)
    requires IsFriendCommand(c) && c.user in s.users && executor in s.users
    ensures Execute(s, executor, c).state.friends == FriendStep(s.users, s.friends, executor, c).graph
    ensures c.AddFriend? ==> Execute(s, executor, c).outcome == FriendStep(s.users, s.friends, executor, c).outcome
  {
  }

  /** The commands that leave friends and applications alone. */
  lemma FriendsUntouched(s: State, executor: UserID, c: Command)
    requires executor !in s.users || !IsFriendCommand(c) || TargetMissing(s, c)
    ensures var t := Execute(s, executor, c).state.friends;
      && t.pending == s.friends.pending
      && (c.AddFriend? ==> Execute(s, executor, c).outcome != Returned(true))
      && (s.nextUser !in s.friends.friends ==>
            forall a, b :: F.IsFriend(t.friends, a, b) <==> F.IsFriend(s.friends.friends, a, b))
  {
  }

  lemma FriendAfterFriendStep(users: set<UserID>, f: F.Graph, self: UserID, c: Command, a: UserID, b: UserID)
    requires F.Inv(users, f) && self in users && IsFriendCommand(c) && c.user in users
    ensures var accepted := c.AcceptFriend? && F.FriendKey(c.user, self) in f.pending;
            var erased := c.RemoveFriend? && F.IsFriend(f.friends, self, c.user);
      F.IsFriend(FriendStep(users, f, self, c).graph.friends, a, b) <==>
        || (accepted && ((a == self && b == c.user) || (a == c.user && b == self)))
        || (F.IsFriend(f.friends, a, b) && !(erased && a == self && b == c.user))
  {
    if c.AcceptFriend? && F.FriendKey(c.user, self) in f.pending {
      F.AcceptApplicationFields(users, f, c.user, self);
      F.BefriendedFriends(f.friends, c.user, self, a, b);
    }
  }

  /** Every way in which a friend list can change. */
  lemma FriendAfter(s: State, executor: UserID, c: Command, a: UserID, b: UserID)
    requires Inv(s)
    ensures F.IsFriend(Execute(s, executor, c).state.friends.friends, a, b) <==>
              || Accepts(s, executor, c, a, b) || Accepts(s, executor, c, b, a)
              || (F.IsFriend(s.friends.friends, a, b) &&
                  !(Unfriends(s, executor, c) && executor == a && c.user == b))
  {
    hide Execute, FriendStep, GroupStep, G.Inv;
    if IsFriendCommand(c) && c.user in s.users && executor in s.users {
      ExecutesFriendStep(s, executor, c);
      FriendAfterFriendStep(s.users, s.friends, executor, c, a, b);
    } else {
      FriendsUntouched(s, executor, c);
    }
  }

  lemma PendingAfterFriendStep(users: set<UserID>, f: F.Graph, self: UserID, c: Command, a: UserID, b: UserID)
    requires F.Inv(users, f) && self in users && IsFriendCommand(c) && c.user in users
    ensures var r := FriendStep(users, f, self, c);
            var applied := c.AddFriend? && r.outcome == Returned(true);
            var consumed := (c.AcceptFriend? || c.RejectFriend?) && F.FriendKey(c.user, self) in f.pending;
      && (applied ==> F.FriendKey(self, c.user) !in f.pending && !F.HasPrivateRoom(f, self, c.user))
      && (F.FriendKey(a, b) in r.graph.pending <==>
            || (applied && a == self && b == c.user)
            || (F.FriendKey(a, b) in f.pending && !(consumed && a == c.user && b == self)))
  {
    if c.AcceptFriend? && F.FriendKey(c.user, self) in f.pending {
      F.AcceptApplicationFields(users, f, c.user, self);
    }
  }

  /** Every way in which the pending applications can change. */
  lemma PendingAfter(s: State, executor: UserID, c: Command, a: UserID, b: UserID)
    requires Inv(s)
    ensures F.FriendKey(a, b) in Execute(s, executor, c).state.friends.pending <==>
              || Applies(s, executor, c, a, b)
              || (F.FriendKey(a, b) in s.friends.pending && !Consumes(s, executor, c, a, b))
    ensures Applies(s, executor, c, a, b) ==>
              F.FriendKey(a, b) !in s.friends.pending && !F.HasPrivateRoom(s.friends, a, b)
  {
    hide Execute, FriendStep, GroupStep, G.Inv;
    if IsFriendCommand(c) && c.user in s.users && executor in s.users {
      ExecutesFriendStep(s, executor, c);
      PendingAfterFriendStep(s.users, s.friends, executor, c, a, b);
    } else {
      FriendsUntouched(s, executor, c);
      assert !Consumes(s, executor, c, a, b);
    }
  }

  /** Every pending application is on both users' lists. */
  ghost predicate AllListed(f: F.Graph) {
    forall k :: k in f.pending ==> F.ListingOf(f.listings, k.applicator, k.controller) == F.Listed(Sent)
  }

  /** A fresh application crosses one that the other user has already sent. */
  predicate Crosses(s: State, executor: UserID, c: Command) {
    && c.AddFriend? && executor in s.users && !F.HasPrivateRoom(s.friends, executor, c.user)
    && F.FriendKey(c.user, executor) in s.friends.pending && F.FriendKey(executor, c.user) !in s.friends.pending
  }

  /** Pending applications stay listed exactly when none is answered by an application in the other direction. */
  lemma AllListedKeptIff(s: State, executor: UserID, c: Command)
    requires Inv(s) && AllListed(s.friends)
    ensures AllListed(Execute(s, executor, c).state.friends) <==> !Crosses(s, executor, c)
  {
    var t := Execute(s, executor, c).state;
    if executor in s.users && !TargetMissing(s, c) && t.friends != s.friends && !c.Register? && !c.RemoveFriend? {
      if c.AddFriend? {
        ListedAfterApply(s, executor, c.user);
      } else {
        ListedAfterConsume(s, executor, c);
      }
    } else {
      forall k | k in t.friends.pending
        ensures F.ListingOf(t.friends.listings, k.applicator, k.controller) == F.Listed(Sent)
      {
        assert F.ListingOf(s.friends.listings, k.applicator, k.controller) == F.Listed(Sent);
      }
    }
  }

  lemma ListedAfterApply(s: State, a: UserID, b: UserID)
    requires Inv(s) && AllListed(s.friends) && F.AddFriend(s.users, s.friends, a, b).outcome == Returned(true)
    ensures AllListed(F.AddFriend(s.users, s.friends, a, b).graph) <==> F.FriendKey(b, a) !in s.friends.pending
  {
    var t := F.AddFriend(s.users, s.friends, a, b).graph;
    if F.FriendKey(b, a) in s.friends.pending {
      assert F.ListingOf(s.friends.listings, b, a) == F.Listed(Sent);
      assert F.ListingOf(s.friends.listings, a, b) == F.Opposite(F.Listed(Sent));
      F.ListingAfterApply(s.users, s.friends, a, b, a, b);
      assert F.FriendKey(a, b) in t.pending;
    } else {
      forall k | k in t.pending ensures F.ListingOf(t.listings, k.applicator, k.controller) == F.Listed(Sent) {
        F.ListingAfterApply(s.users, s.friends, a, b, k.applicator, k.controller);
        assert F.ListingOf(s.friends.listings, b, a) == F.Opposite(F.ListingOf(s.friends.listings, a, b));
      }
    }
  }

  lemma ListingIsDual(users: set<UserID>, f: F.Graph, a: UserID, b: UserID)
    requires F.Inv(users, f)
    ensures F.ListingOf(f.listings, b, a) == F.Opposite(F.ListingOf(f.listings, a, b))
  {
  }

  /** Both answers to an application end with its removal. */
  lemma ConsumesByRemoval(s: State, b: UserID, c: Command)
    requires Inv(s) && (c.AcceptFriend? || c.RejectFriend?) && b in s.users
    requires F.FriendKey(c.user, b) in s.friends.pending
    ensures c.user in s.users && c.user != b
    ensures var m := if c.AcceptFriend? then F.Befriended(s.users, s.friends, c.user, b) else s.friends;
      Execute(s, b, c).state.friends == F.RemoveApplication(s.users, m, c.user, b).graph
  {
    ExecutesFriendStep(s, b, c);
    hide Execute, G.Inv, F.RemoveApplication;
  }

  lemma ListedAfterConsume(s: State, b: UserID, c: Command)
    requires Inv(s) && AllListed(s.friends) && (c.AcceptFriend? || c.RejectFriend?) && b in s.users
    requires F.FriendKey(c.user, b) in s.friends.pending
    ensures AllListed(Execute(s, b, c).state.friends)
  {
    var a := c.user;
    ConsumesByRemoval(s, b, c);
    hide Execute, F.Inv, G.Inv;
    var m := if c.AcceptFriend? then F.Befriended(s.users, s.friends, a, b) else s.friends;
    var t := F.RemoveApplication(s.users, m, a, b).graph;
    assert t.pending == m.pending - {F.FriendKey(a, b)} && m.listings == s.friends.listings;
    hide F.RemoveApplication, F.Befriended, F.ListingOf;
    forall k | k in t.pending ensures F.ListingOf(t.listings, k.applicator, k.controller) == F.Listed(Sent) {
      F.ListingAfterRemove(s.users, m, a, b, k.applicator, k.controller);
      ListingIsDual(s.users, s.friends, a, b);
      assert F.ListingOf(s.friends.listings, k.applicator, k.controller) == F.Listed(Sent);
      assert F.ListingOf(s.friends.listings, a, b) == F.Listed(Sent);
    }
  }

  /** Both users' lists show the application of `a` to `b`; the listing of `b` is the opposite one. */
  predicate Shown(f: F.Graph, a: UserID, b: UserID) {
    F.ListingOf(f.listings, a, b) == F.Listed(Sent)
  }

  /** The commands that leave the lists alone; a new user's list is empty. */
  lemma ListingsUntouched(s: State, executor: UserID, c: Command, a: UserID, b: UserID)
    requires Inv(s) && (executor !in s.users || !IsFriendCommand(c) || TargetMissing(s, c))
    ensures Shown(Execute(s, executor, c).state.friends, a, b) <==> Shown(s.friends, a, b)
  {
    hide GroupStep, FriendStep, G.Inv, G.AddUser;
  }

  lemma ShownAfterApply(users: set<UserID>, f: F.Graph, self: UserID, other: UserID, a: UserID, b: UserID)
    requires F.Inv(users, f)
    ensures var r := F.AddFriend(users, f, self, other);
      Shown(r.graph, a, b) <==>
        || Shown(f, a, b) || (r.outcome == Returned(true) && a == self && b == other && !Shown(f, b, a))
  {
    ListingIsDual(users, f, a, b);
    if F.AddFriend(users, f, self, other).outcome == Returned(true) {
      F.ListingAfterApply(users, f, self, other, a, b);
    }
  }

  lemma ShownAfterConsume(s: State, self: UserID, c: Command, a: UserID, b: UserID)
    requires Inv(s) && (c.AcceptFriend? || c.RejectFriend?) && self in s.users
    requires F.FriendKey(c.user, self) in s.friends.pending
    ensures Shown(Execute(s, self, c).state.friends, a, b) <==>
              Shown(s.friends, a, b) && !(a == c.user && b == self) && !(a == self && b == c.user)
  {
    ConsumesByRemoval(s, self, c);
    hide Execute, F.Inv, G.Inv;
    var m := if c.AcceptFriend? then F.Befriended(s.users, s.friends, c.user, self) else s.friends;
    assert m.listings == s.friends.listings && F.FriendKey(c.user, self) in m.pending;
    F.ListingAfterRemove(s.users, m, c.user, self, a, b);
  }

  /** Every way in which the lists can change. */
  lemma ShownAfter(s: State, executor: UserID, c: Command, a: UserID, b: UserID)
    requires Inv(s)
    ensures Shown(Execute(s, executor, c).state.friends, a, b) <==>
              || (Applies(s, executor, c, a, b) && !Shown(s.friends, b, a))
              || (Shown(s.friends, a, b) && !Consumes(s, executor, c, a, b) && !Consumes(s, executor, c, b, a))
  {
    hide Execute, G.Inv, Shown, F.AddFriend;
    if IsFriendCommand(c) && c.user in s.users && executor in s.users {
      ExecutesFriendStep(s, executor, c);
      if c.AddFriend? {
        ShownAfterApply(s.users, s.friends, executor, c.user, a, b);
      } else if (c.AcceptFriend? || c.RejectFriend?) && F.FriendKey(c.user, executor) in s.friends.pending {
        ShownAfterConsume(s, executor, c, a, b);
      } else {
        assert Execute(s, executor, c).state.friends.listings == s.friends.listings;
        SameListings(s.friends, Execute(s, executor, c).state.friends, a, b);
      }
    } else {
      ListingsUntouched(s, executor, c, a, b);
      FriendsUntouched(s, executor, c);
      NoneConsumed(s, executor, c, a, b);
      NoneConsumed(s, executor, c, b, a);
    }
  }

  lemma SameListings(f: F.Graph, g: F.Graph, a: UserID, b: UserID)
    requires f.listings == g.listings
    ensures Shown(f, a, b) <==> Shown(g, a, b)
  {
  }

  lemma NoneConsumed(s: State, executor: UserID, c: Command, a: UserID, b: UserID)
    requires Inv(s) && (executor !in s.users || !IsFriendCommand(c) || TargetMissing(s, c))
    ensures !Consumes(s, executor, c, a, b)
  {
    hide G.Inv;
  }

  /** A group message is dropped, though answered with success, exactly for listed groups one has left. */
  lemma GroupMessageReaches(s: State, executor: UserID, g: GroupID)
    requires Inv(s) && executor in s.users && g in s.groups.rooms
    ensures var r := Execute(s, executor, SendGroupMessage(g)).outcome;
      && (G.IsMember(s.groups.rooms, g, executor) <==> r == Delivered(g, s.groups.rooms[g].members))
      && (r == Dropped <==>
            G.ListsGroup(s.groups.groups, executor, g) && !G.IsMember(s.groups.rooms, g, executor))
  {
  }

  /** Leaving always takes effect; it is answered with failure exactly for the administrator. */
  lemma LeavingTakesEffect(s: State, executor: UserID, g: GroupID)
    requires Inv(s) && executor in s.users && g in s.groups.rooms
    ensures var r := Execute(s, executor, LeaveGroup(g));
      && !G.IsMember(r.state.groups.rooms, g, executor)
      && (r.outcome == Returned(false) <==> executor == s.groups.founder[g])
      && (G.ListsGroup(s.groups.groups, executor, g) ==>
            Execute(r.state, executor, SendGroupMessage(g)).outcome == Dropped)
  {
  }
}
