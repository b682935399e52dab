/** What each command answers and does, in terms of the state before it, for every session that gives it. */
module SocialCommands {
  import opened Identifiers
  import opened SocialGraph
  import F = FriendGraph
  import G = GroupGraph

  // ---------------------------------------------------------------- friends

  /** An application is taken exactly if the two are different users without a room, and it is not there yet. */
  lemma AppliesIff(s: State, executor: UserID, c: Command, a: UserID, b: UserID)
    requires Inv(s)
    ensures Applies(s, executor, c, a, b) <==>
              && executor == a && c == AddFriend(b)
              && a in s.users && b in s.users && a != b
              && F.PairOf(a, b) !in s.friends.index && F.FriendKey(a, b) !in s.friends.pending
  {
    hide G.Inv, F.Inv;
  }

  lemma RoomAfterFriendStep(users: set<UserID>, f: F.Graph, self: UserID, c: Command, a: UserID, b: UserID)
    requires F.Inv(users, f) && self in users && IsFriendCommand(c) && c.user in users
    ensures var accepted := c.AcceptFriend? && F.FriendKey(c.user, self) in f.pending;
            var t := FriendStep(users, f, self, c).graph;
      && (F.PairOf(a, b) in t.index <==>
            F.PairOf(a, b) in f.index || (accepted && F.PairOf(a, b) == F.PairOf(self, c.user)))
      && t.nextRoom == f.nextRoom + (if accepted then 1 else 0)
      && t.rooms.Keys == f.rooms.Keys + (if accepted then {f.nextRoom} else {})
  {
    if c.AcceptFriend? && F.FriendKey(c.user, self) in f.pending {
      F.AcceptApplicationFields(users, f, c.user, self);
    }
  }

  /** `a` or `b` accepts an application of the other. */
  predicate Befriends(s: State, executor: UserID, c: Command, a: UserID, b: UserID) {
    Accepts(s, executor, c, a, b) || Accepts(s, executor, c, b, a)
  }

  /** Somebody accepts an application. */
  predicate BefriendsAny(s: State, executor: UserID, c: Command) {
    c.AcceptFriend? && F.FriendKey(c.user, executor) in s.friends.pending
  }

  /** A private room comes with an acceptance and only so, under the next id of the common counter. */
  lemma RoomAfter(s: State, executor: UserID, c: Command, a: UserID, b: UserID)
    requires Inv(s)
    ensures var t := Execute(s, executor, c).state.friends;
      && (F.PairOf(a, b) in t.index <==> F.PairOf(a, b) in s.friends.index || Befriends(s, executor, c, a, b))
      && t.nextRoom == s.friends.nextRoom + (if BefriendsAny(s, executor, c) then 1 else 0)
      && t.rooms.Keys == s.friends.rooms.Keys + (if BefriendsAny(s, executor, c) then {s.friends.nextRoom} else {})
  {
    hide FriendStep, GroupStep, G.Inv, Execute, F.PairOf;
    if IsFriendCommand(c) && c.user in s.users && executor in s.users {
      ExecutesFriendStep(s, executor, c);
      RoomAfterFriendStep(s.users, s.friends, executor, c, a, b);
      if BefriendsAny(s, executor, c) { SamePair(a, b, executor, c.user); }
    } else {
      NoneBefriended(s, executor, c);
      RoomsUntouched(s, executor, c);
    }
  }

  lemma SamePair(a: UserID, b: UserID, x: UserID, y: UserID)
    ensures F.PairOf(a, b) == F.PairOf(x, y) <==> (a == x && b == y) || (a == y && b == x)
  {
  }

  lemma RoomsUntouched(s: State, executor: UserID, c: Command)
    requires !IsFriendCommand(c) || c.user !in s.users || executor !in s.users
    ensures var t := Execute(s, executor, c).state.friends;
      t.index == s.friends.index && t.rooms == s.friends.rooms && t.nextRoom == s.friends.nextRoom
  {
    hide FriendStep, GroupStep;
  }

  lemma NoneBefriended(s: State, executor: UserID, c: Command)
    requires Inv(s) && (!IsFriendCommand(c) || c.user !in s.users || executor !in s.users)
    ensures !BefriendsAny(s, executor, c)
  {
    hide G.Inv;
  }

  /** Registering is the only way to become a user, and the next id is the new one. */
  lemma UsersAfter(s: State, executor: UserID, c: Command)
    requires Inv(s)
    ensures var t := Execute(s, executor, c).state;
      if c == Register(true) then t.users == s.users + {s.nextUser} && t.nextUser == s.nextUser + 1
      else t.users == s.users && t.nextUser == s.nextUser
  {
    hide FriendStep, GroupStep;
  }

  // ---------------------------------------------------------------- groups

  /** `u` applies to the live group `g`, and is told that he did. */
  ghost predicate AppliesToGroup(s: State, executor: UserID, c: Command, u: UserID, g: GroupID) {
    executor == u && c == AddGroup(g) && Execute(s, executor, c).outcome == Returned(true)
  }

  /** That is so exactly for users who are no members of the live group and have not applied yet. */
  lemma AppliesToGroupIff(s: State, executor: UserID, c: Command, u: UserID, g: GroupID)
    requires Inv(s)
    ensures AppliesToGroup(s, executor, c, u, g) <==>
              && executor == u && c == AddGroup(g)
              && u in s.users && g in s.groups.rooms && u !in s.groups.rooms[g].members
              && G.GroupKey(u, g) !in s.groups.pending
  {
    hide F.Inv;
    if executor == u && c == AddGroup(g) && u in s.users && g in s.groups.rooms
       && u !in s.groups.rooms[g].members && G.GroupKey(u, g) !in s.groups.pending {
      G.ApplyInv(s.users, s.groups, u, g);
    }
  }

  /** He is the administrator of the live group, and `u` has applied to it. */
  predicate DecidesOn(s: G.Graph, executor: UserID, u: UserID, g: GroupID) {
    g in s.rooms && executor == s.rooms[g].administrator && G.GroupKey(u, g) in s.pending
  }

  predicate AcceptsMember(s: State, executor: UserID, c: Command, u: UserID, g: GroupID) {
    c == AcceptGroup(g, u) && DecidesOn(s.groups, executor, u, g)
  }

  /** The administrator accepts or rejects a pending application. */
  predicate ConsumesGroup(s: State, executor: UserID, c: Command, u: UserID, g: GroupID) {
    (c == AcceptGroup(g, u) || c == RejectGroup(g, u)) && DecidesOn(s.groups, executor, u, g)
  }

  predicate Founds(s: State, executor: UserID, c: Command, u: UserID, g: GroupID) {
    executor == u && u in s.users && c == CreateGroup && g == s.groups.nextRoom
  }

  predicate Leaves(executor: UserID, c: Command, u: UserID, g: GroupID) {
    executor == u && c == LeaveGroup(g)
  }

  /** The founder, who is the administrator, removes the group. */
  predicate Dissolves(s: State, executor: UserID, c: Command, g: GroupID) {
    c == RemoveGroup(g) && g in s.groups.founder && executor == s.groups.founder[g]
  }

  lemma AcceptedGroupFields(users: set<UserID>, s: G.Graph, u: UserID, g: GroupID)
    requires G.Inv(users, s) && g in s.rooms && G.GroupKey(u, g) in s.pending
    ensures var t := G.AcceptApplication(users, s, u, g).graph;
      && t == s.(pending := s.pending - {G.GroupKey(u, g)}, mirrors := t.mirrors, rooms := t.rooms, groups := t.groups)
      && (forall h :: h in t.rooms <==> h in s.rooms)
      && (forall h, v :: G.IsMember(t.rooms, h, v) <==> G.IsMember(s.rooms, h, v) || (h == g && v == u))
      && (forall h, v :: G.ListsGroup(t.groups, v, h) <==> G.ListsGroup(s.groups, v, h) || (h == g && v == u))
  {
    var m := G.Joined(s, u, g);
    G.JoinedMirrors(s, u, g, m);
    G.RemoveApplicationMirrors(users, m, u, g);
    assert m.pending - {G.GroupKey(u, g)} == s.pending - {G.GroupKey(u, g)};
    assert G.AcceptApplication(users, s, u, g) == G.RemoveApplication(users, m, u, g);
  }

  /** The decisions that take effect, and those that do not. */
  lemma Decided(users: set<UserID>, s: G.Graph, self: UserID, c: Command)
    requires G.Inv(users, s) && self in users && (c.AcceptGroup? || c.RejectGroup?)
    ensures var r, key := GroupStep(users, s, self, c), G.GroupKey(c.user, c.group);
      if !DecidesOn(s, self, c.user, c.group) then r.graph == s
      else r.graph == if c.AcceptGroup? then G.AcceptApplication(users, s, c.user, c.group).graph
                      else s.(pending := s.pending - {key}, mirrors := r.graph.mirrors)
  {
    if DecidesOn(s, self, c.user, c.group) {
      assert !G.IsMember(s.rooms, c.group, c.user);
      G.RemoveApplicationMirrors(users, s, c.user, c.group);
    }
  }

  lemma PendingAfterGroupStep(users: set<UserID>, s: G.Graph, self: UserID, c: Command, u: UserID, g: GroupID)
    requires G.Inv(users, s) && self in users && !IsFriendCommand(c) && !c.Register?
    ensures var r := GroupStep(users, s, self, c);
      G.GroupKey(u, g) in r.graph.pending <==>
        || (c == AddGroup(g) && self == u && r.outcome == Returned(true))
        || (G.GroupKey(u, g) in s.pending &&
            !((c == AcceptGroup(g, u) || c == RejectGroup(g, u)) && DecidesOn(s, self, u, g)))
  {
    if c.AcceptGroup? || c.RejectGroup? {
      Decided(users, s, self, c);
      if DecidesOn(s, self, c.user, c.group) { AcceptedGroupFields(users, s, c.user, c.group); }
      hide GroupStep;
    }
  }

  lemma MemberAfterGroupStep(users: set<UserID>, s: G.Graph, self: UserID, c: Command, u: UserID, g: GroupID)
    requires G.Inv(users, s) && self in users && !IsFriendCommand(c) && !c.Register?
    ensures var t := GroupStep(users, s, self, c).graph;
      G.IsMember(t.rooms, g, u) <==>
        || (c == CreateGroup && self == u && g == s.nextRoom)
        || (c == AcceptGroup(g, u) && DecidesOn(s, self, u, g))
        || (G.IsMember(s.rooms, g, u) && !(c == LeaveGroup(g) && self == u)
            && !(c == RemoveGroup(g) && g in s.founder && self == s.founder[g]))
  {
    if c.AcceptGroup? || c.RejectGroup? {
      Decided(users, s, self, c);
      if DecidesOn(s, self, c.user, c.group) { AcceptedGroupFields(users, s, c.user, c.group); }
      hide GroupStep;
    }
  }

  lemma RoomsAfterGroupStep(users: set<UserID>, s: G.Graph, self: UserID, c: Command, g: GroupID)
    requires G.Inv(users, s) && self in users && !IsFriendCommand(c) && !c.Register?
    ensures var t := GroupStep(users, s, self, c).graph;
      && (g in t.rooms <==>
            || (c == CreateGroup && g == s.nextRoom)
            || (g in s.rooms && !(c == RemoveGroup(g) && g in s.founder && self == s.founder[g])))
      && t.founder == (if c == CreateGroup then s.founder[s.nextRoom := self] else s.founder)
      && t.nextRoom == s.nextRoom + (if c == CreateGroup then 1 else 0)
  {
    if c.AcceptGroup? || c.RejectGroup? {
      Decided(users, s, self, c);
      if DecidesOn(s, self, c.user, c.group) { AcceptedGroupFields(users, s, c.user, c.group); }
      hide GroupStep;
    }
  }

  lemma SetsAfterGroupStep(users: set<UserID>, s: G.Graph, self: UserID, c: Command, u: UserID, g: GroupID)
    requires G.Inv(users, s) && self in users && !IsFriendCommand(c) && !c.Register?
    ensures G.ListsGroup(GroupStep(users, s, self, c).graph.groups, u, g) <==>
              || G.ListsGroup(s.groups, u, g)
              || (c == CreateGroup && self == u && g == s.nextRoom)
              || (c == AcceptGroup(g, u) && DecidesOn(s, self, u, g))
  {
    if c.AcceptGroup? || c.RejectGroup? {
      Decided(users, s, self, c);
      if DecidesOn(s, self, c.user, c.group) { AcceptedGroupFields(users, s, c.user, c.group); }
      hide GroupStep;
    }
  }

  /** A group command that is not refused beforehand. */
  predicate IsGroupStep(s: State, executor: UserID, c: Command) {
    executor in s.users && !c.Register? && !IsFriendCommand(c) && !TargetMissing(s, c)
  }

  /** The commands that leave all groups alone; a new user's group set is empty. */
  lemma GroupsUntouched(s: State, executor: UserID, c: Command, u: UserID, g: GroupID)
    requires Inv(s) && !IsGroupStep(s, executor, c)
    ensures var t := Execute(s, executor, c).state.groups;
      && t.pending == s.groups.pending && t.rooms == s.groups.rooms && t.founder == s.groups.founder
      && t.nextRoom == s.groups.nextRoom
      && (G.ListsGroup(t.groups, u, g) <==> G.ListsGroup(s.groups.groups, u, g))
  {
    hide FriendStep, GroupStep, F.Inv;
  }

  lemma NoGroupStep(s: State, executor: UserID, c: Command, u: UserID, g: GroupID)
    requires Inv(s) && !IsGroupStep(s, executor, c)
    ensures !ConsumesGroup(s, executor, c, u, g) && !AcceptsMember(s, executor, c, u, g)
    ensures !Founds(s, executor, c, u, g) && !Dissolves(s, executor, c, g)
    ensures !(Leaves(executor, c, u, g) && G.IsMember(s.groups.rooms, g, u))
  {
    hide F.Inv;
  }

  lemma NoGroupApplication(s: State, executor: UserID, c: Command, u: UserID, g: GroupID)
    requires !IsGroupStep(s, executor, c)
    ensures !AppliesToGroup(s, executor, c, u, g)
  {
    hide FriendStep, GroupStep;
  }

  lemma ExecutesGroupStep(s: State, executor: UserID, c: Command)
    requires IsGroupStep(s, executor, c)
    ensures var r := GroupStep(s.users, s.groups, executor, c);
      Execute(s, executor, c) == SocialGraph.Step(s.(groups := r.graph), r.outcome)
  {
    hide GroupStep;
  }

  lemma PendingGroupAfter(s: State, executor: UserID, c: Command, u: UserID, g: GroupID)
    requires Inv(s)
    ensures G.GroupKey(u, g) in Execute(s, executor, c).state.groups.pending <==>
              || AppliesToGroup(s, executor, c, u, g)
              || (G.GroupKey(u, g) in s.groups.pending && !ConsumesGroup(s, executor, c, u, g))
  {
    hide GroupStep, FriendStep, G.Inv, F.Inv, Execute;
    if IsGroupStep(s, executor, c) {
      ExecutesGroupStep(s, executor, c);
      PendingAfterGroupStep(s.users, s.groups, executor, c, u, g);
    } else {
      NoGroupApplication(s, executor, c, u, g);
      GroupsUntouched(s, executor, c, u, g);
      NoGroupStep(s, executor, c, u, g);
    }
  }

  /** Exactly who is a member: the founder of a new group, who is accepted, and who was one and stays. */
  lemma MemberAfter(s: State, executor: UserID, c: Command, u: UserID, g: GroupID)
    requires Inv(s)
    ensures G.IsMember(Execute(s, executor, c).state.groups.rooms, g, u) <==>
              || Founds(s, executor, c, u, g) || AcceptsMember(s, executor, c, u, g)
              || (G.IsMember(s.groups.rooms, g, u) && !Leaves(executor, c, u, g) && !Dissolves(s, executor, c, g))
  {
    hide GroupStep, FriendStep, G.Inv, F.Inv, Execute;
    if IsGroupStep(s, executor, c) {
      ExecutesGroupStep(s, executor, c);
      MemberAfterGroupStep(s.users, s.groups, executor, c, u, g);
    } else {
      GroupsUntouched(s, executor, c, u, g);
      NoGroupStep(s, executor, c, u, g);
    }
  }

  /** Exactly which groups live, who founded them, and how they are numbered. */
  lemma LiveAfter(s: State, executor: UserID, c: Command, g: GroupID)
    requires Inv(s)
    ensures var t := Execute(s, executor, c).state.groups;
            var founds := c == CreateGroup && executor in s.users;
      && (g in t.rooms <==>
            Founds(s, executor, c, executor, g) || (g in s.groups.rooms && !Dissolves(s, executor, c, g)))
      && t.founder == (if founds then s.groups.founder[s.groups.nextRoom := executor] else s.groups.founder)
      && t.nextRoom == s.groups.nextRoom + (if founds then 1 else 0)
  {
    hide GroupStep, FriendStep, G.Inv, F.Inv, Execute;
    if IsGroupStep(s, executor, c) {
      ExecutesGroupStep(s, executor, c);
      RoomsAfterGroupStep(s.users, s.groups, executor, c, g);
    } else {
      GroupsUntouched(s, executor, c, executor, g);
      NoGroupStep(s, executor, c, executor, g);
    }
  }

  /** A group set gains a group by founding it or by being accepted, and never loses one. */
  lemma GroupSetAfter(s: State, executor: UserID, c: Command, u: UserID, g: GroupID)
    requires Inv(s)
    ensures G.ListsGroup(Execute(s, executor, c).state.groups.groups, u, g) <==>
              || G.ListsGroup(s.groups.groups, u, g)
              || Founds(s, executor, c, u, g) || AcceptsMember(s, executor, c, u, g)
  {
    hide GroupStep, FriendStep, G.Inv, F.Inv, Execute;
    if IsGroupStep(s, executor, c) {
      ExecutesGroupStep(s, executor, c);
      SetsAfterGroupStep(s.users, s.groups, executor, c, u, g);
    } else {
      GroupsUntouched(s, executor, c, u, g);
      NoGroupStep(s, executor, c, u, g);
    }
  }

  // ---------------------------------------------------------------- answers

  /** What the session is told, for each command, in terms of what the server keeps. */
  ghost function Answer(s: State, x: UserID, c: Command): Outcome {
    match c
    case Register(emailOk) => if emailOk then Registered(s.nextUser) else Returned(false)
    case AddFriend(b) =>
      Answered(s, x, b in s.users,
               Returned(x != b && F.PairOf(x, b) !in s.friends.index && F.FriendKey(x, b) !in s.friends.pending))
    case AcceptFriend(b) => Answered(s, x, b in s.users, Returned(true))
    case RejectFriend(b) => Answered(s, x, b in s.users, Returned(F.FriendKey(b, x) in s.friends.pending))
    case RemoveFriend(b) => Answered(s, x, b in s.users, Returned(F.IsFriend(s.friends.friends, x, b)))
    case SendFriendMessage(b) =>
      Answered(s, x, b in s.users,
               if F.IsFriend(s.friends.friends, x, b) && F.PairOf(x, b) in s.friends.index
               then Delivered(s.friends.index[F.PairOf(x, b)], {x, b}) else Returned(false))
    case CreateGroup => if x in s.users then Created(s.groups.nextRoom) else Returned(false)
    case AddGroup(g) =>
      Answered(s, x, g in s.groups.rooms,
               Returned(!G.IsMember(s.groups.rooms, g, x) && G.GroupKey(x, g) !in s.groups.pending))
    case AcceptGroup(g, u) =>
      Answered(s, x, true,
               if !Administers(s, x, g) || G.IsMember(s.groups.rooms, g, u) then Returned(false)
               else if G.GroupKey(u, g) in s.groups.pending then Returned(true) else Threw(VerificationNotExisted))
    case RejectGroup(g, u) =>
      Answered(s, x, true, Returned(Administers(s, x, g) && G.GroupKey(u, g) in s.groups.pending))
    case RemoveGroup(g) => Answered(s, x, true, Returned(Administers(s, x, g)))
    case LeaveGroup(g) => Answered(s, x, true, Returned(g in s.groups.rooms && !Administers(s, x, g)))
    case SendGroupMessage(g) =>
      Answered(s, x, g in s.groups.rooms,
               if G.IsMember(s.groups.rooms, g, x) then Delivered(g, s.groups.rooms[g].members)
               else if G.ListsGroup(s.groups.groups, x, g) then Dropped else Returned(false))
  }

  /** The target is looked up before the executor. */
  function Answered(s: State, x: UserID, found: bool, answer: Outcome): Outcome {
    if !found then Returned(false) else if x !in s.users then Threw(UserNotExisted) else answer
  }

  /** The founder of a live group stays its administrator. */
  predicate Administers(s: State, x: UserID, g: GroupID) {
    g in s.groups.rooms && g in s.groups.founder && s.groups.founder[g] == x
  }

  lemma FriendAnswers(s: State, x: UserID, c: Command)
    requires Inv(s) && x in s.users && IsFriendCommand(c) && c.user in s.users
    ensures Execute(s, x, c).outcome == Answer(s, x, c)
  {
    hide G.Inv;
    if c.SendFriendMessage? { ReachesFriend(s.users, s.friends, x, c.user); }
  }

  lemma GroupAnswers(s: State, x: UserID, c: Command)
    requires Inv(s) && IsGroupStep(s, x, c)
    ensures Execute(s, x, c).outcome == Answer(s, x, c)
  {
    hide F.Inv;
    ExecutesGroupStep(s, x, c);
    match c
    case AddGroup(g) =>
      if !G.IsMember(s.groups.rooms, g, x) && G.GroupKey(x, g) !in s.groups.pending {
        G.ApplyInv(s.users, s.groups, x, g);
      }
    case AcceptGroup(g, u) =>
      if DecidesOn(s.groups, x, u, g) { G.AcceptInv(s.users, s.groups, u, g); }
    case RejectGroup(g, u) =>
      if DecidesOn(s.groups, x, u, g) { G.RejectInv(s.users, s.groups, u, g); }
    case _ =>
  }

  /** Every command of every session is answered by this table. */
  lemma AnswersExactly(s: State, x: UserID, c: Command)
    requires Inv(s)
    ensures Execute(s, x, c).outcome == Answer(s, x, c)
  {
    if x in s.users && IsFriendCommand(c) && c.user in s.users {
      FriendAnswers(s, x, c);
    } else if IsGroupStep(s, x, c) {
      GroupAnswers(s, x, c);
    } else {
      hide FriendStep, GroupStep, F.Inv, G.Inv;
    }
  }
}
