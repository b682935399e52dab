/** Whole runs of the server: where friendships and memberships come from, and what never comes back. */
module SocialRuns {
  import opened Identifiers
  import opened SocialGraph
  import opened SocialCommands
  import F = FriendGraph
  import G = GroupGraph

  datatype Call = Call(executor: UserID, command: Command)

  /** The state after a run, which is a sequence of commands of any sessions. */
  ghost function After(run: seq<Call>): State {
    if run == [] then INITIAL
    else
      var last := run[|run| - 1];
      Execute(After(run[..|run| - 1]), last.executor, last.command).state
  }

  lemma {:induction false} AfterInv(run: seq<Call>)
    ensures Inv(After(run))
  {
    if run == [] {
      InitialInv();
    } else {
      AfterInv(run[..|run| - 1]);
      var last := run[|run| - 1];
      ExecuteInv(After(run[..|run| - 1]), last.executor, last.command);
    }
  }

  lemma OneMore(run: seq<Call>, i: nat)
    requires i < |run|
    ensures After(run[..i + 1]) == Execute(After(run[..i]), run[i].executor, run[i].command).state
  {
    assert run[..i + 1][..i] == run[..i];
  }

  // ---------------------------------------------------------------- users

  /** Number of successful registrations. */
  function Registrations(run: seq<Call>): nat {
    if run == [] then 0
    else Registrations(run[..|run| - 1]) + if run[|run| - 1].command == Register(true) then 1 else 0
  }

  /** The users are those who registered, numbered one after the other. */
  lemma {:induction false} UsersExactly(run: seq<Call>, u: UserID)
    ensures u in After(run).users <==> 10000 <= u < 10000 + Registrations(run)
    ensures After(run).nextUser == 10000 + Registrations(run)
  {
    if run != [] {
      var n, last := |run| - 1, run[|run| - 1];
      UsersExactly(run[..n], u);
      AfterInv(run[..n]);
      UsersAfter(After(run[..n]), last.executor, last.command);
      hide Execute, Inv;
    }
  }

  // ---------------------------------------------------------------- friend applications and friendships

  ghost predicate AppliesAt(run: seq<Call>, i: nat, a: UserID, b: UserID) {
    i < |run| && Applies(After(run[..i]), run[i].executor, run[i].command, a, b)
  }

  ghost predicate AcceptsAt(run: seq<Call>, i: nat, a: UserID, b: UserID) {
    i < |run| && Accepts(After(run[..i]), run[i].executor, run[i].command, a, b)
  }

  ghost predicate ConsumesAt(run: seq<Call>, i: nat, a: UserID, b: UserID) {
    i < |run| && Consumes(After(run[..i]), run[i].executor, run[i].command, a, b)
  }

  /** `a` applied to `b` in step `i`, and nothing answered that before step `n`. */
  ghost predicate OpenSince(run: seq<Call>, i: nat, n: nat, a: UserID, b: UserID) {
    i < n && AppliesAt(run, i, a, b) && (forall k :: i < k < n ==> !ConsumesAt(run, k, a, b))
  }

  lemma PendingStep(run: seq<Call>, m: nat, a: UserID, b: UserID)
    requires m < |run|
    ensures F.FriendKey(a, b) in After(run[..m + 1]).friends.pending <==>
              AppliesAt(run, m, a, b) ||
              (F.FriendKey(a, b) in After(run[..m]).friends.pending && !ConsumesAt(run, m, a, b))
  {
    OneMore(run, m);
    AfterInv(run[..m]);
    PendingAfter(After(run[..m]), run[m].executor, run[m].command, a, b);
  }

  /** In step `j` the two become friends: one of them accepts an application of the other. */
  ghost predicate BefriendedAt(run: seq<Call>, j: nat, a: UserID, b: UserID) {
    AcceptsAt(run, j, a, b) || AcceptsAt(run, j, b, a)
  }

  ghost predicate UnfriendsAt(run: seq<Call>, i: nat) {
    i < |run| && Unfriends(After(run[..i]), run[i].executor, run[i].command)
  }

  /** In step `k`, `a` unfriends `b`. */
  ghost predicate PartsAt(run: seq<Call>, k: nat, a: UserID, b: UserID) {
    UnfriendsAt(run, k) && run[k].executor == a && run[k].command.user == b
  }

  lemma FriendStepAt(run: seq<Call>, m: nat, a: UserID, b: UserID)
    requires m < |run|
    ensures F.IsFriend(After(run[..m + 1]).friends.friends, a, b) <==>
              || BefriendedAt(run, m, a, b)
              || (F.IsFriend(After(run[..m]).friends.friends, a, b) && !PartsAt(run, m, a, b))
  {
    OneMore(run, m);
    AfterInv(run[..m]);
    hide Execute, Inv, After;
    FriendAfter(After(run[..m]), run[m].executor, run[m].command, a, b);
  }

  lemma StillOpen(run: seq<Call>, i: nat, n: nat, a: UserID, b: UserID)
    requires 0 < n && OpenSince(run, i, n - 1, a, b) && !ConsumesAt(run, n - 1, a, b)
    ensures OpenSince(run, i, n, a, b)
  {
  }

  /** An application is pending only because it was sent and has not been answered since. */
  lemma {:induction false} PendingSince(run: seq<Call>, n: nat, a: UserID, b: UserID) returns (i: nat)
    requires n <= |run| && F.FriendKey(a, b) in After(run[..n]).friends.pending
    ensures OpenSince(run, i, n, a, b)
  {
    assert n > 0 by { assert run[..0] == []; }
    PendingStep(run, n - 1, a, b);
    if AppliesAt(run, n - 1, a, b) {
      i := n - 1;
    } else {
      i := PendingSince(run, n - 1, a, b);
      StillOpen(run, i, n, a, b);
    }
  }

  /** `x` applied to `y` in step `i`, and `y` accepted just that application in the later step `j`. */
  ghost predicate Befriend(run: seq<Call>, i: nat, j: nat, x: UserID, y: UserID) {
    OpenSince(run, i, j, x, y) && AcceptsAt(run, j, x, y)
  }

  /** Whoever is a friend got there by an application in one direction and its acceptance by the other user. */
  lemma {:induction false} FriendshipHasOrigin(run: seq<Call>, n: nat, a: UserID, b: UserID)
    returns (i: nat, j: nat)
    requires n <= |run| && F.IsFriend(After(run[..n]).friends.friends, a, b)
    ensures j < n && (Befriend(run, i, j, a, b) || Befriend(run, i, j, b, a))
  {
    assert n > 0;
    var m := n - 1;
    FriendStepAt(run, m, a, b);
    j := m;
    if AcceptsAt(run, m, a, b) {
      i := PendingSince(run, m, a, b);
    } else if AcceptsAt(run, m, b, a) {
      i := PendingSince(run, m, b, a);
    } else {
      i, j := FriendshipHasOrigin(run, m, a, b);
    }
  }

  /** Between two answers to the same application it was sent once more. */
  lemma AnsweredOnce(run: seq<Call>, i: nat, j: nat, a: UserID, b: UserID) returns (k: nat)
    requires i < j && ConsumesAt(run, i, a, b) && ConsumesAt(run, j, a, b)
    ensures i < k < j && AppliesAt(run, k, a, b)
  {
    k := PendingSince(run, j, a, b);
  }

  lemma RoomStep(run: seq<Call>, m: nat, a: UserID, b: UserID)
    requires m < |run|
    ensures F.HasPrivateRoom(After(run[..m + 1]).friends, a, b) <==>
              F.HasPrivateRoom(After(run[..m]).friends, a, b) || BefriendedAt(run, m, a, b)
  {
    OneMore(run, m);
    AfterInv(run[..m]);
    hide Execute, Inv, After;
    RoomAfter(After(run[..m]), run[m].executor, run[m].command, a, b);
  }

  /** Two users have a private room exactly if one accepted an application of the other at some step. */
  lemma {:induction false} RoomIff(run: seq<Call>, n: nat, a: UserID, b: UserID)
    requires n <= |run|
    ensures F.HasPrivateRoom(After(run[..n]).friends, a, b) <==> exists j: nat :: j < n && BefriendedAt(run, j, a, b)
  {
    if n > 0 {
      hide BefriendedAt, F.HasPrivateRoom, After;
      RoomIff(run, n - 1, a, b);
      RoomStep(run, n - 1, a, b);
    } else {
      assert run[..0] == [];
    }
  }

  /** The two have a private room and no open application. */
  predicate Settled(s: State, a: UserID, b: UserID) {
    && F.HasPrivateRoom(s.friends, a, b)
    && F.FriendKey(a, b) !in s.friends.pending && F.FriendKey(b, a) !in s.friends.pending
  }

  lemma RoomsStayInStep(users: set<UserID>, f: F.Graph, self: UserID, c: Command)
    requires F.Inv(users, f) && self in users && IsFriendCommand(c)
    ensures var t := FriendStep(users, f, self, c).graph;
      && f.index.Keys <= t.index.Keys
      && (forall r :: r in f.rooms ==> r in t.rooms && t.rooms[r] == f.rooms[r])
      && (forall r :: r in t.rooms && r !in f.rooms ==> r == f.nextRoom)
  {
    if c.AcceptFriend? && F.FriendKey(c.user, self) in f.pending {
      F.AcceptApplicationFields(users, f, c.user, self);
    }
  }

  /** Private rooms and entries of the pair index are never withdrawn, and a new room has an unused id. */
  lemma RoomsStay(s: State, executor: UserID, c: Command)
    requires Inv(s)
    ensures var t := Execute(s, executor, c).state.friends;
      && s.friends.index.Keys <= t.index.Keys
      && (forall r :: r in s.friends.rooms ==> r in t.rooms && t.rooms[r] == s.friends.rooms[r])
      && (forall r :: r in t.rooms && r !in s.friends.rooms ==> r == s.friends.nextRoom)
  {
    hide FriendStep, GroupStep, G.Inv, F.Inv;
    if executor in s.users && IsFriendCommand(c) {
      RoomsStayInStep(s.users, s.friends, executor, c);
    }
  }

  lemma SettledStep(s: State, executor: UserID, c: Command, a: UserID, b: UserID)
    requires Inv(s) && Settled(s, a, b)
    ensures var t := Execute(s, executor, c).state;
      Settled(t, a, b) && (F.IsFriend(t.friends.friends, a, b) ==> F.IsFriend(s.friends.friends, a, b))
  {
    hide Execute, Inv;
    FriendAfter(s, executor, c, a, b);
    PendingAfter(s, executor, c, a, b);
    PendingAfter(s, executor, c, b, a);
    RoomsStay(s, executor, c);
    assert F.PairOf(a, b) == F.PairOf(b, a);
  }

  /**
    With a private room, users who are not friends can become friends again exactly if an application of one of them
    to the other is still open.
  */
  lemma ReunitedIff(run: seq<Call>, a: UserID, b: UserID)
    requires F.HasPrivateRoom(After(run).friends, a, b) && !F.IsFriend(After(run).friends.friends, a, b)
    ensures (exists more :: F.IsFriend(After(run + more).friends.friends, a, b)) <==>
              || F.FriendKey(a, b) in After(run).friends.pending || F.FriendKey(b, a) in After(run).friends.pending
  {
    var s := After(run);
    if F.FriendKey(a, b) in s.friends.pending {
      AcceptedAtOnce(run, a, b, a, b);
    } else if F.FriendKey(b, a) in s.friends.pending {
      AcceptedAtOnce(run, b, a, a, b);
    } else {
      forall more ensures !F.IsFriend(After(run + more).friends.friends, a, b) {
        assert (run + more)[..|run|] == run && (run + more)[..|run + more|] == run + more;
        hide After, F.IsFriend, F.HasPrivateRoom;
        PartedForever(run + more, |run|, |run + more|, a, b);
      }
    }
  }

  lemma AcceptedAtOnce(run: seq<Call>, x: UserID, y: UserID, a: UserID, b: UserID)
    requires F.FriendKey(x, y) in After(run).friends.pending && ((x == a && y == b) || (x == b && y == a))
    ensures exists more :: F.IsFriend(After(run + more).friends.friends, a, b)
  {
    var more := [Call(y, AcceptFriend(x))];
    AfterInv(run);
    assert (run + more)[..|run|] == run && (run + more)[..|run + more|] == run + more;
    OneMore(run + more, |run|);
    hide After, Execute, Inv;
    FriendAfter(After(run), y, AcceptFriend(x), a, b);
    assert F.IsFriend(After(run + more).friends.friends, a, b);
  }

  /** Friends who part stay parted: once a pair is settled, no friend entry of it ever comes back. */
  lemma {:induction false} PartedForever(run: seq<Call>, m: nat, n: nat, a: UserID, b: UserID)
    requires m <= n <= |run| && Settled(After(run[..m]), a, b)
    ensures Settled(After(run[..n]), a, b)
    ensures F.IsFriend(After(run[..n]).friends.friends, a, b) ==> F.IsFriend(After(run[..m]).friends.friends, a, b)
    decreases n
  {
    if m < n {
      var k := n - 1;
      PartedForever(run, m, k, a, b);
      OneMore(run, k);
      AfterInv(run[..k]);
      hide Execute, Inv, After, Settled;
      SettledStep(After(run[..k]), run[k].executor, run[k].command, a, b);
    }
  }

  /** `a` unfriended `b` after step `j` and before step `n`. */
  ghost predicate Parted(run: seq<Call>, j: nat, n: nat, a: UserID, b: UserID) {
    exists k: nat :: j < k < n && PartsAt(run, k, a, b)
  }

  ghost predicate FriendSince(run: seq<Call>, j: nat, n: nat, a: UserID, b: UserID) {
    j < n && BefriendedAt(run, j, a, b) && !Parted(run, j, n, a, b)
  }

  /** At some step before `n` the two became friends, and `a` has not unfriended `b` since. */
  ghost predicate StillFriends(run: seq<Call>, n: nat, a: UserID, b: UserID) {
    exists j: nat :: FriendSince(run, j, n, a, b)
  }

  lemma StillFriendsStep(run: seq<Call>, n: nat, a: UserID, b: UserID)
    ensures StillFriends(run, n + 1, a, b) <==>
              BefriendedAt(run, n, a, b) || (StillFriends(run, n, a, b) && !PartsAt(run, n, a, b))
  {
    hide BefriendedAt, PartsAt;
    if BefriendedAt(run, n, a, b) { assert FriendSince(run, n, n + 1, a, b); }
    if StillFriends(run, n, a, b) && !PartsAt(run, n, a, b) {
      var j: nat :| FriendSince(run, j, n, a, b);
      assert FriendSince(run, j, n + 1, a, b);
    }
    if StillFriends(run, n + 1, a, b) {
      var j: nat :| FriendSince(run, j, n + 1, a, b);
      assert j < n ==> FriendSince(run, j, n, a, b);
    }
  }

  /** A friend entry exists exactly if the two became friends at some step and its owner has not unfriended since. */
  lemma {:induction false} FriendsIff(run: seq<Call>, n: nat, a: UserID, b: UserID)
    requires n <= |run|
    ensures F.IsFriend(After(run[..n]).friends.friends, a, b) <==> StillFriends(run, n, a, b)
  {
    if n > 0 {
      hide BefriendedAt, PartsAt, After, F.IsFriend, StillFriends;
      FriendsIff(run, n - 1, a, b);
      FriendStepAt(run, n - 1, a, b);
      StillFriendsStep(run, n - 1, a, b);
    } else {
      assert run[..0] == [];
    }
  }

  ghost predicate LastBefriended(run: seq<Call>, j: nat, n: nat, a: UserID, b: UserID) {
    j < n && BefriendedAt(run, j, a, b) && forall k :: j < k < n ==> !BefriendedAt(run, k, a, b)
  }

  lemma {:induction false} LastBefriending(run: seq<Call>, i: nat, n: nat, a: UserID, b: UserID) returns (j: nat)
    requires i < n && BefriendedAt(run, i, a, b)
    ensures i <= j && LastBefriended(run, j, n, a, b)
    decreases n
  {
    hide BefriendedAt;
    j := n - 1;
    if !BefriendedAt(run, n - 1, a, b) { j := LastBefriending(run, i, n - 1, a, b); }
  }

  lemma FriendsSinceLast(run: seq<Call>, j: nat, n: nat, a: UserID, b: UserID)
    requires n <= |run| && LastBefriended(run, j, n, a, b)
    ensures F.IsFriend(After(run[..n]).friends.friends, a, b) <==> !Parted(run, j, n, a, b)
  {
    FriendsIff(run, n, a, b);
    hide BefriendedAt, PartsAt, After, F.IsFriend;
    if StillFriends(run, n, a, b) {
      var i: nat :| FriendSince(run, i, n, a, b);
      assert i <= j;
    } else {
      assert !FriendSince(run, j, n, a, b);
    }
  }

  /** Each unfriending since the last time the two became friends was answered by one in the other direction. */
  ghost predicate Answered(run: seq<Call>, n: nat, a: UserID, b: UserID) {
    forall j: nat :: LastBefriended(run, j, n, a, b) ==> (Parted(run, j, n, a, b) <==> Parted(run, j, n, b, a))
  }

  lemma PairSymmetricIff(run: seq<Call>, n: nat, a: UserID, b: UserID)
    requires n <= |run|
    ensures (F.IsFriend(After(run[..n]).friends.friends, a, b) <==> F.IsFriend(After(run[..n]).friends.friends, b, a))
            <==> Answered(run, n, a, b)
  {
    FriendsIff(run, n, a, b);
    FriendsIff(run, n, b, a);
    assert forall j: nat :: BefriendedAt(run, j, a, b) <==> BefriendedAt(run, j, b, a);
    hide BefriendedAt, After, Parted, F.IsFriend;
    if exists i: nat :: i < n && BefriendedAt(run, i, a, b) {
      var i: nat :| i < n && BefriendedAt(run, i, a, b);
      var j := LastBefriending(run, i, n, a, b);
      assert forall k: nat :: LastBefriended(run, k, n, a, b) ==> k == j;
      FriendsSinceLast(run, j, n, a, b);
      FriendsSinceLast(run, j, n, b, a);
    }
  }

  /** Friendship is symmetric exactly if every unfriending was answered, as long as the two did not befriend again. */
  lemma SymmetricIff(run: seq<Call>, n: nat)
    requires n <= |run|
    ensures Symmetric(After(run[..n])) <==> forall a, b :: Answered(run, n, a, b)
  {
    var friends := After(run[..n]).friends.friends;
    hide After, F.IsFriend, Answered;
    forall a, b ensures (F.IsFriend(friends, a, b) <==> F.IsFriend(friends, b, a)) <==> Answered(run, n, a, b) {
      PairSymmetricIff(run, n, a, b);
    }
  }

  /** In particular after every run in which nobody was unfriended. */
  lemma SymmetricRun(run: seq<Call>, n: nat)
    requires n <= |run| && forall i :: 0 <= i < n ==> !UnfriendsAt(run, i)
    ensures Symmetric(After(run[..n]))
  {
    hide After, UnfriendsAt, LastBefriended, Symmetric;
    SymmetricIff(run, n);
  }

  lemma NoFriendsAtFirst(run: seq<Call>)
    ensures Symmetric(After(run[..0])) && AllListed(After(run[..0]).friends)
  {
    assert run[..0] == [];
  }

  ghost predicate CrossesAt(run: seq<Call>, i: nat) {
    i < |run| && Crosses(After(run[..i]), run[i].executor, run[i].command)
  }

  /** All pending applications are on both lists after every run in which no two applications crossed. */
  lemma {:induction false} AllListedRun(run: seq<Call>, n: nat)
    requires n <= |run| && forall i :: 0 <= i < n ==> !CrossesAt(run, i)
    ensures AllListed(After(run[..n]).friends)
  {
    if n > 0 {
      AllListedRun(run, n - 1);
      OneMore(run, n - 1);
      AfterInv(run[..n - 1]);
      hide Execute, Inv, After, AllListed, Crosses;
      AllListedKeptIff(After(run[..n - 1]), run[n - 1].executor, run[n - 1].command);
      assert !CrossesAt(run, n - 1);
    } else {
      NoFriendsAtFirst(run);
    }
  }

  // ---------------------------------------------------------------- which applications are on both lists

  /** `a` applied in step `i` while no application of `b` was shown, and neither direction was answered since. */
  ghost predicate ShownSince(run: seq<Call>, i: nat, n: nat, a: UserID, b: UserID) {
    && OpenSince(run, i, n, a, b) && !Shown(After(run[..i]).friends, b, a)
    && forall k :: i < k < n ==> !ConsumesAt(run, k, b, a)
  }

  lemma ShownStep(run: seq<Call>, m: nat, a: UserID, b: UserID)
    requires m < |run|
    ensures Shown(After(run[..m + 1]).friends, a, b) <==>
              || (AppliesAt(run, m, a, b) && !Shown(After(run[..m]).friends, b, a))
              || (Shown(After(run[..m]).friends, a, b) && !ConsumesAt(run, m, a, b) && !ConsumesAt(run, m, b, a))
  {
    OneMore(run, m);
    AfterInv(run[..m]);
    hide Execute, Inv, After, Shown;
    ShownAfter(After(run[..m]), run[m].executor, run[m].command, a, b);
  }

  /** That is so for some step before `n`. */
  ghost predicate StillShown(run: seq<Call>, n: nat, a: UserID, b: UserID) {
    exists i: nat :: ShownSince(run, i, n, a, b)
  }

  lemma StillShownStep(run: seq<Call>, n: nat, a: UserID, b: UserID)
    requires n < |run|
    ensures StillShown(run, n + 1, a, b) <==>
              || (AppliesAt(run, n, a, b) && !Shown(After(run[..n]).friends, b, a))
              || (StillShown(run, n, a, b) && !ConsumesAt(run, n, a, b) && !ConsumesAt(run, n, b, a))
  {
    hide AppliesAt, ConsumesAt, Shown, After;
    if AppliesAt(run, n, a, b) && !Shown(After(run[..n]).friends, b, a) { assert ShownSince(run, n, n + 1, a, b); }
    if StillShown(run, n, a, b) && !ConsumesAt(run, n, a, b) && !ConsumesAt(run, n, b, a) {
      var i: nat :| ShownSince(run, i, n, a, b);
      assert ShownSince(run, i, n + 1, a, b);
    }
    if StillShown(run, n + 1, a, b) {
      var i: nat :| ShownSince(run, i, n + 1, a, b);
      assert i < n ==> ShownSince(run, i, n, a, b);
    }
  }

  /** Both lists show an application exactly if it was sent, unanswered, while they did not show the opposite one. */
  lemma {:induction false} ShownIff(run: seq<Call>, n: nat, a: UserID, b: UserID)
    requires n <= |run|
    ensures Shown(After(run[..n]).friends, a, b) <==> StillShown(run, n, a, b)
  {
    if n > 0 {
      hide AppliesAt, ConsumesAt, After, Shown, StillShown;
      ShownIff(run, n - 1, a, b);
      ShownStep(run, n - 1, a, b);
      StillShownStep(run, n - 1, a, b);
    } else {
      assert run[..0] == [];
    }
  }

  lemma {:induction false} StillPending(run: seq<Call>, i: nat, n: nat, a: UserID, b: UserID)
    requires n <= |run| && OpenSince(run, i, n, a, b)
    ensures F.FriendKey(a, b) in After(run[..n]).friends.pending
    decreases n
  {
    hide AppliesAt, ConsumesAt, After;
    PendingStep(run, n - 1, a, b);
    if i < n - 1 { StillPending(run, i, n - 1, a, b); }
  }

  /** An application that is open has been sent just once since it was answered. */
  lemma OpenOnce(run: seq<Call>, i: nat, j: nat, n: nat, a: UserID, b: UserID)
    requires n <= |run| && OpenSince(run, i, n, a, b) && OpenSince(run, j, n, a, b)
    ensures i == j
  {
    if i < j {
      AppliesAnew(run, i, j, n, a, b);
    } else if j < i {
      AppliesAnew(run, j, i, n, a, b);
    }
  }

  lemma AppliesAnew(run: seq<Call>, i: nat, j: nat, n: nat, a: UserID, b: UserID)
    requires n <= |run| && OpenSince(run, i, n, a, b) && i < j < n
    ensures !AppliesAt(run, j, a, b)
  {
    assert OpenSince(run, i, j, a, b);
    StillPending(run, i, j, a, b);
    AfterInv(run[..j]);
    hide After, Execute, Inv;
    PendingAfter(After(run[..j]), run[j].executor, run[j].command, a, b);
  }

  /** All pending applications are on both lists exactly if each was sent when the opposite one was not shown. */
  lemma AllListedIff(run: seq<Call>, n: nat)
    requires n <= |run|
    ensures AllListed(After(run[..n]).friends) <==>
              forall i: nat, a, b :: OpenSince(run, i, n, a, b) ==> ShownSince(run, i, n, a, b)
  {
    var f := After(run[..n]).friends;
    hide After, AppliesAt, ConsumesAt;
    if AllListed(f) {
      forall i: nat, a, b | OpenSince(run, i, n, a, b) ensures ShownSince(run, i, n, a, b) {
        StillPending(run, i, n, a, b);
        var k := F.FriendKey(a, b);
        assert Shown(f, k.applicator, k.controller);
        ShownIff(run, n, a, b);
        var j: nat :| ShownSince(run, j, n, a, b);
        OpenOnce(run, i, j, n, a, b);
      }
    }
    if forall i: nat, a, b :: OpenSince(run, i, n, a, b) ==> ShownSince(run, i, n, a, b) {
      forall k | k in f.pending ensures Shown(f, k.applicator, k.controller) {
        assert k == F.FriendKey(k.applicator, k.controller);
        var i := PendingSince(run, n, k.applicator, k.controller);
        assert ShownSince(run, i, n, k.applicator, k.controller);
        ShownIff(run, n, k.applicator, k.controller);
      }
    }
  }

  // ---------------------------------------------------------------- group applications and memberships

  ghost predicate AppliesToGroupAt(run: seq<Call>, i: nat, u: UserID, g: GroupID) {
    i < |run| && AppliesToGroup(After(run[..i]), run[i].executor, run[i].command, u, g)
  }

  ghost predicate ConsumesGroupAt(run: seq<Call>, i: nat, u: UserID, g: GroupID) {
    i < |run| && ConsumesGroup(After(run[..i]), run[i].executor, run[i].command, u, g)
  }

  ghost predicate AcceptsMemberAt(run: seq<Call>, i: nat, u: UserID, g: GroupID) {
    i < |run| && AcceptsMember(After(run[..i]), run[i].executor, run[i].command, u, g)
  }

  ghost predicate FoundsAt(run: seq<Call>, i: nat, u: UserID, g: GroupID) {
    i < |run| && Founds(After(run[..i]), run[i].executor, run[i].command, u, g)
  }

  ghost predicate OpenAtGroupSince(run: seq<Call>, i: nat, n: nat, u: UserID, g: GroupID) {
    i < n && AppliesToGroupAt(run, i, u, g) && (forall k :: i < k < n ==> !ConsumesGroupAt(run, k, u, g))
  }

  ghost predicate LeavesAt(run: seq<Call>, i: nat, u: UserID, g: GroupID) {
    i < |run| && Leaves(run[i].executor, run[i].command, u, g)
  }

  ghost predicate DissolvesAt(run: seq<Call>, i: nat, g: GroupID) {
    i < |run| && Dissolves(After(run[..i]), run[i].executor, run[i].command, g)
  }

  lemma PendingGroupStep(run: seq<Call>, m: nat, u: UserID, g: GroupID)
    requires m < |run|
    ensures G.GroupKey(u, g) in After(run[..m + 1]).groups.pending <==>
              AppliesToGroupAt(run, m, u, g) ||
              (G.GroupKey(u, g) in After(run[..m]).groups.pending && !ConsumesGroupAt(run, m, u, g))
  {
    OneMore(run, m);
    AfterInv(run[..m]);
    hide Execute, Inv, After;
    PendingGroupAfter(After(run[..m]), run[m].executor, run[m].command, u, g);
  }

  lemma MemberStep(run: seq<Call>, m: nat, u: UserID, g: GroupID)
    requires m < |run|
    ensures G.IsMember(After(run[..m + 1]).groups.rooms, g, u) <==>
              || FoundsAt(run, m, u, g) || AcceptsMemberAt(run, m, u, g)
              || (G.IsMember(After(run[..m]).groups.rooms, g, u) && !LeavesAt(run, m, u, g) && !DissolvesAt(run, m, g))
  {
    OneMore(run, m);
    AfterInv(run[..m]);
    hide Execute, Inv, After;
    MemberAfter(After(run[..m]), run[m].executor, run[m].command, u, g);
  }

  /** The administrator who accepts is the founder. */
  lemma AcceptedByFounder(run: seq<Call>, m: nat, u: UserID, g: GroupID)
    requires AcceptsMemberAt(run, m, u, g)
    ensures g in After(run[..m]).groups.founder && run[m].executor == After(run[..m]).groups.founder[g]
  {
    AfterInv(run[..m]);
    hide After, F.Inv;
  }

  lemma StillOpenAtGroup(run: seq<Call>, i: nat, n: nat, u: UserID, g: GroupID)
    requires 0 < n && OpenAtGroupSince(run, i, n - 1, u, g) && !ConsumesGroupAt(run, n - 1, u, g)
    ensures OpenAtGroupSince(run, i, n, u, g)
  {
  }

  lemma {:induction false} PendingAtGroupSince(run: seq<Call>, n: nat, u: UserID, g: GroupID) returns (i: nat)
    requires n <= |run| && G.GroupKey(u, g) in After(run[..n]).groups.pending
    ensures OpenAtGroupSince(run, i, n, u, g)
  {
    assert n > 0 by { assert run[..0] == []; }
    PendingGroupStep(run, n - 1, u, g);
    if AppliesToGroupAt(run, n - 1, u, g) {
      i := n - 1;
    } else {
      i := PendingAtGroupSince(run, n - 1, u, g);
      StillOpenAtGroup(run, i, n, u, g);
    }
  }

  /** `u` applied in step `i`, and the administrator, who is the founder, accepted that in the later step `j`. */
  ghost predicate Join(run: seq<Call>, i: nat, j: nat, u: UserID, g: GroupID) {
    && OpenAtGroupSince(run, i, j, u, g) && AcceptsMemberAt(run, j, u, g)
    && g in After(run[..j]).groups.founder && run[j].executor == After(run[..j]).groups.founder[g]
  }

  /** Whoever is a member founded the group, or applied and was then accepted by its administrator. */
  lemma {:induction false} MembershipHasOrigin(run: seq<Call>, n: nat, u: UserID, g: GroupID)
    returns (i: nat, j: nat)
    requires n <= |run| && G.IsMember(After(run[..n]).groups.rooms, g, u)
    ensures j < n && (FoundsAt(run, j, u, g) || Join(run, i, j, u, g))
  {
    assert n > 0;
    var m := n - 1;
    MemberStep(run, m, u, g);
    i, j := 0, m;
    if AcceptsMemberAt(run, m, u, g) {
      AcceptedByFounder(run, m, u, g);
      i := PendingAtGroupSince(run, m, u, g);
    } else if !FoundsAt(run, m, u, g) {
      i, j := MembershipHasOrigin(run, m, u, g);
    }
  }

  ghost predicate JoinsAt(run: seq<Call>, j: nat, u: UserID, g: GroupID) {
    FoundsAt(run, j, u, g) || AcceptsMemberAt(run, j, u, g)
  }

  /** He joined in step `j` and neither left nor saw the group removed before step `n`. */
  ghost predicate MemberSince(run: seq<Call>, j: nat, n: nat, u: UserID, g: GroupID) {
    j < n && JoinsAt(run, j, u, g) && forall k :: j < k < n ==> !LeavesAt(run, k, u, g) && !DissolvesAt(run, k, g)
  }

  ghost predicate StillMember(run: seq<Call>, n: nat, u: UserID, g: GroupID) {
    exists j: nat :: MemberSince(run, j, n, u, g)
  }

  lemma StillMemberStep(run: seq<Call>, n: nat, u: UserID, g: GroupID)
    ensures StillMember(run, n + 1, u, g) <==>
              || JoinsAt(run, n, u, g)
              || (StillMember(run, n, u, g) && !LeavesAt(run, n, u, g) && !DissolvesAt(run, n, g))
  {
    hide JoinsAt, LeavesAt, DissolvesAt;
    if JoinsAt(run, n, u, g) { assert MemberSince(run, n, n + 1, u, g); }
    if StillMember(run, n, u, g) && !LeavesAt(run, n, u, g) && !DissolvesAt(run, n, g) {
      var j: nat :| MemberSince(run, j, n, u, g);
      assert MemberSince(run, j, n + 1, u, g);
    }
    if StillMember(run, n + 1, u, g) {
      var j: nat :| MemberSince(run, j, n + 1, u, g);
      assert j < n ==> MemberSince(run, j, n, u, g);
    }
  }

  /** A user is a member exactly if he founded the group or was accepted, and has neither left nor lost it since. */
  lemma {:induction false} MembersIff(run: seq<Call>, n: nat, u: UserID, g: GroupID)
    requires n <= |run|
    ensures G.IsMember(After(run[..n]).groups.rooms, g, u) <==> StillMember(run, n, u, g)
  {
    if n > 0 {
      MembersIff(run, n - 1, u, g);
      MemberStep(run, n - 1, u, g);
      assert JoinsAt(run, n - 1, u, g) <==> FoundsAt(run, n - 1, u, g) || AcceptsMemberAt(run, n - 1, u, g);
      hide JoinsAt, LeavesAt, DissolvesAt, FoundsAt, AcceptsMemberAt, G.IsMember, After, StillMember;
      StillMemberStep(run, n - 1, u, g);
    } else {
      assert run[..0] == [];
    }
  }

  // ---------------------------------------------------------------- which groups live

  lemma LiveStep(run: seq<Call>, m: nat, u: UserID, g: GroupID)
    requires m < |run|
    ensures var s, t := After(run[..m]).groups, After(run[..m + 1]).groups;
      && (g in t.rooms <==>
            FoundsAt(run, m, run[m].executor, g) || (g in s.rooms && !DissolvesAt(run, m, g)))
      && (g in t.founder && t.founder[g] == u <==>
            FoundsAt(run, m, u, g) || (g in s.founder && s.founder[g] == u))
  {
    OneMore(run, m);
    AfterInv(run[..m]);
    hide Execute, After, F.Inv;
    LiveAfter(After(run[..m]), run[m].executor, run[m].command, g);
  }

  ghost predicate LiveSince(run: seq<Call>, j: nat, n: nat, g: GroupID) {
    j < n && j < |run| && FoundsAt(run, j, run[j].executor, g) && forall k :: j < k < n ==> !DissolvesAt(run, k, g)
  }

  /** A group lives exactly if it was founded at some step and not removed by its founder since. */
  lemma {:induction false} LiveIff(run: seq<Call>, n: nat, g: GroupID)
    requires n <= |run|
    ensures g in After(run[..n]).groups.rooms <==> exists j: nat :: LiveSince(run, j, n, g)
  {
    if n > 0 {
      var m := n - 1;
      LiveIff(run, m, g);
      LiveStep(run, m, run[m].executor, g);
      hide FoundsAt, DissolvesAt, After;
      if FoundsAt(run, m, run[m].executor, g) { assert LiveSince(run, m, n, g); }
      if g in After(run[..m]).groups.rooms && !DissolvesAt(run, m, g) {
        var j: nat :| LiveSince(run, j, m, g);
        assert LiveSince(run, j, n, g);
      }
      if exists j: nat :: LiveSince(run, j, n, g) {
        var j: nat :| LiveSince(run, j, n, g);
        assert j < m ==> LiveSince(run, j, m, g);
      }
    } else {
      assert run[..0] == [];
    }
  }

  /** Number of groups that were founded, and of friend applications that were accepted. */
  ghost function Foundings(run: seq<Call>): nat {
    if run == [] then 0
    else
      var n, last := |run| - 1, run[|run| - 1];
      Foundings(run[..n]) + if last.command == CreateGroup && last.executor in After(run[..n]).users then 1 else 0
  }

  ghost function Acceptances(run: seq<Call>): nat {
    if run == [] then 0
    else
      var n, last := |run| - 1, run[|run| - 1];
      Acceptances(run[..n]) + if BefriendsAny(After(run[..n]), last.executor, last.command) then 1 else 0
  }

  /** Rooms of either kind are numbered one after the other. */
  lemma {:induction false} RoomsNumbered(run: seq<Call>, r: GroupID)
    ensures r in After(run).groups.founder <==> 10000 <= r < 10000 + Foundings(run)
    ensures After(run).groups.nextRoom == 10000 + Foundings(run)
    ensures r in After(run).friends.rooms <==> 10000 <= r < 10000 + Acceptances(run)
    ensures After(run).friends.nextRoom == 10000 + Acceptances(run)
  {
    if run != [] {
      var n, last := |run| - 1, run[|run| - 1];
      RoomsNumbered(run[..n], r);
      AfterInv(run[..n]);
      LiveAfter(After(run[..n]), last.executor, last.command, r);
      RoomAfter(After(run[..n]), last.executor, last.command, r, r);
      hide Execute, Inv, BefriendsAny;
    }
  }

  lemma {:induction false} FounderIff(run: seq<Call>, n: nat, u: UserID, g: GroupID)
    requires n <= |run|
    ensures var founder := After(run[..n]).groups.founder;
      g in founder && founder[g] == u <==> exists j: nat :: j < n && FoundsAt(run, j, u, g)
  {
    if n > 0 {
      FounderIff(run, n - 1, u, g);
      LiveStep(run, n - 1, u, g);
      hide FoundsAt, After;
    } else {
      assert run[..0] == [];
    }
  }

  lemma GroupSetStep(run: seq<Call>, m: nat, u: UserID, g: GroupID)
    requires m < |run|
    ensures G.ListsGroup(After(run[..m + 1]).groups.groups, u, g) <==>
              G.ListsGroup(After(run[..m]).groups.groups, u, g) || JoinsAt(run, m, u, g)
  {
    OneMore(run, m);
    AfterInv(run[..m]);
    hide Execute, Inv, After;
    GroupSetAfter(After(run[..m]), run[m].executor, run[m].command, u, g);
  }

  /**
    A user lists just the groups he founded or was accepted in at some time. With the members of the live groups, this
    tells which entries are stale.
  */
  lemma {:induction false} ListedGroupsIff(run: seq<Call>, n: nat, u: UserID, g: GroupID)
    requires n <= |run|
    ensures G.ListsGroup(After(run[..n]).groups.groups, u, g) <==> exists j: nat :: j < n && JoinsAt(run, j, u, g)
  {
    if n > 0 {
      hide JoinsAt, G.ListsGroup, After;
      ListedGroupsIff(run, n - 1, u, g);
      GroupSetStep(run, n - 1, u, g);
    } else {
      assert run[..0] == [];
    }
  }

  lemma GroupAnsweredOnce(run: seq<Call>, i: nat, j: nat, u: UserID, g: GroupID) returns (k: nat)
    requires i < j && ConsumesGroupAt(run, i, u, g) && ConsumesGroupAt(run, j, u, g)
    ensures i < k < j && AppliesToGroupAt(run, k, u, g)
  {
    k := PendingAtGroupSince(run, j, u, g);
  }

  /** A removed group never returns, and an application to it can neither be answered nor vanish. */
  lemma {:induction false} RemovedForever(run: seq<Call>, m: nat, n: nat, u: UserID, g: GroupID)
    requires m <= n <= |run|
    requires g in After(run[..m]).groups.founder && g !in After(run[..m]).groups.rooms
    ensures g in After(run[..n]).groups.founder && g !in After(run[..n]).groups.rooms
    ensures G.GroupKey(u, g) in After(run[..n]).groups.pending <==> G.GroupKey(u, g) in After(run[..m]).groups.pending
    decreases n
  {
    if m < n {
      var k := n - 1;
      RemovedForever(run, m, k, u, g);
      OneMore(run, k);
      AfterInv(run[..k]);
      hide Execute, After, F.Inv;
      PendingGroupAfter(After(run[..k]), run[k].executor, run[k].command, u, g);
      LiveAfter(After(run[..k]), run[k].executor, run[k].command, g);
      AppliesToGroupIff(After(run[..k]), run[k].executor, run[k].command, u, g);
    }
  }
}
