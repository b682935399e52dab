/** Whole runs on the server's objects, and what holds of the objects' own fields after each of them. */
module SocialSessions {
  import opened Identifiers
  import opened GroupVerifications
  import opened SocialGraph
  import opened SocialRuns
  import opened SocialServer
  import F = FriendGraph
  import G = GroupGraph

  /** Every id in a user's friend set is another user, and the pair has a private room that delivers to both. */
  ghost predicate FriendsHaveRooms(server: Server)
    reads server, server.users.Values
  {
    forall u, f :: u in server.users && f in server.users[u].friends ==>
      && f in server.users && f != u && F.PairOf(u, f) in server.pairIndex
      && server.pairIndex[F.PairOf(u, f)] in server.privateRooms
      && server.privateRooms[server.pairIndex[F.PairOf(u, f)]].delivery == {u, f}
  }

  /** Two users list each other or neither the other, with opposite types, and what was sent is pending. */
  ghost predicate ListingsDual(server: Server)
    reads server, server.users.Values
  {
    forall a, b :: a in server.users && b in server.users[a].listings ==>
      && b in server.users && a in server.users[b].listings
      && server.users[a].listings[b] != server.users[b].listings[a]
      && (server.users[a].listings[b] == Sent ==> F.FriendKey(a, b) in server.pendingFriends)
  }

  /** A room's member map equals its delivery set, and all members list the group. */
  ghost predicate MembersAgree(server: Server)
    reads server, server.users.Values, server.groupRooms.Values
  {
    forall g :: g in server.groupRooms ==>
      && server.groupRooms[g].members == server.groupRooms[g].delivery
      && forall m :: m in server.groupRooms[g].members ==> m in server.users && g in server.users[m].groups
  }

  /** For a live group, a user's multimap holds one entry for each pending application he sent or administers. */
  ghost predicate ApplicationsMirrored(server: Server)
    reads server, server.users.Values, server.groupRooms.Values
  {
    forall u, e: Entry :: u in server.users && e.group in server.groupRooms ==>
      multiset(server.users[u].mirror)[e] ==
      if G.GroupKey(e.user, e.group) in server.pendingGroups &&
         u == (if e.kind == Sent then e.user else server.groupRooms[e.group].administrator)
      then 1 else 0
  }

  /** No applicant of a live group is a member of it. */
  ghost predicate ApplicantsOutside(server: Server)
    reads server, server.groupRooms.Values
  {
    forall k :: k in server.pendingGroups && k.controller in server.groupRooms ==>
      k.applicator !in server.groupRooms[k.controller].members
  }

  lemma RoomOf(server: Server, u: UserID, f: UserID)
    requires server.Valid() && F.Inv(server.abs.users, server.abs.friends)
    requires u in server.users && f in server.users[u].friends
    ensures f in server.users && f != u && F.PairOf(u, f) in server.pairIndex
    ensures server.pairIndex[F.PairOf(u, f)] in server.privateRooms
    ensures server.privateRooms[server.pairIndex[F.PairOf(u, f)]].delivery == {u, f}
  {
    var s := server.abs;
    assert RecordsOf(s, u) == server.users[u].Records();
    assert F.IsFriend(s.friends.friends, u, f);
    ReachesFriend(s.users, s.friends, u, f);
  }

  lemma FriendFields(server: Server)
    requires server.Valid() && F.Inv(server.abs.users, server.abs.friends)
    ensures FriendsHaveRooms(server)
  {
    forall u, f | u in server.users && f in server.users[u].friends
      ensures f in server.users && f != u && F.PairOf(u, f) in server.pairIndex
      ensures server.pairIndex[F.PairOf(u, f)] in server.privateRooms
      ensures server.privateRooms[server.pairIndex[F.PairOf(u, f)]].delivery == {u, f}
    {
      RoomOf(server, u, f);
    }
  }

  lemma ListedBy(server: Server, a: UserID, b: UserID)
    requires server.Valid() && F.Inv(server.abs.users, server.abs.friends)
    requires a in server.users && b in server.users[a].listings
    ensures b in server.users && a in server.users[b].listings
    ensures server.users[a].listings[b] != server.users[b].listings[a]
    ensures server.users[a].listings[b] == Sent ==> F.FriendKey(a, b) in server.pendingFriends
  {
    var s := server.abs;
    assert RecordsOf(s, a) == server.users[a].Records();
    ListingIsDual(s.users, s.friends, a, b);
    assert F.ListingOf(s.friends.listings, a, b) == F.Listed(server.users[a].listings[b]);
    assert b in s.users;
    assert RecordsOf(s, b) == server.users[b].Records();
  }

  lemma ListingFields(server: Server)
    requires server.Valid() && F.Inv(server.abs.users, server.abs.friends)
    ensures ListingsDual(server)
  {
    forall a, b | a in server.users && b in server.users[a].listings
      ensures b in server.users && a in server.users[b].listings
      ensures server.users[a].listings[b] != server.users[b].listings[a]
      ensures server.users[a].listings[b] == Sent ==> F.FriendKey(a, b) in server.pendingFriends
    {
      ListedBy(server, a, b);
    }
  }

  lemma RoomFields(server: Server)
    requires server.Valid() && G.Inv(server.abs.users, server.abs.groups)
    ensures MembersAgree(server) && ApplicantsOutside(server)
  {
    var s := server.abs.groups;
    forall g | g in server.groupRooms ensures server.groupRooms[g].members == server.groupRooms[g].delivery {
      assert s.rooms[g] == server.groupRooms[g].Abs();
    }
    forall g, m | g in server.groupRooms && m in server.groupRooms[g].members
      ensures m in server.users && g in server.users[m].groups
    {
      assert s.rooms[g] == server.groupRooms[g].Abs();
      assert G.IsMember(s.rooms, g, m);
      assert RecordsOf(server.abs, m) == server.users[m].Records();
    }
    forall k | k in server.pendingGroups && k.controller in server.groupRooms
      ensures k.applicator !in server.groupRooms[k.controller].members
    {
      assert s.rooms[k.controller] == server.groupRooms[k.controller].Abs();
      assert !G.IsMember(s.rooms, k.controller, k.applicator);
    }
  }

  lemma EntriesOf(server: Server, u: UserID, e: Entry)
    requires server.Valid() && G.Inv(server.abs.users, server.abs.groups)
    requires u in server.users && e.group in server.groupRooms
    ensures multiset(server.users[u].mirror)[e] ==
            if G.GroupKey(e.user, e.group) in server.pendingGroups &&
               u == (if e.kind == Sent then e.user else server.groupRooms[e.group].administrator)
            then 1 else 0
  {
    var s := server.abs.groups;
    assert s.rooms[e.group] == server.groupRooms[e.group].Abs();
    assert RecordsOf(server.abs, u) == server.users[u].Records();
    assert G.Copies(s.mirrors, u, e) == G.Mirrored(s.pending, s.founder, u, e);
  }

  lemma MirrorFields(server: Server)
    requires server.Valid() && G.Inv(server.abs.users, server.abs.groups)
    ensures ApplicationsMirrored(server)
  {
    forall u, e: Entry | u in server.users && e.group in server.groupRooms
      ensures multiset(server.users[u].mirror)[e] ==
              if G.GroupKey(e.user, e.group) in server.pendingGroups &&
                 u == (if e.kind == Sent then e.user else server.groupRooms[e.group].administrator)
              then 1 else 0
    {
      EntriesOf(server, u, e);
    }
  }

  /** One command after another, on a server that has come from its start through the first of them. */
  method Continue(server: Server, run: seq<Call>, k: nat) returns (o: Outcome)
    requires k < |run| && server.Valid() && server.abs == After(run[..k])
    modifies server.Objects()
    ensures server.Valid() && fresh(server.Objects() - old(server.Objects())) && server.abs == After(run[..k + 1])
    ensures o == OutcomeAt(run, k)
  {
    hide SocialGraph.Execute;
    OneMore(run, k);
    o := server.Execute(run[k].executor, run[k].command);
  }

  ghost function OutcomeAt(run: seq<Call>, k: nat): Outcome
    requires k < |run|
  {
    SocialGraph.Execute(After(run[..k]), run[k].executor, run[k].command).outcome
  }

  /** A server from its start through any run of commands of any sessions. */
  method Serve(run: seq<Call>) returns (server: Server, outcomes: seq<Outcome>)
    ensures fresh(server) && server.Valid() && server.abs == After(run)
    ensures |outcomes| == |run| && forall k :: 0 <= k < |run| ==> outcomes[k] == OutcomeAt(run, k)
    ensures FriendsHaveRooms(server) && ListingsDual(server)
    ensures MembersAgree(server) && ApplicantsOutside(server) && ApplicationsMirrored(server)
  {
    server, outcomes := Replay(run);
    AfterInv(run);
    FriendFields(server);
    ListingFields(server);
    RoomFields(server);
    MirrorFields(server);
  }

  method Replay(run: seq<Call>) returns (server: Server, outcomes: seq<Outcome>)
    ensures fresh(server) && server.Valid() && server.abs == After(run)
    ensures |outcomes| == |run| && forall k :: 0 <= k < |run| ==> outcomes[k] == OutcomeAt(run, k)
  {
    hide After, OutcomeAt, Server.Valid;
    StartOfRun(run);
    server := new Server();
    outcomes := [];
    var k := 0;
    while k < |run|
      invariant k <= |run| && |outcomes| == k
      invariant fresh(server.Objects()) && server.Valid() && server.abs == After(run[..k])
      invariant forall i :: 0 <= i < k ==> outcomes[i] == OutcomeAt(run, i)
    {
      var o := Continue(server, run, k);
      outcomes := outcomes + [o];
      k := k + 1;
    }
    assert run[..k] == run;
  }

  lemma StartOfRun(run: seq<Call>)
    ensures After(run[..0]) == INITIAL
  {
    assert run[..0] == [];
  }
}
