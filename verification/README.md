# A model of the chat server

This project models the parts of a chat server whose correctness is not visible in any one function, and proves
properties of them over all inputs, all runs and all schedules. `dafny verify dfyconfig.toml` checks everything.

The modules follow the parts of the program:

- `FriendGraph`, `GroupVerifications`, `GroupGraph`, `SocialGraph`, `SocialCommands`, `SocialRuns`, `SocialServer` and
  `SocialSessions`: the social graph. The two graph modules hold one function per server operation on the redundant maps
  (global pending maps, the users' lists and multimaps, friend and group sets, the pair index, the rooms), and the
  invariants that tie the maps together. `SocialGraph` combines them into commands, `SocialCommands` says what each command
  answers and does, `SocialRuns` is about whole runs, and `SocialServer` has the objects on the heap, whose methods are
  proved to be the operations. `SocialSessions` runs commands on these objects and states the invariants on their own
  fields. `founder` in the group graph is a history that no operation reads.
- `Endianness`, `DataPackages`, `Framing` and `Transport`: byte order, the packet format, the reassembly of packets from
  pieces of a stream, and the way of a packet from one end to the other.
- `RateLimiting`: the token buckets for connections and their eviction.
- `MessageLog`: the messages of group and private rooms under unique time stamps.
- `Timers`, `TimerWaiting` and `TimerLiveness`: the scheduler with its removal queue, over finite runs, how long a task can
  wait, and over unending behaviours.
- `Options`: the command line parser.
- `Correlation`: request ids and callbacks of the client.
- `Connections`, `ConnectionRuns` and `ConnectionServer`: the registry of connections, logins, and the receive loop.
- `Arithmetic`, `Collections` and `Identifiers` hold what the others share.

Each part has a specification on values, properties proved about it, and methods in the form of the program that are
proved against it. Commands are atomic; time, random draws, received bytes and the success of a password check are
inputs. Undefined behaviour of the program is an outcome of the model (`Undefined`, `ErasedEnd`), so its absence is
proved. It rests on one assumption, on where a lookup in a multimap lands, which is stated at the end.

## Where the program departs from what one would expect

The model does what the code does. These departures are part of it, and where a property fails because of one, the
exact condition is proved.

- Unfriending erases the same id at both users, so only one side forgets the other (server/user/user.cpp:346-347), and
  the private room stays. Friendship of a pair is symmetric exactly if, since they last became friends, either both or
  neither has unfriended the other (`SocialRuns.SymmetricIff`). Two who parted can become friends again exactly as long as
  an application between them is still open, as a crossed one can be (`SocialRuns.ReunitedIff`).
- Crossed friend applications are both pending. Only the first of them is listed, and accepting both makes two rooms; an
  answer to either takes both off the lists (`SocialRuns.ShownIff`, `FriendGraph.AcceptApplicationInv`).
- Private rooms take their ids from the counter of the group rooms and the other way round
  (server/manager/manager.cpp:101, server/manager/manager.cpp:200). Ids stay fresh all the same.
- Leaving removes the administrator too, although it is answered with failure, and never changes the user's group set
  (server/user/user.cpp:518). Later messages to the group are dropped but answered with success.
- Removing a group leaves its applications pending for ever (`SocialRuns.RemovedForever`).
- The gate for sessions without login masks with a command type that is zero (server/jsonMessageProcess/JsonMsgProcess.cpp:214-218),
  so it refuses only unknown commands; what protects the state is that commands look up their executor
  (`SocialGraph.StrangersChangeNothing`).
- The server hands over at most one packet for each socket read (server/network/network.cpp:138-149). Packets that
  arrive together are delayed until more bytes arrive (`Framing.AllHandedOverIff`).
- The limit for one address can be exceeded by waiting for the eviction of its bucket, exactly when less than one token is
  gained in 59 seconds and the global capacity is larger than the one for an address (`RateLimiting.SingleLimitIff`).
- With a token a minute or less, an address that was refused can also outwait its bucket without ever pausing for the time
  in which a token is gained (`RateLimiting.FloodRefusedIff`).
- A private room does not look for a free time stamp (server/room/privateRoom/privateRoom.cpp:83-85) and so can lose
  messages; which ones is stated in `MessageLog.PrivateLogExactly`.
- The client may draw the request id zero, which is never answered (`Correlation.ZeroNeverAnswered`), and a callback that
  throws leaves its map entry behind until the id is drawn again (`Correlation.LeftBehindIff`, `Correlation.AgreementIff`).
- A removal of a timer task names only the task's name. Of two tasks of that name it takes the one with the lower clock,
  which can be the newer one (`Timers.RemovalTakesLower`, `Timers.OldTaskSurvives`).
- A task with an interval of zero or less can keep others from ever being executed (`TimerWaiting.WaitingBoundedIff`,
  `TimerWaiting.BoundedWithoutRemovals`), and one with a negative interval can be executed out of order
  (`TimerWaiting.OrderIff`, `TimerWaiting.OrderWithoutRemovals`).
- Group sets of users keep groups that were left or removed (`SocialRuns.ListedGroupsIff`).
- doc/FormatForDataPackage_EN.md:3 describes packets with a hash and two zero bytes at the end and with the fields in
  another order. The code has neither, and its order of fields is the one modelled.

## Model

The main results are marked; the other rows are the steps that lead to them and the operations proved against the model.

| member | source | states |
|---|---|---|
| `SocialGraph.ExecuteInv` | server/jsonMessageProcess/JsonMsgProcessCommand.cpp:52-312 | **Main.** every command of every session, logged in or not, keeps the whole invariant: friends have rooms, listings are dual, applications are mirrored exactly, members and delivery sets agree |
| `SocialGraph.ThrowsIff` | server/jsonMessageProcess/JsonMsgProcessCommand.cpp:52-312 | **Main.** in a reachable state a command of a user throws exactly when an administrator accepts somebody without an application, one of nobody exactly when it gets as far as looking up its executor; a throwing command changes nothing, and no removal reads behind the end of a multimap |
| `SocialGraph.FriendStepRegular` | server/user/user.cpp:270-356 | friend commands of an existing user never throw |
| `SocialGraph.GroupStepRegular` | server/user/user.cpp:410-537 | group commands of an existing user throw only for an acceptance without application, and then leave the groups as they were |
| `SocialGraph.ReachesFriend` | server/jsonMessageProcess/JsonMsgProcessCommand.cpp:240-262 | **Main.** whoever lists a friend finds, with the pair in either order, an existing room of exactly the two, and the message reaches both; without a listed friend nothing is sent |
| `SocialGraph.StrangersChangeNothing` | server/jsonMessageProcess/JsonMsgProcess.cpp:210-221 | a session on which nobody is logged in can change the state only by registering a user |
| `SocialGraph.SymmetryKeptIff` | server/user/user.cpp:336-356 | a command keeps friendship symmetric exactly when it does not get past the checks of an unfriending |
| `SocialGraph.FriendAfter` | server/user/user.cpp:297-356 | after a command, a friend entry exists exactly if it was just accepted in one of the directions or was there and was not removed |
| `SocialGraph.PendingAfter` | server/manager/verificationManager.cpp:97-242 | after a command, a friend application is pending exactly if it was just sent or was pending and was not answered; what is sent was not pending before and the two had no room |
| `SocialGraph.AllListedKeptIff` | server/manager/verificationManager.cpp:127-148 | pending applications stay on both lists exactly when none is answered by an application in the other direction |
| `SocialGraph.ShownAfter` | server/manager/verificationManager.cpp:97-242 | after a command, both lists show an application exactly if it was just sent while the opposite one was not shown, or was shown and neither was answered |
| `SocialGraph.GroupMessageReaches` | server/jsonMessageProcess/JsonMsgProcessCommand.cpp:264-282 | a group message reaches all members exactly for members; it is dropped although answered with success exactly for listed groups one is no member of |
| `SocialGraph.LeavingTakesEffect` | server/user/user.cpp:510-537 | leaving always takes effect, is answered with failure exactly for the administrator, and leaves the group listed, so messages to it are dropped |
| `SocialCommands.AnswersExactly` | server/jsonMessageProcess/JsonMsgProcessCommand.cpp:52-312 | **Main.** every command of every session is answered as a table in terms of the state says: who is told that it worked, what is created or delivered, and what is thrown |
| `SocialCommands.AppliesIff` | server/user/user.cpp:270-295 | **Main.** an application is taken exactly from one user to another one with whom he has no room and to whom he has not applied yet |
| `SocialCommands.AppliesToGroupIff` | server/user/user.cpp:410-432 | a group application is taken exactly from users who are no members of the live group and have not applied yet |
| `SocialCommands.RoomAfter` | server/manager/manager.cpp:93-116 | a private room comes with an acceptance and only so, under the next id |
| `SocialCommands.UsersAfter` | server/manager/manager.cpp:248-262 | registering is the only way to become a user |
| `SocialCommands.PendingGroupAfter` | server/manager/verificationManager.cpp:244-353 | after a command, a group application is pending exactly if it was just sent or was pending and was not answered by the administrator of the live group |
| `SocialCommands.MemberAfter` | server/user/user.cpp:434-537 | after a command, somebody is a member exactly if he just founded the group or was accepted, or was one and neither left nor saw it removed by its founder |
| `SocialCommands.LiveAfter` | server/user/user.cpp:434-508 | after a command, a group lives exactly if it was just founded or lived and was not removed by its founder; how groups are numbered |
| `SocialCommands.GroupSetAfter` | server/user/user.cpp:434-537 | after a command, a user lists a group exactly if he did, or just founded it or was accepted |
| `FriendGraph.ListingAfterApply` | server/manager/verificationManager.cpp:127-148 | what an application changes in the two listings, for every pair |
| `FriendGraph.ApplyInv` | server/manager/verificationManager.cpp:97-149 | applying keeps the invariant, also when applications cross or are repeated |
| `FriendGraph.ListingAfterRemove` | server/manager/verificationManager.cpp:223-242 | a removal clears both listings of the pair and no other |
| `FriendGraph.RemoveApplicationInv` | server/manager/verificationManager.cpp:223-242 | removing an application keeps the invariant, also in the middle of an acceptance |
| `FriendGraph.AcceptApplicationInv` | server/manager/verificationManager.cpp:162-196 | accepting a pending application succeeds and keeps the invariant, also for the second of two crossed applications |
| `FriendGraph.AcceptApplicationFields` | server/manager/verificationManager.cpp:162-196 | an acceptance makes the two friends of each other, withdraws just this application, and adds one room with a fresh id for the pair |
| `FriendGraph.RemoveFriendInv` | server/user/user.cpp:336-356 | unfriending, which erases the wrong id at the other user, keeps the invariant |
| `FriendGraph.AddUserInv` | server/manager/manager.cpp:248-262 | a new user keeps the friend invariant |
| `FriendGraph.AddPrivateRoomFails` | server/manager/manager.cpp:93-116 | in any state: a room for somebody who does not exist is refused, but its id is used up |
| `FriendGraph.ApplyFails` | server/manager/verificationManager.cpp:97-149 | in any state: which of the four errors an application meets, and that nothing changes then |
| `FriendGraph.AcceptApplicationFails` | server/manager/verificationManager.cpp:162-196 | in any state: which error an acceptance meets, and what was changed before |
| `FriendGraph.RemoveApplicationFails` | server/manager/verificationManager.cpp:223-242 | in any state: which error a removal meets, and what was removed before |
| `FriendGraph.AnswerFails` | server/user/user.cpp:297-334 | acceptances and rejections of what is not pending are refused and change nothing |
| `FriendGraph.SendFails` | server/jsonMessageProcess/JsonMsgProcessCommand.cpp:240-262 | in any state: why a message does not get to the friend |
| `GroupVerifications.RemoveEntry` | server/user/user.cpp:539-556 | wherever among the entries of the group the lookup lands, the removal loop, which reads the key before it compares with the end, computes the case distinction on what the multimap holds from there on |
| `GroupVerifications.ErasedFromIff` | server/user/user.cpp:547-555 | wherever the lookup lands, an entry is erased exactly if one of the pair is at that place or behind it |
| `GroupVerifications.ErasedOne` | server/user/user.cpp:539-556 | with a lookup that lands on the first entry of the group: if an entry of the pair exists, exactly one copy of one such entry is erased |
| `GroupVerifications.InsertedOne` | server/user/user.cpp:388-393 | an insertion adds exactly one copy and keeps the order by group |
| `GroupVerifications.InsertedBehind` | server/user/user.cpp:388-393 | the new entry comes behind all entries of its group and in front of those of higher ones |
| `GroupGraph.ApplyInv` | server/manager/verificationManager.cpp:244-289 | applying to a live group succeeds and leaves one Sent entry at the applicant and one Received entry at the administrator |
| `GroupGraph.AfterRemoveFrom` | server/user/user.cpp:539-556 | a removal that does not start behind all entries of the pair ends regularly and takes one of them |
| `GroupGraph.RemoveApplicationMirrors` | server/manager/verificationManager.cpp:338-353 | **Main.** with lookups that land on the first entry of the group: both removals of an answered application find their entry, also when the administrator is the applicant, and afterwards exactly the pending applications are mirrored |
| `GroupGraph.RemoveApplicationFromIff` | server/manager/verificationManager.cpp:338-353 | **Main.** wherever the two lookups land: the removal ends regularly and leaves exact mirrors exactly if neither lookup is behind all entries of the application |
| `GroupGraph.AcceptInv` | server/manager/verificationManager.cpp:299-319 | accepting a pending application succeeds and keeps membership agreement and the mirrors |
| `GroupGraph.RejectInv` | server/manager/verificationManager.cpp:321-353 | rejecting a pending application succeeds and keeps the invariant |
| `GroupGraph.CreateGroupInv` | server/user/user.cpp:434-439 | creating a group keeps the invariant |
| `GroupGraph.RemoveGroupInv` | server/user/user.cpp:481-508 | removing a group keeps the invariant, with applications and group sets left behind |
| `GroupGraph.LeaveGroupInv` | server/user/user.cpp:510-537 | leaving keeps the invariant, also for the administrator who is removed and refused |
| `GroupGraph.AddUserInv` | server/manager/manager.cpp:248-262 | a new user keeps the group invariant |
| `GroupGraph.AddGroupRoomFails` | server/manager/manager.cpp:197-213 | in any state: a group of somebody who does not exist is refused, but its id is used up |
| `GroupGraph.ApplyFails` | server/manager/verificationManager.cpp:244-289 | in any state: which error an application meets, and what was entered before |
| `GroupGraph.AcceptApplicationFails` | server/manager/verificationManager.cpp:299-319 | in any state: which error an acceptance meets; the flag is set before |
| `GroupGraph.RemoveApplicationFails` | server/manager/verificationManager.cpp:338-353 | in any state: which error a removal meets; the application is gone before |
| `GroupGraph.RemoveApplicationStops` | server/manager/verificationManager.cpp:350-352 | in any state: where a removal from the two multimaps stops |
| `SocialRuns.AfterInv` | server/jsonMessageProcess/JsonMsgProcessCommand.cpp:17-312 | the invariant holds after every run of commands |
| `SocialRuns.UsersExactly` | server/manager/manager.cpp:248-262 | the users after a run are numbered from 10000 on, one for each successful registration |
| `SocialRuns.RoomsNumbered` | server/manager/manager.cpp:93-213 | private rooms are numbered by the acceptances, groups by the foundings |
| `SocialRuns.RoomIff` | server/manager/manager.cpp:93-116 | two users have a private room exactly if one of them accepted an application of the other at some step |
| `SocialRuns.PendingSince` | server/manager/verificationManager.cpp:97-149 | a friend application is pending only because it was sent at some step and has not been answered since |
| `SocialRuns.FriendshipHasOrigin` | server/user/user.cpp:270-314 | **Main.** every friend entry goes back to an application in one direction and a later acceptance of just that application by the other user |
| `SocialRuns.AnsweredOnce` | server/manager/verificationManager.cpp:162-205 | **Main.** between two answers to an application it was sent once more, so each is consumed at most once |
| `SocialRuns.RoomsStay` | server/manager/manager.cpp:93-116 | private rooms and entries of the pair index are never withdrawn, and a new room has an id that no room had |
| `SocialRuns.PartedForever` | server/user/user.cpp:270-279 | **Main.** two users with a room and no open application never become friends again, whatever happens, because the room stays |
| `SocialRuns.ReunitedIff` | server/user/user.cpp:270-314 | **Main.** with a room, two who are not friends can become friends again exactly if an application of one of them to the other is still open |
| `SocialRuns.FriendsIff` | server/user/user.cpp:297-356 | **Main.** after any run, a friend entry exists exactly if the two became friends at some step and its owner has not unfriended the other since |
| `SocialRuns.PairSymmetricIff` | server/user/user.cpp:297-356 | the friendship of a pair is symmetric exactly if, since the last time they became friends, either both or neither has unfriended the other |
| `SocialRuns.SymmetricIff` | server/user/user.cpp:297-356 | **Main.** friendship is symmetric after a run exactly if that is so of all pairs |
| `SocialRuns.SymmetricRun` | server/user/user.cpp:336-356 | in particular after every run in which nobody was unfriended |
| `SocialRuns.ShownIff` | server/manager/verificationManager.cpp:97-242 | after any run, both lists show an application exactly if it was sent at a step at which they did not show the opposite one, and neither was answered since |
| `SocialRuns.AllListedIff` | server/manager/verificationManager.cpp:97-242 | **Main.** after any run, all pending applications are on both lists exactly if each of them was sent when the opposite one was not shown, and that one was not answered since |
| `SocialRuns.AllListedRun` | server/manager/verificationManager.cpp:97-149 | all pending applications are on both lists after every run in which no two crossed |
| `SocialRuns.PendingAtGroupSince` | server/manager/verificationManager.cpp:244-289 | a group application is pending only because it was sent at some step and has not been answered since |
| `SocialRuns.MembershipHasOrigin` | server/user/user.cpp:410-458 | **Main.** every member founded the group, or applied and was later accepted by its administrator, who is the founder |
| `SocialRuns.MembersIff` | server/user/user.cpp:434-537 | **Main.** after any run, somebody is a member exactly if he founded the group or was accepted at some step, and has neither left nor seen it removed since |
| `SocialRuns.LiveIff` | server/user/user.cpp:434-508 | after any run, a group lives exactly if it was founded at some step and not removed by its founder since |
| `SocialRuns.FounderIff` | server/user/user.cpp:434-439 | the founder is who created the group at some step |
| `SocialRuns.ListedGroupsIff` | server/user/user.cpp:434-537 | **Main.** a user lists a group exactly if at some step he founded it or was accepted in it, so leaving and removing leave stale entries |
| `SocialRuns.GroupAnsweredOnce` | server/manager/verificationManager.cpp:299-324 | between two answers to a group application it was sent once more |
| `SocialRuns.RemovedForever` | server/user/user.cpp:481-508 | **Main.** a removed group never returns, and applications to it stay pending for ever |
| `SocialServer.Server.Execute` | server/jsonMessageProcess/JsonMsgProcessCommand.cpp:17-312 | **Main.** executing a command on the objects is the step of the abstract state |
| `SocialServer.Server.ApplyFriend` | server/manager/verificationManager.cpp:97-149 | applying on the objects: the pending map and the listings of both users change as in the friend graph, with the same four exceptions |
| `SocialServer.Server.AcceptFriendApplication` | server/manager/verificationManager.cpp:162-196 | flagging, room, both friend sets and removal, made in this order on the objects, add up to the acceptance in the friend graph, also when one of them throws |
| `SocialServer.Server.RemoveFriendApplication` | server/manager/verificationManager.cpp:223-242 | the pending entry and both listings are gone, or it stops where a user is missing |
| `SocialServer.Server.ApplyGroup` | server/manager/verificationManager.cpp:244-289 | the pending map and the multimaps of applicant and administrator change as in the group graph, also when they are one object |
| `SocialServer.Server.AcceptGroupApplication` | server/manager/verificationManager.cpp:299-319 | flagging, member map, delivery set, group set and removal on the objects add up to the acceptance in the group graph |
| `SocialServer.Server.RemoveGroupApplication` | server/manager/verificationManager.cpp:338-353 | the pending entry and the two multimap entries are removed one after the other, and it stops at the first that throws |
| `SocialServer.Server.AddPrivateRoom` | server/manager/manager.cpp:93-116 | the room, its delivery set and the entry of the pair index; the id is consumed even if a user is missing |
| `SocialServer.Server.AddGroupRoom` | server/manager/manager.cpp:197-213 | a new room object with the creator as administrator, member and receiver |
| `SocialServer.Server.AddNewUser` | server/manager/manager.cpp:248-262 | the new object has the next id and empty records |
| `SocialServer.Server.AddFriend` | server/user/user.cpp:270-295 | which applications are refused beforehand, and the effect of the others on the objects |
| `SocialServer.Server.AcceptFriend` | server/user/user.cpp:297-314 | which acceptances are refused beforehand, and the effect of the others on the objects |
| `SocialServer.Server.RejectFriend` | server/user/user.cpp:316-334 | which rejections are refused beforehand, and the effect of the others on the objects |
| `SocialServer.Server.RemoveFriend` | server/user/user.cpp:336-356 | both user objects erase the same id from their friend sets, and nothing else changes |
| `SocialServer.Server.SendFriendMessage` | server/jsonMessageProcess/JsonMsgProcessCommand.cpp:240-262 | which room delivers to whom |
| `SocialServer.Server.AddGroup` | server/user/user.cpp:410-432 | which applications are refused beforehand, and the effect of the others on the objects |
| `SocialServer.Server.CreateGroup` | server/user/user.cpp:434-439 | the new room and the entry in the creator's group set |
| `SocialServer.Server.AcceptGroup` | server/user/user.cpp:441-458 | only the administrator of a live group decides on somebody who is no member; otherwise the objects stay as they are |
| `SocialServer.Server.RejectGroup` | server/user/user.cpp:460-479 | as for accepting, and nothing happens without an application |
| `SocialServer.Server.RemoveGroup` | server/user/user.cpp:481-508 | only the administrator removes the room object; applications and group sets of users stay |
| `SocialServer.Server.LeaveGroup` | server/user/user.cpp:510-537 | the room object loses the member and the receiver before the administrator is refused; the user object stays as it is |
| `SocialServer.Server.SendGroupMessage` | server/jsonMessageProcess/JsonMsgProcessCommand.cpp:264-282 | whether the message is refused, dropped or delivered, and to whom |
| `SocialServer.User.RemoveGroupVerification` | server/user/user.cpp:539-556 | the multimap of the object afterwards, and how the removal ends, wherever the lookup lands |
| `SocialServer.GroupRoom.AddMember` | server/room/groupRoom/groupRoom.cpp:86-101 | member map and delivery set both gain the user |
| `SocialServer.GroupRoom.RemoveMember` | server/room/groupRoom/groupRoom.cpp:112-126 | member map and delivery set both lose the user |
| `SocialSessions.Serve` | server/jsonMessageProcess/JsonMsgProcessCommand.cpp:17-312 | **Main.** after any run of commands on a new server, on the fields of the objects: ids in friend sets have rooms that deliver to just the two, listings are dual, member maps and delivery sets agree, multimaps mirror the pending applications; every answer is that of the run |
| `Endianness.SwapEndianness` | utils/networkEndianness.hpp:18-26 | the shifting loop, with the wrap-around of the type, computes the value with the reversed image |
| `Endianness.SwapNetworkEndianness` | utils/networkEndianness.hpp:32-39 | swaps on little-endian hosts only |
| `Endianness.SwapReverses` | utils/networkEndianness.hpp:18-26 | **Main.** the image of the swapped value is the reversed image, for negative values too |
| `Endianness.SwapTwice` | utils/networkEndianness.hpp:18-26 | swapping twice is the identity on every value of every width, signed or not |
| `Endianness.WireBytes` | utils/networkEndianness.hpp:32-39 | **Main.** on either host the bytes sent are the big-endian bytes of the value |
| `Endianness.WireValue` | utils/networkEndianness.hpp:32-39 | on either host the value received is the big-endian value of the bytes |
| `Endianness.LittleValue` | utils/networkEndianness.hpp:18-26 | reading back an image gives the value modulo the width |
| `Endianness.BigValue` | utils/networkEndianness.hpp:18-26 | encoding and decoding in big-endian order is the identity on values of the type |
| `Endianness.BigImage` | utils/networkEndianness.hpp:18-26 | decoding and encoding in big-endian order is the identity on bytes |
| `DataPackages.MakePackage` | utils/network/dataPackage.hpp:70-87 | the packet with all its fields; the length is the size cut to 32 bits |
| `DataPackages.PackageToString` | utils/network/dataPackage.hpp:140-161 | **Main.** copying the packed memory of either host and swapping the fields in place yields the wire format |
| `DataPackages.StringToPackage` | utils/network/dataPackage.hpp:94-134 | reading memory back and swapping the fields in place yields the decoded packet, or the error |
| `DataPackages.SwapHeader` | utils/network/dataPackage.hpp:150-158 | swapping the five fields in a buffer reverses their bytes and leaves the rest |
| `DataPackages.ImageReversed` | utils/network/dataPackage.hpp:35-45 | field layout of the packed header: reversing each field of a little-endian image gives the wire header |
| `DataPackages.MemoryOfWire` | utils/network/dataPackage.hpp:122-131 | the fields found in converted memory are the big-endian fields of the wire, on either host |
| `DataPackages.DecodeEncoded` | utils/network/dataPackage.hpp:95-161 | what was encoded decodes to the same fields and the data up to the declared length |
| `DataPackages.RoundTripIff` | utils/network/dataPackage.hpp:71-161 | **Main.** a packet that was made survives encoding and decoding exactly when header and data are shorter than 2^32 bytes |
| `DataPackages.WireLayout` | utils/network/dataPackage.hpp:35-161 | **Main.** the bytes of a packet that was made: length, kind, sequence size, sequence and request id each in its own big-endian field, and the data behind them |
| `DataPackages.EncodeDecoded` | utils/network/dataPackage.hpp:95-161 | **Main.** re-encoding an accepted string gives that string, and the data is what follows the header |
| `DataPackages.AcceptedIff` | utils/network/dataPackage.hpp:96-112 | a string is accepted iff it has at least 24 bytes and declares its own size |
| `Framing.Package.CanRead` | utils/network/package.hpp:42-51 | whether a complete first message is there |
| `Framing.Package.FirstMsgLength` | utils/network/package.hpp:57-66 | the declared length, or zero if it is not there yet |
| `Framing.Package.Read` | utils/network/package.hpp:72-85 | hands out the first message with its length field, or fails for the two reasons and changes nothing |
| `Framing.Package.Drain` | utils/network/package.hpp:42-85 | reading as long as possible yields all messages and leaves the rest |
| `Framing.FramesSplit` | utils/network/package.hpp:36-85 | taking messages apart before or after more bytes arrive gives the same messages and the same rest |
| `Framing.NothingLost` | utils/network/package.hpp:36-85 | messages and rest together are the bytes received |
| `Framing.FramesOfPackets` | utils/network/package.hpp:36-85 | packets sent back to back are taken apart into just these packets |
| `Framing.AnySchedule` | utils/network/package.hpp:36-85 | **Main.** after any order of writes and reads, delivered bytes and buffer are the bytes received, and delivered messages and those still to come are the messages of the stream |
| `Framing.DeliveredExactly` | utils/network/package.hpp:36-85 | a read delivers exactly one message if one has arrived that was not delivered before, and a write none |
| `Framing.PacketsArrive` | utils/network/package.hpp:36-85 | for every split of a stream of packets and every schedule, what is delivered is a prefix of the packets |
| `Framing.AllPacketsArrive` | utils/network/package.hpp:36-85 | **Main.** when the whole stream is there, all packets are delivered iff no further read would succeed, and then the buffer is empty |
| `Framing.ServerLoop` | server/network/network.cpp:136-150 | **Main.** the nested receive loop hands over what the step-by-step description hands over, and closes when that does |
| `Framing.ServedAccounts` | server/network/network.cpp:136-150 | after k socket reads the server has handed over min(a(k), d(k-1) + 1) messages, where a(k) have arrived and d(k-1) were handed over before |
| `Framing.ClosesIff` | server/network/network.cpp:136-150 | **Main.** the server closes exactly when a length of zero is next and all messages in front of it were handed over with earlier reads |
| `Framing.AllHandedOverIff` | server/network/network.cpp:136-150 | **Main.** the server hands over all messages, in order, exactly when no suffix of the reads completed more messages than it has reads |
| `Framing.TwoInOnePiece` | server/network/network.cpp:138-149 | two packets that arrive together: the second waits until something else arrives |
| `Transport.PacketsArrive` | utils/network/dataPackage.hpp:95-161 | **Main.** encoding, any split, any schedule, reassembly and decoding give the first packets that were sent |
| `Transport.AllPacketsArrive` | utils/network/dataPackage.hpp:95-161 | when the stream is complete and drained, all packets that were sent are decoded and the buffer is empty |
| `Transport.MadeIsSendable` | utils/network/dataPackage.hpp:71-87 | which made packets declare their own size |
| `RateLimiting.RateLimiter.AllowConnection` | server/network/rateLimiter.hpp:30-68 | whether a connection is allowed and all bucket updates, refusals included, for the capacities at the time |
| `RateLimiting.RateLimiter.AutoClean` | server/network/rateLimiter.hpp:85-97 | a cleaning pass leaves exactly the buckets that were used within the last minute, as single visits would |
| `RateLimiting.CreditSpent` | server/network/rateLimiter.hpp:40-46 | a potential of an address, which accounts for a possible eviction, pays for every attempt that passes and is raised by no event |
| `RateLimiting.SingleLimit` | server/network/rateLimiter.hpp:30-68 | **Main.** with 59 cap >= 1, in every run and every window of d seconds fewer than cap (1 + d) + 1 connections of one address are accepted, evictions included |
| `RateLimiting.SingleLimitIff` | server/network/rateLimiter.hpp:30-97 | **Main.** for all capacities: that limit holds in all windows of all runs exactly when 59 cap >= 1 or the global capacity is no larger than cap |
| `RateLimiting.LimitFails` | server/network/rateLimiter.hpp:30-97 | for all other capacities there is a run of two bursts with an eviction between them that reaches the limit |
| `RateLimiting.GlobalLimit` | server/network/rateLimiter.hpp:54-67 | **Main.** all addresses together stay below the same limit for the global capacity |
| `RateLimiting.AcceptedIff` | server/network/rateLimiter.hpp:30-68 | an attempt is accepted exactly if it passes its own bucket and finds tokens in the common one |
| `RateLimiting.FirstAcceptedIff` | server/network/rateLimiter.hpp:54-67 | the first attempt of all that passes its own bucket is accepted exactly if the clock is past its epoch |
| `RateLimiting.AcceptedAgainIff` | server/network/rateLimiter.hpp:54-67 | **Main.** after an attempt that found t tokens in the common bucket, accepted or refused, the next one that passes its own bucket is accepted exactly if more than 1 - t tokens were gained there meanwhile |
| `RateLimiting.FoundFirst` | server/network/rateLimiter.hpp:36-46 | what the first attempt of an address finds in its bucket, and when it passes |
| `RateLimiting.FoundNext` | server/network/rateLimiter.hpp:36-46 | what the next attempt of an address finds: a token less and what was gained meanwhile up to the capacity, or a new bucket after an eviction |
| `RateLimiting.PassesAgainIff` | server/network/rateLimiter.hpp:40-97 | in every run: after an attempt that found t tokens, the next one of the address passes its own bucket exactly when 1 - t tokens were gained meanwhile, or, if the bucket was evicted, when the clock is past its epoch |
| `RateLimiting.FloodStaysRefused` | server/network/rateLimiter.hpp:40-97 | with more than a token a minute, in every run: once its own bucket has refused it, an address that never pauses for 1/cap seconds is refused every time, evictions included |
| `RateLimiting.OutwaitingPasses` | server/network/rateLimiter.hpp:40-97 | with a token a minute or less, a run in which the bucket is evicted during a shorter pause and the address passes |
| `RateLimiting.FloodRefusedIff` | server/network/rateLimiter.hpp:40-97 | **Main.** for all capacities: in all runs, no address that floods after a refusal by its own bucket passes it, exactly when 60 cap > 1 or cap <= 0 |
| `MessageLog.GroupLog.Store` | server/room/groupRoom/groupRoom.cpp:155-166 | the probing loop stores at the first free time stamp from the clock reading on, and nothing is overwritten |
| `MessageLog.GroupLog.GetMessage` | server/room/groupRoom/groupRoom.cpp:275-298 | the stretch of the log between the bounds |
| `MessageLog.GroupLog.AutoClean` | server/room/groupRoom/groupRoom.cpp:568-578 | a cleaning pass erases exactly what is at least a week old |
| `MessageLog.PrivateLog.Store` | server/room/privateRoom/privateRoom.cpp:80-86 | an insertion at the clock reading itself, without effect if it is taken |
| `MessageLog.Probe` | server/room/groupRoom/groupRoom.cpp:158-162 | the probe finds the first free time stamp |
| `MessageLog.FirstFreeUnique` | server/room/groupRoom/groupRoom.cpp:158-162 | no other time stamp than the one probed meets that description |
| `MessageLog.KeyAboveAllIff` | server/room/groupRoom/groupRoom.cpp:158-162 | the new time stamp is above all others exactly when no time stamp from the reading up to the last one is free |
| `MessageLog.KeptInOrder` | server/room/groupRoom/groupRoom.cpp:155-166 | **Main.** if readings never decrease, time stamps are in the order of sending, and the log is a suffix of what was sent, across all cleaning passes |
| `MessageLog.QueriesInOrder` | server/room/groupRoom/groupRoom.cpp:275-298 | then every query returns a stretch of the messages sent, in the order of sending |
| `MessageLog.BackwardClock` | server/room/groupRoom/groupRoom.cpp:158-162 | a reading that goes back puts the later message first |
| `MessageLog.BetweenExactly` | server/room/groupRoom/groupRoom.cpp:286-297 | a query returns an entry iff it is in the log and within the bounds |
| `MessageLog.OnlyExpiredLost` | server/room/groupRoom/groupRoom.cpp:568-578 | however the clock behaves, only messages that a cleaning pass found a week old are lost |
| `MessageLog.LogExactly` | server/room/groupRoom/groupRoom.cpp:155-166 | **Main.** with a clock that never goes back, the log holds exactly the messages that have not expired |
| `MessageLog.SentExactly` | server/room/groupRoom/groupRoom.cpp:155-166 | a message that is sent gets the first free time stamp from the reading on, and nothing else in the log changes |
| `MessageLog.SevenDays` | server/room/groupRoom/groupRoom.cpp:568-578 | a cleaning pass of either room takes exactly the messages that are 604 800 seconds old |
| `MessageLog.PrivateLog.AutoClean` | server/room/privateRoom/privateRoom.cpp:175-189 | a cleaning pass of a private room erases exactly what is at least a week old |
| `MessageLog.PrivateLogExactly` | server/room/privateRoom/privateRoom.cpp:80-189 | **Main.** after any run of messages and cleaning passes, with any clock, a private log holds exactly the unexpired messages that found no unexpired one with their reading |
| `MessageLog.AllKeptIff` | server/room/privateRoom/privateRoom.cpp:80-86 | before any cleaning, a private room keeps all messages exactly when no two are sent at the same reading |
| `Timers.Scheduler.AddTask` | utils/timer.hpp:30-48 | the new state; a listed name is refused |
| `Timers.Scheduler.RemoveTask` | utils/timer.hpp:51-64 | the new state; a position behind the list throws, and a negative one, which is not tested, is undefined |
| `Timers.Scheduler.WorkOnce` | utils/timer.hpp:106-124 | one round: the top is taken away for the front of the removal queue, or executed and queued again |
| `Timers.RequestedAt` | utils/timer.hpp:51-64 | a request takes just the name at the position off the list and puts it behind the removals requested before |
| `Timers.NotRequested` | utils/timer.hpp:51-64 | a position behind the list changes nothing |
| `Timers.AddedLast` | utils/timer.hpp:30-48 | a new name is listed last and its task is due at once; a listed one changes nothing |
| `Timers.Periodic` | utils/timer.hpp:120-124 | **Main.** in every run, each execution of a task that is not removed puts its clock one interval further, and nothing else changes the task |
| `Timers.ConservedNext` | utils/timer.hpp:30-124 | names of queued tasks are the listed names and the names to be removed, and listed names are distinct |
| `Timers.AlwaysConserved` | utils/timer.hpp:30-124 | **Main.** queued names are listed names and names to be removed after every run |
| `Timers.NeverAgain` | utils/timer.hpp:106-118 | **Main.** the only task of a name that is next to be removed is never executed again unless it is added again |
| `Timers.RemovalTakesLower` | utils/timer.hpp:106-118 | **Main.** of two tasks of one name, whatever happens while both wait, the round that ends the waiting of one picks the one with the lower clock, or either of equal clocks; if the name is at the front of the removals, that task is removed and the other stays |
| `Timers.OldTaskSurvives` | utils/timer.hpp:106-118 | an instance: with a name in use twice the removal takes the new task and leaves the old one |
| `Timers.InOrder` | utils/timer.hpp:95-124 | **Main.** tasks are executed in the order of their scheduled clocks over whole runs, additions included, with intervals >= 0 |
| `Timers.NotBeforeNext` | utils/timer.hpp:98-123 | an executed task is due, and nothing is scheduled before it afterwards |
| `TimerWaiting.OrderIff` | utils/timer.hpp:95-124 | **Main.** for any state, requested removals included: all runs of rounds are in order exactly when no task with a negative interval can get to the top before it is removed, which a bounded search decides |
| `TimerWaiting.OrderWithoutRemovals` | utils/timer.hpp:95-124 | without requested removals that is so exactly when no task with a negative interval is scheduled no later than every task with interval zero |
| `TimerWaiting.BacklogNext` | utils/timer.hpp:95-124 | every round that leaves a task alone uses up one turn of the backlog at its clock |
| `TimerWaiting.BoundedWaiting` | utils/timer.hpp:95-124 | while a task waits there are fewer rounds than the sum of (c - c_j) / interval_j + 1 over tasks with c_j <= c and the additions; only other tasks scheduled no later have to advance |
| `TimerWaiting.WaitingBoundedIff` | utils/timer.hpp:95-124 | **Main.** for any state, requested removals included: the number of rounds a task can wait is bounded exactly when no other task without a positive interval can get in front of it before it is removed, which a search over as many rounds as there is backlog decides |
| `TimerWaiting.BoundedWithoutRemovals` | utils/timer.hpp:95-124 | without requested removals that is so exactly when every other task scheduled no later has an interval of at least a tick |
| `TimerLiveness.FrontCompletes` | utils/timer.hpp:106-118 | in every fair behaviour, where rounds go on only while something is queued, the front of the removal queue is removed |
| `TimerLiveness.EveryRemovalCompletes` | utils/timer.hpp:51-118 | **Main.** in every fair behaviour every requested removal completes, in the order of the requests |
| `TimerLiveness.IdleIsFair` | utils/timer.hpp:98-118 | a behaviour in which the last task is removed and the worker goes idle is a fair one |
| `TimerWaiting.Starves` | utils/timer.hpp:120-124 | an instance: behind a task with an interval of zero a due task can wait for any number of rounds |
| `Options.Option.Add` | utils/option.hpp:60-66 | an option is declared, or declared anew, unless its type is unknown; arguments stay |
| `Options.Option.Remove` | utils/option.hpp:72-77 | just this option is no longer declared; arguments stay |
| `Options.SplitCommand` | utils/option.hpp:98-114 | the index loop yields the stretches between spaces without the empty ones, and always the last one |
| `Options.Option.ParseTokens` | utils/option.hpp:123-252 | **Main.** the loop that skips values equals a fold with a look at the next token and no skipping, including what was assigned before an exception |
| `Options.Option.ParseCommand` | utils/option.hpp:98-117 | parsing a line is parsing its tokens, including what was assigned before an exception |
| `Options.JoinOfFields` | utils/option.hpp:98-114 | joining the stretches gives the command again |
| `Options.FieldsOfJoin` | utils/option.hpp:98-114 | splitting recovers stretches that were joined |
| `Options.SplitKeeps` | utils/option.hpp:98-114 | splitting keeps every stretch that is not empty as often as it is there, and an empty one only as the last |
| `Options.LongWithValue` | utils/option.hpp:139-161 | a token --name=value: unknown options and those without argument throw, all others are assigned |
| `Options.LongAlone` | utils/option.hpp:162-190 | a token --name: unknown options are passed over, flags are set, and others take the next token if it can be a value, or the empty one, or throw |
| `Options.ShortAlone` | utils/option.hpp:192-243 | a token -c does what --c does |
| `Options.ShortWithMore` | utils/option.hpp:192-243 | a token -c with more behind it: an equals sign throws, flags are set together, and others take the rest as their value |
| `Options.SilentTokens` | utils/option.hpp:127-131 | tokens that do not begin like an option, and the two dashes without a name, do nothing |
| `Options.FlagsExactly` | utils/option.hpp:205-213 | of several flags in one token, just those declared without argument are set |
| `Options.StopsAtFirst` | utils/option.hpp:123-252 | the first token that fails ends the parse, with what was assigned before it |
| `Options.FailsAtEnd` | utils/option.hpp:243-252 | if no token fails, the parse fails exactly if a required option has no value |
| `Options.ParseGuarantees` | utils/option.hpp:123-252 | **Main.** after a successful parse from no arguments all names are declared, all required options have values, and options without argument have empty ones |
| `Options.RoundTrip` | utils/option.hpp:98-252 | **Main.** settings printed as --name=value and joined by spaces are recovered by splitting and parsing; the parse succeeds exactly if they cover the required options |
| `Options.AssignedExactly` | utils/option.hpp:155-156 | settings with distinct names are recovered as they are |
| `Options.SpellingsAgree` | utils/option.hpp:131-238 | the spellings of an option with a value are the same for every value, but with an equals sign in it the long spelling in one token is an invalid argument |
| `Options.FlagsTogether` | utils/option.hpp:205-213 | flags given together are the flags given one by one |
| `Options.TrailingSpace` | utils/option.hpp:114-114 | a required option at the end throws, but with a space behind it its value is empty |
| `Correlation.Client.SendDataWithOption` | testclient/network.cpp:270-298 | draws until an id is not outstanding and registers the callback for it; as long as all drawn ids are outstanding nothing has changed |
| `Correlation.Client.CallReceived` | testclient/network.cpp:402-434 | which packets are ignored, broadcast or handed to a callback, and what is erased |
| `Correlation.ReceiveInv` | testclient/network.cpp:402-434 | a packet keeps the invariant, and the erasure never hits the end of the map |
| `Correlation.SentExactly` | testclient/network.cpp:270-298 | a request is sent under the first drawn id that is not outstanding, and while there is none nothing changes |
| `Correlation.AfterInv` | testclient/network.cpp:280-434 | **Main.** in every run, for any order and duplication of packets, outstanding ids have unanswered callbacks of their own, and every callback ran at most once, for a non-zero id it was registered with |
| `Correlation.AnsweredByOwnCallback` | testclient/network.cpp:411-424 | the first reply invokes the callback of its request, a second one does not |
| `Correlation.ZeroNeverAnswered` | testclient/network.cpp:406-406 | a request that drew the id zero is never answered |
| `Correlation.ReceivedExactly` | testclient/network.cpp:402-434 | a packet is ignored exactly if it does not decode, handed to a callback exactly if its id is not zero and outstanding, and broadcast otherwise, which changes nothing |
| `Correlation.WaitsIff` | testclient/network.cpp:270-434 | after any run, a request is outstanding exactly if it was sent and no packet with its id has come since |
| `Correlation.CalledIff` | testclient/network.cpp:270-434 | **Main.** after any run, the callback of a request was invoked exactly if a packet with its id, which is not zero, came after the request |
| `Correlation.AgreementKeptIff` | testclient/network.cpp:411-429 | a step keeps outstanding ids and callback keys the same set exactly if no callback throws in it |
| `Correlation.LeftBehindIff` | testclient/network.cpp:270-429 | after any run, the map holds an id that is not outstanding exactly if its callback threw and the id was not drawn again since |
| `Correlation.AgreementIff` | testclient/network.cpp:270-429 | **Main.** after any run, outstanding ids and callback keys are the same set exactly if there is no such id |
| `Correlation.AgreementWithoutThrows` | testclient/network.cpp:270-429 | in particular after every run in which no callback throws |
| `Connections.ModifyWorks` | server/manager/manager.cpp:328-351 | logging in, as the same or another user, never reaches a throwing path and moves the connection to the new user |
| `Connections.ModifyFails` | server/manager/manager.cpp:328-351 | in any state: which check of a change of user throws first, and what was changed before |
| `Connections.DetachFails` | server/manager/manager.cpp:336-347 | in any state: the user a connection is registered for must exist and hold it |
| `Connections.RegisterFails` | server/manager/manager.cpp:287-295 | a connection is registered once |
| `Connections.RemoveFails` | server/manager/manager.cpp:353-371 | in any state: which check of a removal throws first; a failed removal changes nothing |
| `Connections.LogInFails` | server/jsonMessageProcess/JsonMsgProcess.cpp:298-335 | the session keeps its user when the registry could not be changed |
| `Connections.CloseInv` | server/manager/manager.cpp:353-371 | closing never throws, so the first removal succeeds, and no user holds the connection afterwards |
| `Connections.OneUserPerConnection` | server/manager/manager.cpp:328-371 | a connection belongs to at most one user, who is the one of the session |
| `Connections.LogInInv` | server/jsonMessageProcess/JsonMsgProcess.cpp:298-335 | logging in keeps registry, users and session in agreement |
| `Connections.LogInAfter` | server/jsonMessageProcess/JsonMsgProcess.cpp:298-335 | a login takes effect exactly with a matching password for an existing user: registry, session, and the device he holds the connection with; otherwise nothing changes |
| `Connections.ReadAfter` | server/network/network.cpp:136-185 | a read leaves its connection, if it stays, with the rest of the bytes, the heartbeats counted by the packet that it completes, and the user of a login that took effect; all others are as before |
| `Connections.CheckedAfterTenSeconds` | server/network/network.cpp:151-168 | the first heartbeat ten seconds after the last check ends the session exactly if ten came before it, and else counting starts anew |
| `Connections.NextInv` | server/network/network.cpp:99-204 | **Main.** every event of every receive loop keeps the agreement and throws nothing |
| `Connections.AttemptStep` | server/network/network.cpp:99-204 | an event attempts the removal of its connection exactly when it ends the session, and then with success |
| `Connections.RemovedOnce` | server/network/network.cpp:121-203 | **Main.** in every interleaving of receive loops nothing throws, and the removal of each registered connection is attempted exactly once, with success, when its loop ends and not before |
| `Connections.EndsIff` | server/network/network.cpp:136-185 | **Main.** a read ends the session exactly for a length of zero, an undecodable packet, too many heartbeats or an exception while processing |
| `Connections.SlowBeatsTolerated` | server/network/network.cpp:151-168 | heartbeats at least a second apart never end a session, with the clock read anew at every check |
| `Connections.RefusedIff` | server/jsonMessageProcess/JsonMsgProcess.cpp:210-221 | the gate masks with a type without bits and refuses exactly unknown commands |
| `ConnectionRuns.LoggedInIff` | server/jsonMessageProcess/JsonMsgProcess.cpp:298-335 | **Main.** in every interleaving, a connection is registered for a user exactly if the latest login on it that took effect was one of him and its session has not ended since |
| `ConnectionRuns.DeviceOfLogin` | server/manager/manager.cpp:328-351 | the user then holds the connection with the device of that login |
| `ConnectionRuns.UsersIff` | server/manager/manager.cpp:248-262 | logins and connections leave the users alone |
| `ConnectionRuns.BuffersServed` | server/network/network.cpp:136-150 | **Main.** the bytes that each loop keeps are those that the receive loop keeps of the reads on that connection, and as long as it is there it has not closed |
| `ConnectionServer.Manager.RegisterConnection` | server/manager/manager.cpp:287-295 | a new connection is registered for nobody, a known one throws |
| `ConnectionServer.Manager.ModifyUserOfConnection` | server/manager/manager.cpp:328-351 | registry and the connections of the old and the new user afterwards, for every order in which its checks can throw |
| `ConnectionServer.Manager.RemoveConnection` | server/manager/manager.cpp:353-371 | registry and the connections of the user afterwards, for every order in which its checks can throw |
| `ConnectionServer.User.AddConnection` | server/user/user.cpp:564-574 | the connections of the user afterwards, or the exception |
| `ConnectionServer.User.RemoveConnection` | server/user/user.cpp:597-607 | the connections of the user afterwards, or the exception |
| `ConnectionServer.Manager.Login` | server/jsonMessageProcess/JsonMsgProcess.cpp:298-335 | the session id changes only after the registry did, and not for a wrong password or an unknown user |
| `ConnectionServer.Manager.CountHeartBeat` | server/network/network.cpp:151-168 | the counter, its check after ten seconds with its second clock reading, and the closing |
| `ConnectionServer.Manager.HandleMessage` | server/network/network.cpp:150-171 | what a message does, and by which way it leaves the loop |
| `ConnectionServer.Manager.Process` | server/network/network.cpp:99-204 | **Main.** the loop with its three places of closing has exactly the effect of the events of its connection; when it ends there was exactly one attempt of removal, with success, and none before |

## Left out

- Sockets, TLS, coroutines, timeouts and strands: received pieces, failures and clock readings are inputs.
- Interleavings of threads inside a command or between the locked sections of a class: every operation is atomic.
- JSON, SQL, configuration files, logging, the password hash and the check of e-mail addresses; parameters arrive parsed,
  and the outcomes of the two checks are inputs.
- Notifications to users: the model has who receives a message, not its text.
- Muting, kicking, operators and changes of the administrator of a group: no command reaches them, and several of them
  send a tip message while they hold the lock it needs.
- Group names, permissions, user levels and profiles: thin members without an effect on the maps modelled here.
- `removePrivateRoom` and the deletion of users: no command calls them.
- The KCP rooms of server/room/room.h and memory resources: no effect on the properties.
- The commands that only list friends, groups or applications, and the typed getters of the option parser: they read
  what the model already states.
- Ids of users, groups and rooms are unbounded integers; the counters of the program would wrap after 2^63 registrations.
- GroupGraph.RemoveVerification: the lookup in a user's multimap is taken to land on the first entry of the group, although
  the standard lets `std::multimap::find` land on any (server/user/user.cpp:547). All results on group commands rest on
  that; GroupGraph.RemoveApplicationFromIff says when a lookup that lands elsewhere does as well.
- RateLimiting.RateLimiter.AllowConnection: real numbers in place of `double`.
- RateLimiting.SingleLimit: capacities that are changed during a run; nothing in the server calls the two setters.
- RateLimiting.SingleLimitIff: capacities for one address of zero or less, with which no connection is ever allowed.
- Timers.Scheduler.WorkOnce: which of several tasks with the least clock is on top is an input, as the heap's layout is not modelled.
- TimerLiveness.EveryRemovalCompletes: that the worker comes to another round while something is queued is assumed; the wait
  in utils/timer.hpp:98-101 has no timeout, and the processor time of `std::clock()` need not advance during `sleep_for`.
- ConnectionServer.Manager.Process: one loop at a time on the heap; interleavings are in Connections.RemovedOnce on values.
- Connections.EndsIff: what a packet asks for is an input of the event, as the packet's JSON text is not modelled.
- Correlation.Client.SendDataWithOption: that the random generator ever yields a free id; while it does not, the request is
  `Blocked`.
- MessageLog.GroupLog.Store: the check that the sender is a member is in GroupGraph, the check of muted users is left out.
