/** How the client matches replies with requests: outstanding request ids, and a callback for each of them. */
module Correlation {
  import opened Endianness
  import opened DataPackages

  type Id = int

  /** Callbacks are told apart by the request they were registered with. */
  type Registration = nat

  datatype Call = Call(registration: Registration, id: Id)

  /**
    `ids` and `callbacks` are the client's; `registered` and `calls` are the history of all requests and of all
    callback invocations.
  */
  datatype State = State(ids: set<Id>, callbacks: map<Id, Registration>, registered: seq<Id>, calls: seq<Call>)

  const INITIAL := State({}, map[], [], [])

  /** `draws` are the values of the random generator; `throws` says whether a callback that is invoked throws. */
  datatype Event =
    | Send(draws: seq<Id>)
    | Receive(data: seq<Byte>, throws: bool)

  // ---------------------------------------------------------------- specification

  /** `StillDrawing` means that all values so far were outstanding. */
  datatype Draw = StillDrawing | Drawn(id: Id)

  /** The first drawn id that is not outstanding. */
  function FirstFree(draws: seq<Id>, ids: set<Id>): (d: Draw)
    ensures d.Drawn? ==> d.id in draws && d.id !in ids
  {
    if draws == [] then StillDrawing
    else if draws[0] !in ids then Drawn(draws[0])
    else FirstFree(draws[1..], ids)
  }

  lemma {:induction false} FirstFreeAt(draws: seq<Id>, ids: set<Id>, i: nat)
    requires i <= |draws| && forall k :: 0 <= k < i ==> draws[k] in ids
    requires i < |draws| ==> draws[i] !in ids
    ensures FirstFree(draws, ids) == if i < |draws| then Drawn(draws[i]) else StillDrawing
  {
    if i > 0 { FirstFreeAt(draws[1..], ids, i - 1); }
  }

  /** A packet with the id of an outstanding request; the id zero marks packets that are no replies. */
  predicate Matches(s: State, e: Event) {
    && e.Receive? && Decode(e.data).Decoded?
    && Decode(e.data).package.requestID != 0 && Decode(e.data).package.requestID in s.ids
  }

  /** `Blocked` is a request whose drawing has not come to an end. */
  datatype Outcome = Sent(id: Id) | Blocked | Ignored | Called | Broadcast | ErasedEnd

  function OutcomeOf(s: State, e: Event): Outcome {
    match e
    case Send(draws) =>
      var d := FirstFree(draws, s.ids);
      if d == StillDrawing then Blocked else Sent(d.id)
    case Receive(data, _) =>
      if Decode(data).Failed? then Ignored
      else if !Matches(s, e) then Broadcast
      else if Decode(data).package.requestID !in s.callbacks then ErasedEnd
      else Called
  }

  /** A callback that throws leaves its map entry behind. */
  function Next(s: State, e: Event): State {
    match e
    case Send(draws) =>
      var d := FirstFree(draws, s.ids);
      if d == StillDrawing then s
      else State(s.ids + {d.id}, s.callbacks[d.id := |s.registered|], s.registered + [d.id], s.calls)
    case Receive(data, throws) =>
      if !Matches(s, e) then s
      else
        var id := Decode(data).package.requestID;
        if id !in s.callbacks then s.(ids := s.ids - {id})
        else
          s.(ids := s.ids - {id},
             callbacks := if throws then s.callbacks else s.callbacks - {id},
             calls := s.calls + [Call(s.callbacks[id], id)])
  }

  class Client {
    var requestIDs: set<Id>
    var functions: map<Id, Registration>
    ghost var registered: seq<Id>
    ghost var calls: seq<Call>

    ghost function Abs(): State
      reads this
    {
      State(requestIDs, functions, registered, calls)
    }

    constructor ()
      ensures Abs() == INITIAL
    {
      requestIDs, functions, registered, calls := {}, map[], [], [];
    }

    method SendDataWithOption(draws: seq<Id>, callback: Registration) returns (o: Outcome)
      requires callback == |registered|
      modifies this
      ensures o == OutcomeOf(old(Abs()), Send(draws)) && Abs() == Next(old(Abs()), Send(draws))
    {
      var i := 0;
      while i < |draws| && draws[i] in requestIDs
        invariant i <= |draws| && forall k :: 0 <= k < i ==> draws[k] in requestIDs
      {
        i := i + 1;
      }
      FirstFreeAt(draws, Abs().ids, i);
      if i == |draws| {
        return Blocked;
      }
      var requestID := draws[i];
      requestIDs := requestIDs + {requestID};
      functions := functions[requestID := callback];
      registered := registered + [requestID];
      return Sent(requestID);
    }

    method CallReceived(host: Host, data: seq<Byte>, throws: bool) returns (o: Outcome)
      modifies this
      ensures o == OutcomeOf(old(Abs()), Receive(data, throws)) && Abs() == Next(old(Abs()), Receive(data, throws))
    {
      var pack := StringToPackage(host, data);
      if pack.Failed? {
        return Ignored;
      }
      var requestID := pack.package.requestID;
      if requestID != 0 {
        var needMovingData := false;
        if requestID in requestIDs {
          needMovingData := true;
          requestIDs := requestIDs - {requestID};
        }
        if needMovingData {
          if requestID !in functions {
            return ErasedEnd;
          }
          calls := calls + [Call(functions[requestID], requestID)];
          if throws {
            return Called;
          }
          functions := functions - {requestID};
          return Called;
        }
      }
      return Broadcast;
    }
  }

  // ---------------------------------------------------------------- invariant

  ghost predicate WasCalled(s: State, r: Registration) {
    exists i :: 0 <= i < |s.calls| && s.calls[i].registration == r
  }

  /** Every outstanding id has the callback of a request that drew the id and was not yet answered. */
  ghost predicate Outstanding(s: State) {
    forall id :: id in s.ids ==>
      id in s.callbacks && s.callbacks[id] < |s.registered| && s.registered[s.callbacks[id]] == id
      && !WasCalled(s, s.callbacks[id])
  }

  /** Every callback ran at most once, for a reply with the id of its own request, which is not zero. */
  ghost predicate CallsCorrect(s: State) {
    && (forall i :: 0 <= i < |s.calls| ==>
          s.calls[i].registration < |s.registered| && s.calls[i].id != 0
          && s.registered[s.calls[i].registration] == s.calls[i].id)
    && (forall i, j :: 0 <= i < j < |s.calls| ==> s.calls[i].registration != s.calls[j].registration)
  }

  ghost predicate Inv(s: State) {
    Outstanding(s) && CallsCorrect(s)
  }

  lemma SendInv(s: State, draws: seq<Id>)
    requires Inv(s)
    ensures Inv(Next(s, Send(draws)))
  {
  }

  lemma ReceiveInv(s: State, data: seq<Byte>, throws: bool)
    requires Inv(s)
    ensures Inv(Next(s, Receive(data, throws)))
    ensures OutcomeOf(s, Receive(data, throws)) != ErasedEnd
  {
  }

  // ---------------------------------------------------------------- runs

  ghost function After(run: seq<Event>): State {
    if run == [] then INITIAL else Next(After(run[..|run| - 1]), run[|run| - 1])
  }

  lemma OneMore(run: seq<Event>, n: nat)
    requires n < |run|
    ensures After(run[..n + 1]) == Next(After(run[..n]), run[n])
  {
    assert run[..n + 1][..n] == run[..n];
  }

  /** For any order and any duplication of packets, genuine or not. */
  lemma {:induction false} AfterInv(run: seq<Event>)
    ensures Inv(After(run))
  {
    if run != [] {
      AfterInv(run[..|run| - 1]);
      match run[|run| - 1]
      case Send(draws) => SendInv(After(run[..|run| - 1]), draws);
      case Receive(data, throws) => ReceiveInv(After(run[..|run| - 1]), data, throws);
    }
  }

  /** The first reply to a request whose id is not zero invokes the callback of that request, a second one does not. */
  lemma AnsweredByOwnCallback(run: seq<Event>, data: seq<Byte>, throws: bool, again: bool)
    requires Matches(After(run), Receive(data, throws))
    ensures var s, e := After(run), Receive(data, throws);
            var id := Decode(data).package.requestID;
      && OutcomeOf(s, e) == Called && |Next(s, e).calls| == |s.calls| + 1
      && var call := Next(s, e).calls[|s.calls|];
      && call.id == id && call.registration < |s.registered| && s.registered[call.registration] == id
      && !WasCalled(s, call.registration)
      && OutcomeOf(Next(s, e), Receive(data, again)) == Broadcast
  {
    AfterInv(run);
    var s := After(run);
    hide After, Decode;
    assert Outstanding(s);
  }

  /** Nothing ever answers a request that drew the id zero. */
  lemma ZeroNeverAnswered(run: seq<Event>, r: Registration)
    requires r < |After(run).registered| && After(run).registered[r] == 0
    ensures !WasCalled(After(run), r)
  {
    AfterInv(run);
  }

  /** A request is sent under the first drawn id that is not outstanding, as soon as there is one. */
  lemma SentExactly(s: State, draws: seq<Id>, id: Id)
    ensures OutcomeOf(s, Send(draws)) == Sent(id) <==>
              exists i :: 0 <= i < |draws| && draws[i] == id && id !in s.ids &&
                          forall k :: 0 <= k < i ==> draws[k] in s.ids
    ensures OutcomeOf(s, Send(draws)) == Blocked <==> forall i :: 0 <= i < |draws| ==> draws[i] in s.ids
    ensures OutcomeOf(s, Send(draws)) == Blocked ==> Next(s, Send(draws)) == s
  {
    var i := FirstOutside(draws, s.ids);
    FirstFreeAt(draws, s.ids, i);
  }

  lemma {:induction false} FirstOutside(draws: seq<Id>, ids: set<Id>) returns (i: nat)
    ensures i <= |draws| && (forall k :: 0 <= k < i ==> draws[k] in ids) && (i < |draws| ==> draws[i] !in ids)
  {
    i := 0;
    if draws != [] && draws[0] in ids {
      var j := FirstOutside(draws[1..], ids);
      i := j + 1;
      assert forall k :: 0 < k < i ==> draws[k] == draws[1..][k - 1];
    }
  }

  /** What becomes of a packet: only a reply to an outstanding request is handed to a callback. */
  lemma ReceivedExactly(run: seq<Event>, data: seq<Byte>, throws: bool)
    ensures var s, e := After(run), Receive(data, throws);
            var decoded := Decode(data).Decoded?;
            var id := if decoded then Decode(data).package.requestID else 0;
      && OutcomeOf(s, e) == (if !decoded then Ignored else if id != 0 && id in s.ids then Called else Broadcast)
      && (!(decoded && id != 0 && id in s.ids) ==> Next(s, e) == s)
  {
    AfterInv(run);
    hide After, Decode;
  }

  // ---------------------------------------------------------------- who is answered

  ghost predicate DrawnAt(run: seq<Event>, i: nat, id: Id) {
    i < |run| && run[i].Send? && FirstFree(run[i].draws, After(run[..i]).ids) == Drawn(id)
  }

  /** Request `r` is sent in step `i` under the id that was drawn. */
  ghost predicate SentAt(run: seq<Event>, i: nat, r: Registration, id: Id) {
    DrawnAt(run, i, id) && r == |After(run[..i]).registered|
  }

  /** A packet with that id arrives in step `k`; the id zero marks packets that are no replies. */
  predicate RepliesAt(run: seq<Event>, k: nat, id: Id) {
    && k < |run| && run[k].Receive? && id != 0
    && Decode(run[k].data).Decoded? && Decode(run[k].data).package.requestID == id
  }

  /** The request is outstanding under the id. */
  ghost predicate WaitsFor(s: State, r: Registration, id: Id) {
    id in s.ids && id in s.callbacks && s.callbacks[id] == r
  }

  lemma WaitsStep(run: seq<Event>, m: nat, r: Registration, id: Id)
    requires m < |run|
    ensures WaitsFor(After(run[..m + 1]), r, id) <==>
              SentAt(run, m, r, id) || (WaitsFor(After(run[..m]), r, id) && !RepliesAt(run, m, id))
  {
    OneMore(run, m);
    AfterInv(run[..m]);
    hide After, Decode;
  }

  lemma CalledStep(run: seq<Event>, m: nat, r: Registration)
    requires m < |run|
    ensures WasCalled(After(run[..m + 1]), r) <==>
              WasCalled(After(run[..m]), r) || exists id :: WaitsFor(After(run[..m]), r, id) && RepliesAt(run, m, id)
  {
    OneMore(run, m);
    AfterInv(run[..m]);
    var s, t, e := After(run[..m]), After(run[..m + 1]), run[m];
    hide After, Decode;
    if WasCalled(s, r) {
      var i :| 0 <= i < |s.calls| && s.calls[i].registration == r;
      assert t.calls[i] == s.calls[i];
    }
    if e.Receive? && Matches(s, e) {
      var id := Decode(e.data).package.requestID;
      assert RepliesAt(run, m, id);
      assert t.calls[|s.calls|] == Call(s.callbacks[id], id);
      if WasCalled(t, r) && !WasCalled(s, r) { assert WaitsFor(s, r, id); }
    }
  }

  ghost predicate WaitsSince(run: seq<Event>, i: nat, n: nat, r: Registration, id: Id) {
    i < n && SentAt(run, i, r, id) && forall k: nat :: i < k < n ==> !RepliesAt(run, k, id)
  }

  ghost predicate StillWaits(run: seq<Event>, n: nat, r: Registration, id: Id) {
    exists i: nat :: WaitsSince(run, i, n, r, id)
  }

  lemma StillWaitsStep(run: seq<Event>, n: nat, r: Registration, id: Id)
    ensures StillWaits(run, n + 1, r, id) <==>
              SentAt(run, n, r, id) || (StillWaits(run, n, r, id) && !RepliesAt(run, n, id))
  {
    hide SentAt, RepliesAt;
    if SentAt(run, n, r, id) { assert WaitsSince(run, n, n + 1, r, id); }
    if StillWaits(run, n, r, id) && !RepliesAt(run, n, id) {
      var i: nat :| WaitsSince(run, i, n, r, id);
      assert WaitsSince(run, i, n + 1, r, id);
    }
    if StillWaits(run, n + 1, r, id) {
      var i: nat :| WaitsSince(run, i, n + 1, r, id);
      assert i < n ==> WaitsSince(run, i, n, r, id);
    }
  }

  /** A request is outstanding exactly if it was sent and no packet with its id has come since. */
  lemma {:induction false} WaitsIff(run: seq<Event>, n: nat, r: Registration, id: Id)
    requires n <= |run|
    ensures WaitsFor(After(run[..n]), r, id) <==> StillWaits(run, n, r, id)
  {
    if n > 0 {
      hide WaitsFor, StillWaits, SentAt, RepliesAt, After;
      WaitsIff(run, n - 1, r, id);
      WaitsStep(run, n - 1, r, id);
      StillWaitsStep(run, n - 1, r, id);
    } else {
      assert run[..0] == [];
    }
  }

  /** The request was sent, and a packet with its id came after that. */
  ghost predicate AnsweredBefore(run: seq<Event>, n: nat, r: Registration) {
    exists i: nat, k: nat, id :: i < k < n && SentAt(run, i, r, id) && RepliesAt(run, k, id)
  }

  /** The first such packet invokes the callback. */
  lemma {:induction false} FirstReplyCalls(run: seq<Event>, i: nat, k: nat, r: Registration, id: Id)
    requires i < k < |run| && SentAt(run, i, r, id) && RepliesAt(run, k, id)
    ensures WasCalled(After(run[..k + 1]), r)
    decreases k
  {
    hide SentAt, RepliesAt, WaitsFor, WasCalled, After;
    CalledStep(run, k, r);
    if j: nat :| i < j < k && RepliesAt(run, j, id) {
      FirstReplyCalls(run, i, j, r, id);
      CallsStay(run, j + 1, k, r);
    } else {
      assert WaitsSince(run, i, k, r, id);
      WaitsIff(run, k, r, id);
    }
  }

  lemma {:induction false} CallsStay(run: seq<Event>, m: nat, n: nat, r: Registration)
    requires m <= n <= |run| && WasCalled(After(run[..m]), r)
    ensures WasCalled(After(run[..n]), r)
    decreases n
  {
    hide WasCalled, After;
    if m < n {
      CallsStay(run, m, n - 1, r);
      CalledStep(run, n - 1, r);
    }
  }

  lemma AnsweredNow(run: seq<Event>, m: nat, r: Registration, id: Id)
    requires m < |run| && WaitsFor(After(run[..m]), r, id) && RepliesAt(run, m, id)
    ensures AnsweredBefore(run, m + 1, r)
  {
    hide SentAt, RepliesAt, WaitsFor, After;
    WaitsIff(run, m, r, id);
    var i: nat :| WaitsSince(run, i, m, r, id);
  }

  lemma {:induction false} CalledOnlyIf(run: seq<Event>, n: nat, r: Registration)
    requires n <= |run| && WasCalled(After(run[..n]), r)
    ensures AnsweredBefore(run, n, r)
  {
    assert run[..0] == [];
    if n > 0 {
      var m := n - 1;
      CalledStep(run, m, r);
      hide SentAt, RepliesAt, WaitsFor, WasCalled, After;
      if WasCalled(After(run[..m]), r) {
        CalledOnlyIf(run, m, r);
      } else {
        var id :| WaitsFor(After(run[..m]), r, id) && RepliesAt(run, m, id);
        AnsweredNow(run, m, r, id);
      }
    }
  }

  /** The callback of a request is invoked exactly if a packet with its id, which is not zero, came after it. */
  lemma CalledIff(run: seq<Event>, n: nat, r: Registration)
    requires n <= |run|
    ensures WasCalled(After(run[..n]), r) <==> AnsweredBefore(run, n, r)
  {
    hide SentAt, RepliesAt, WasCalled, After;
    if WasCalled(After(run[..n]), r) { CalledOnlyIf(run, n, r); }
    if AnsweredBefore(run, n, r) {
      var i: nat, k: nat, id :| i < k < n && SentAt(run, i, r, id) && RepliesAt(run, k, id);
      FirstReplyCalls(run, i, k, r, id);
      CallsStay(run, k + 1, n, r);
    }
  }

  // ---------------------------------------------------------------- agreement of the two collections

  /** A step keeps the two collections equal exactly if no callback throws in it. */
  lemma AgreementKeptIff(s: State, e: Event)
    requires s.callbacks.Keys == s.ids
    ensures Next(s, e).callbacks.Keys == Next(s, e).ids <==> !(Matches(s, e) && e.throws)
  {
  }

  /** The callback of `id` is invoked in step `i` and throws. */
  ghost predicate ThrewAt(run: seq<Event>, i: nat, id: Id) {
    && i < |run| && Matches(After(run[..i]), run[i]) && run[i].throws
    && Decode(run[i].data).package.requestID == id
  }

  /** The last thing that happened to `id` before step `n` is that its callback threw. */
  ghost predicate Stale(run: seq<Event>, n: nat, id: Id) {
    exists i: nat :: StaleSince(run, i, n, id)
  }

  ghost predicate StaleSince(run: seq<Event>, i: nat, n: nat, id: Id) {
    i < n && ThrewAt(run, i, id) && forall k :: i < k < n ==> !DrawnAt(run, k, id)
  }

  ghost predicate LeftBehind(s: State, id: Id) {
    id in s.callbacks && id !in s.ids
  }

  lemma LeftBehindStep(run: seq<Event>, n: nat, id: Id)
    requires n < |run|
    ensures LeftBehind(After(run[..n + 1]), id) <==>
              ThrewAt(run, n, id) || (LeftBehind(After(run[..n]), id) && !DrawnAt(run, n, id))
  {
    OneMore(run, n);
    AfterInv(run[..n]);
    hide After, Decode;
  }

  lemma StaleStep(run: seq<Event>, n: nat, id: Id)
    requires n < |run|
    ensures Stale(run, n + 1, id) <==> ThrewAt(run, n, id) || (Stale(run, n, id) && !DrawnAt(run, n, id))
  {
    hide ThrewAt, DrawnAt;
    if ThrewAt(run, n, id) { assert StaleSince(run, n, n + 1, id); }
    if Stale(run, n, id) && !DrawnAt(run, n, id) {
      var i: nat :| StaleSince(run, i, n, id);
      assert StaleSince(run, i, n + 1, id);
    }
    if Stale(run, n + 1, id) {
      var i: nat :| StaleSince(run, i, n + 1, id);
      assert i < n ==> StaleSince(run, i, n, id);
    }
  }

  /** The map keeps an id that is not outstanding exactly if its callback threw and it was not drawn again since. */
  lemma {:induction false} LeftBehindIff(run: seq<Event>, n: nat, id: Id)
    requires n <= |run|
    ensures LeftBehind(After(run[..n]), id) <==> Stale(run, n, id)
  {
    if n > 0 {
      hide LeftBehind, Stale, ThrewAt, DrawnAt;
      LeftBehindIff(run, n - 1, id);
      LeftBehindStep(run, n - 1, id);
      StaleStep(run, n - 1, id);
    } else {
      assert run[..0] == [];
    }
  }

  /** After a run, the two collections hold the same ids exactly if no id is left behind by a callback that threw. */
  lemma AgreementIff(run: seq<Event>)
    ensures After(run).callbacks.Keys == After(run).ids <==> forall id :: !Stale(run, |run|, id)
  {
    var s := After(run);
    assert run[..|run|] == run;
    AfterInv(run);
    hide After, Stale;
    forall id ensures LeftBehind(s, id) <==> Stale(run, |run|, id) { LeftBehindIff(run, |run|, id); }
    SameIff(s);
  }

  lemma SameIff(s: State)
    requires Outstanding(s)
    ensures s.callbacks.Keys == s.ids <==> forall id :: !LeftBehind(s, id)
  {
    if forall id :: !LeftBehind(s, id) {
      forall id ensures id in s.callbacks.Keys <==> id in s.ids { assert !LeftBehind(s, id); }
    }
  }

  /** In particular after every run in which no callback throws. */
  lemma AgreementWithoutThrows(run: seq<Event>)
    requires forall i: nat, id :: !ThrewAt(run, i, id)
    ensures After(run).callbacks.Keys == After(run).ids
  {
    hide After, ThrewAt, DrawnAt;
    AgreementIff(run);
  }
}
