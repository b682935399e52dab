/** The messages a room keeps, ordered by time stamps that have to be unique. */
module MessageLog {
  import opened Collections

  /** A clock reading in ticks. */
  type Time = int

  /** Seven days in ticks of a nanosecond. */
  const WEEK := 604_800_000_000_000

  datatype MessageType = Normal | Tip

  datatype Message = Message(sender: int, text: string, kind: MessageType, receiver: int)

  datatype Entry = Entry(key: Time, message: Message)

  type Log = seq<Entry>

  ghost predicate Sorted(log: Log) {
    forall i, j :: 0 <= i < j < |log| ==> log[i].key < log[j].key
  }

  predicate Occupied(log: Log, t: Time) {
    exists i :: 0 <= i < |log| && log[i].key == t
  }

  // ---------------------------------------------------------------- specification

  /** Number of entries before `t`. */
  function Before(log: Log, t: Time): (n: nat)
    ensures n <= |log|
    ensures n < |log| ==> t <= log[n].key
    ensures forall i :: 0 <= i < n ==> log[i].key < t
  {
    if log == [] || t <= log[0].key then 0 else 1 + Before(log[1..], t)
  }

  lemma BeforeMonotone(log: Log, t: Time, u: Time)
    requires Sorted(log)
    ensures t <= u ==> Before(log, t) <= Before(log, u)
  {
    if Before(log, u) < Before(log, t) { assert u <= log[Before(log, u)].key; }
  }

  /** Insertion at the place of the key. */
  function Insert(log: Log, e: Entry): Log {
    var n := Before(log, e.key);
    log[..n] + [e] + log[n..]
  }

  /** The first time stamp from `t` on that is not taken. */
  ghost predicate FirstFree(log: Log, t: Time, key: Time) {
    t <= key && !Occupied(log, key) && forall k :: t <= k < key ==> Occupied(log, k)
  }

  /** The probe, as a function. */
  function Probe(log: Log, t: Time): (key: Time)
    requires Sorted(log)
    ensures FirstFree(log, t, key)
    decreases if log == [] then 0 else log[|log| - 1].key + 1 - t
  {
    if !Occupied(log, t) then t else Probe(log, t + 1)
  }

  /** The entries of a time span: a stretch of the log. */
  function Between(log: Log, from: Time, to: Time): Log
    requires Sorted(log)
  {
    BeforeMonotone(log, from, to + 1);
    if from > to then [] else log[Before(log, from)..Before(log, to + 1)]
  }

  // ---------------------------------------------------------------- the rooms

  class GroupLog {
    var log: Log

    constructor ()
      ensures log == []
    {
      log := [];
    }

    /** Probes for a free time stamp, tick by tick, and stores the message there. */
    method Store(now: Time, message: Message) returns (key: Time)
      requires Sorted(log)
      modifies this
      ensures key == Probe(old(log), now)
      ensures log == Insert(old(log), Entry(key, message)) && Sorted(log)
    {
      key := now;
      while Occupied(log, key)
        invariant Probe(log, key) == Probe(log, now)
        decreases if log == [] then 0 else log[|log| - 1].key + 1 - key
      {
        key := key + 1;
      }
      InsertSorted(log, Entry(key, message));
      log := Insert(log, Entry(key, message));
    }

    method GetMessage(from: Time, to: Time) returns (r: seq<Entry>)
      requires Sorted(log)
      ensures r == Between(log, from, to)
    {
      r := [];
      if from > to || log == [] {
        return;
      }
      var start, end := Before(log, from), Before(log, to + 1);
      while start < end
        invariant Before(log, from) <= start <= end && r == log[Before(log, from)..start]
      {
        r := r + [log[start]];
        start := start + 1;
      }
    }

    /** One cleaning pass erases what is at least a week old. */
    method AutoClean(now: Time)
      requires Sorted(log)
      modifies this
      ensures log == old(log)[Before(old(log), now - WEEK + 1)..] && Sorted(log)
    {
      var end := Before(log, now - WEEK + 1);
      log := log[end..];
    }
  }

  /** A private room inserts at the clock reading itself; an insertion at a taken key has no effect. */
  class PrivateLog {
    var log: Log

    constructor ()
      ensures log == []
    {
      log := [];
    }

    method Store(now: Time, message: Message)
      requires Sorted(log)
      modifies this
      ensures log == StoredPrivately(old(log), now, message) && Sorted(log)
    {
      if !Occupied(log, now) {
        InsertSorted(log, Entry(now, message));
        log := Insert(log, Entry(now, message));
      }
    }

    method AutoClean(now: Time)
      requires Sorted(log)
      modifies this
      ensures log == old(log)[Before(old(log), now - WEEK + 1)..] && Sorted(log)
    {
      var end := Before(log, now - WEEK + 1);
      log := log[end..];
    }
  }

  function StoredPrivately(log: Log, now: Time, message: Message): Log {
    if Occupied(log, now) then log else Insert(log, Entry(now, message))
  }

  lemma InsertSorted(log: Log, e: Entry)
    requires Sorted(log) && !Occupied(log, e.key)
    ensures Sorted(Insert(log, e))
  {
  }

  /** A query returns all entries of the time span and no others, in the order of the log. */
  lemma BetweenExactly(log: Log, from: Time, to: Time, e: Entry)
    requires Sorted(log)
    ensures e in Between(log, from, to) <==> e in log && from <= e.key <= to
    ensures Sorted(Between(log, from, to))
  {
  }

  // ---------------------------------------------------------------- runs

  datatype Event = Send(now: Time, message: Message) | Clean(now: Time)

  /** `sent` is the history of all messages with their time stamps, erased or not. */
  datatype State = State(log: Log, sent: Log)

  lemma FirstFreeUnique(log: Log, t: Time, k1: Time, k2: Time)
    requires FirstFree(log, t, k1) && FirstFree(log, t, k2)
    ensures k1 == k2
  {
    assert k1 < k2 ==> Occupied(log, k1);
    assert k2 < k1 ==> Occupied(log, k2);
  }

  function Next(s: State, e: Event): (t: State)
    requires Sorted(s.log)
    ensures Sorted(t.log)
  {
    match e
    case Send(now, message) =>
      var entry := Entry(Probe(s.log, now), message);
      InsertSorted(s.log, entry);
      State(Insert(s.log, entry), s.sent + [entry])
    case Clean(now) =>
      s.(log := s.log[Before(s.log, now - WEEK + 1)..])
  }

  function After(run: seq<Event>): (s: State)
    ensures Sorted(s.log)
  {
    if run == [] then State([], []) else Next(After(run[..|run| - 1]), run[|run| - 1])
  }

  /** The clock readings never decrease. */
  ghost predicate Ordered(run: seq<Event>) {
    forall i, j :: 0 <= i < j < |run| ==> run[i].now <= run[j].now
  }

  /** Every time stamp from the latest reading up to the last one stored is taken. */
  ghost predicate Contiguous(log: Log, latest: Time) {
    forall k :: log != [] && latest <= k <= log[|log| - 1].key ==> Occupied(log, k)
  }

  /** Messages are stamped in the order they were sent; what is erased is an old beginning. */
  ghost predicate InOrder(s: State, latest: Time) {
    && Sorted(s.log) && Sorted(s.sent) && |s.log| <= |s.sent|
    && s.log == s.sent[|s.sent| - |s.log|..]
    && (forall i :: 0 <= i < |s.sent| - |s.log| ==> s.sent[i].key < latest)
    && Contiguous(s.log, latest)
  }

  /** The new time stamp is above all others exactly when none of them is free from the reading on. */
  lemma KeyAboveAllIff(log: Log, now: Time)
    requires Sorted(log)
    ensures (forall i :: 0 <= i < |log| ==> log[i].key < Probe(log, now)) <==> Contiguous(log, now)
  {
  }

  lemma AppendAtEnd(log: Log, e: Entry)
    requires forall i :: 0 <= i < |log| ==> log[i].key < e.key
    ensures Insert(log, e) == log + [e]
  {
  }

  lemma SortedAppend(log: Log, e: Entry)
    requires Sorted(log) && forall i :: 0 <= i < |log| ==> log[i].key < e.key
    ensures Sorted(log + [e])
  {
  }

  lemma ContiguousAppend(log: Log, e: Entry, now: Time)
    requires forall k :: now <= k < e.key ==> Occupied(log, k)
    ensures Contiguous(log + [e], now)
  {
    var t := log + [e];
    forall k | now <= k <= e.key ensures Occupied(t, k) {
      if k == e.key {
        assert t[|log|].key == k;
      } else {
        StillOccupied(log, e, k);
      }
    }
  }

  lemma SendInOrder(s: State, latest: Time, now: Time, message: Message)
    requires InOrder(s, latest) && latest <= now
    ensures InOrder(Next(s, Send(now, message)), now)
  {
    hide Insert, Occupied, Before;
    var d, e := |s.sent| - |s.log|, Entry(Probe(s.log, now), message);
    KeyAboveAllIff(s.log, now);
    AppendAtEnd(s.log, e);
    AppendedSuffix(s.sent, d, e);
    ContiguousAppend(s.log, e, now);
    SortedAppend(s.log, e);
    forall i | 0 <= i < |s.sent| ensures s.sent[i].key < e.key {
      if i >= d { assert s.sent[i] == s.log[i - d]; }
    }
    SortedAppend(s.sent, e);
  }

  lemma StillOccupied(log: Log, e: Entry, k: Time)
    requires Occupied(log, k)
    ensures Occupied(log + [e], k)
  {
    var i :| 0 <= i < |log| && log[i].key == k;
    assert (log + [e])[i].key == k;
  }

  lemma ContiguousSuffix(log: Log, n: nat, now: Time)
    requires Contiguous(log, now) && n <= |log|
    requires forall i :: 0 <= i < n ==> log[i].key < now
    ensures Contiguous(log[n..], now)
  {
    var t := log[n..];
    forall k | t != [] && now <= k <= t[|t| - 1].key ensures Occupied(t, k) {
      assert Occupied(log, k);
      var i :| 0 <= i < |log| && log[i].key == k;
      assert t[i - n].key == k;
    }
  }

  lemma OldBeginning(s: State, latest: Time, now: Time, i: nat)
    requires InOrder(s, latest) && latest <= now
    requires i < |s.sent| - |s.log| + Before(s.log, now - WEEK + 1)
    ensures s.sent[i].key < now
  {
    var d := |s.sent| - |s.log|;
    if i >= d { assert s.sent[i] == s.log[i - d]; }
  }

  lemma CleanContiguous(log: Log, latest: Time, now: Time)
    requires Contiguous(log, latest) && latest <= now
    ensures Contiguous(log[Before(log, now - WEEK + 1)..], now)
  {
    ContiguousSuffix(log, Before(log, now - WEEK + 1), now);
  }

  lemma CleanInOrder(s: State, latest: Time, now: Time)
    requires InOrder(s, latest) && latest <= now
    ensures InOrder(Next(s, Clean(now)), now)
  {
    hide Insert, Probe, Occupied, Before, Sorted, Contiguous;
    var d, n := |s.sent| - |s.log|, Before(s.log, now - WEEK + 1);
    SuffixTwice(s.sent, d, n);
    CleanContiguous(s.log, latest, now);
    forall i | 0 <= i < d + n ensures s.sent[i].key < now {
      OldBeginning(s, latest, now, i);
    }
  }

  /** If the clock never goes back, the order of the time stamps is the order of sending, across all cleaning. */
  lemma {:induction false} KeptInOrder(run: seq<Event>)
    requires Ordered(run)
    ensures InOrder(After(run), if run == [] then 0 else run[|run| - 1].now)
  {
    if run != [] {
      var before, e := run[..|run| - 1], run[|run| - 1];
      KeptInOrder(before);
      var latest := if before == [] then e.now else before[|before| - 1].now;
      assert InOrder(After(before), latest);
      match e
      case Send(now, message) => SendInOrder(After(before), latest, now, message);
      case Clean(now) => CleanInOrder(After(before), latest, now);
    }
  }

  /** Then every query returns a stretch of the messages sent. */
  lemma QueriesInOrder(run: seq<Event>, from: Time, to: Time) returns (i: nat, j: nat)
    requires Ordered(run)
    ensures i <= j <= |After(run).sent| && Between(After(run).log, from, to) == After(run).sent[i..j]
  {
    hide After, Before, Contiguous, Sorted;
    KeptInOrder(run);
    var s := After(run);
    i, j := 0, 0;
    if from <= to {
      BeforeMonotone(s.log, from, to + 1);
      var d := |s.sent| - |s.log|;
      i, j := d + Before(s.log, from), d + Before(s.log, to + 1);
      SliceOfSuffix(s.sent, d, Before(s.log, from), Before(s.log, to + 1));
    }
  }

  /** A clock that goes back breaks the order: the later message is stamped before the earlier one. */
  lemma BackwardClock(now: Time, first: Message, second: Message)
    ensures var s := After([Send(now, first), Send(now - 1, second)]);
      s.sent == [Entry(now, first), Entry(now - 1, second)] && s.log == [Entry(now - 1, second), Entry(now, first)]
  {
    var run := [Send(now, first), Send(now - 1, second)];
    assert run[..1] == [Send(now, first)] && run[..1][..0] == [];
    assert After(run[..1]).log == [Entry(now, first)];
  }

  // ---------------------------------------------------------------- nothing is lost

  /** Some cleaning pass of the run finds the time stamp at least a week old. */
  ghost predicate Expired(run: seq<Event>, key: Time) {
    exists i :: 0 <= i < |run| && run[i].Clean? && key <= run[i].now - WEEK
  }

  lemma InsertKeeps(log: Log, e: Entry, x: Entry)
    ensures x in Insert(log, e) <==> x == e || x in log
  {
    var n := Before(log, e.key);
    assert log == log[..n] + log[n..];
  }

  lemma CleanKeeps(log: Log, now: Time, x: Entry)
    requires Sorted(log)
    ensures x in log[Before(log, now - WEEK + 1)..] <==> x in log && x.key > now - WEEK
  {
  }

  lemma ExpiredStep(run: seq<Event>, key: Time)
    requires run != []
    ensures Expired(run, key) <==>
            var e := run[|run| - 1];
            Expired(run[..|run| - 1], key) || (e.Clean? && key <= e.now - WEEK)
  {
  }

  /** A time stamp that was not taken before the latest reading is not yet a week old in any pass. */
  lemma StampedLater(run: seq<Event>, key: Time)
    requires run != [] && Ordered(run) && key >= run[|run| - 1].now
    ensures !Expired(run, key)
  {
  }

  /** However the clock behaves, a message is in the log unless a cleaning pass found it a week old. */
  lemma {:induction false} OnlyExpiredLost(run: seq<Event>, x: Entry)
    requires x in After(run).sent && !Expired(run, x.key)
    ensures x in After(run).log
  {
    var before, e := run[..|run| - 1], run[|run| - 1];
    var s := After(before);
    ExpiredStep(run, x.key);
    if x in s.sent { OnlyExpiredLost(before, x); }
    match e
    case Send(now, message) => InsertKeeps(s.log, Entry(Probe(s.log, now), message), x);
    case Clean(now) => CleanKeeps(s.log, now, x);
  }

  lemma {:induction false} ExpiredGone(run: seq<Event>, x: Entry)
    requires Ordered(run) && x in After(run).log
    ensures !Expired(run, x.key)
  {
    if run != [] {
      var before, e := run[..|run| - 1], run[|run| - 1];
      var s := After(before);
      hide Insert, Expired, Before;
      ExpiredStep(run, x.key);
      match e
      case Send(now, message) =>
        InsertKeeps(s.log, Entry(Probe(s.log, now), message), x);
        if x in s.log { ExpiredGone(before, x); } else { StampedLater(run, x.key); }
      case Clean(now) =>
        CleanKeeps(s.log, now, x);
        ExpiredGone(before, x);
    }
  }

  /** With a clock that never goes back, the log holds exactly the messages that have not expired. */
  lemma LogExactly(run: seq<Event>, x: Entry)
    requires Ordered(run)
    ensures x in After(run).log <==> x in After(run).sent && !Expired(run, x.key)
  {
    KeptInOrder(run);
    if x in After(run).log { ExpiredGone(run, x); }
    if x in After(run).sent && !Expired(run, x.key) { OnlyExpiredLost(run, x); }
  }

  /** A cleaning pass takes exactly what is seven days old. */
  lemma SevenDays(run: seq<Event>, now: Time, x: Entry)
    ensures x in After(run + [Clean(now)]).log <==> x in After(run).log && now - x.key < 604_800_000_000_000
    ensures x in AfterPrivate(run + [Clean(now)]) <==> x in AfterPrivate(run) && now - x.key < 604_800_000_000_000
  {
    assert (run + [Clean(now)])[..|run|] == run;
    CleanKeeps(After(run).log, now, x);
    CleanKeeps(AfterPrivate(run), now, x);
  }

  /** A message that is sent gets the first free time stamp from the reading on, and nothing else in the log changes. */
  lemma SentExactly(run: seq<Event>, now: Time, message: Message, x: Entry)
    ensures var s, t := After(run), After(run + [Send(now, message)]);
      && |t.sent| == |s.sent| + 1 && t.sent[..|s.sent|] == s.sent
      && t.sent[|s.sent|].message == message && FirstFree(s.log, now, t.sent[|s.sent|].key)
      && (x in t.log <==> x in s.log || x == t.sent[|s.sent|])
  {
    assert (run + [Send(now, message)])[..|run|] == run;
    var s := After(run);
    InsertKeeps(s.log, Entry(Probe(s.log, now), message), x);
    hide Insert, Before, Occupied;
  }

  // ---------------------------------------------------------------- private rooms

  function NextPrivate(log: Log, e: Event): (t: Log)
    requires Sorted(log)
    ensures Sorted(t)
  {
    match e
    case Send(now, message) =>
      StoredPrivatelySorted(log, now, message);
      StoredPrivately(log, now, message)
    case Clean(now) => log[Before(log, now - WEEK + 1)..]
  }

  function AfterPrivate(run: seq<Event>): (log: Log)
    ensures Sorted(log)
  {
    if run == [] then [] else NextPrivate(AfterPrivate(run[..|run| - 1]), run[|run| - 1])
  }

  lemma StoredPrivatelySorted(log: Log, now: Time, message: Message)
    requires Sorted(log)
    ensures Sorted(StoredPrivately(log, now, message))
  {
    if !Occupied(log, now) { InsertSorted(log, Entry(now, message)); }
  }

  lemma OneMorePrivate(run: seq<Event>, n: nat)
    requires n < |run|
    ensures AfterPrivate(run[..n + 1]) == NextPrivate(AfterPrivate(run[..n]), run[n])
  {
    assert run[..n + 1][..n] == run[..n];
  }

  lemma OccupiedAfterInsert(log: Log, e: Entry, t: Time)
    ensures Occupied(Insert(log, e), t) <==> Occupied(log, t) || t == e.key
  {
    var n := Before(log, e.key);
    var r := Insert(log, e);
    if Occupied(log, t) {
      var i :| 0 <= i < |log| && log[i].key == t;
      assert r[if i < n then i else i + 1].key == t;
    }
    assert r[n].key == e.key;
    if Occupied(r, t) {
      var i :| 0 <= i < |r| && r[i].key == t;
      assert i == n || r[i] == log[if i < n then i else i - 1];
    }
  }

  lemma OccupiedAfterClean(log: Log, now: Time, t: Time)
    requires Sorted(log)
    ensures Occupied(log[Before(log, now - WEEK + 1)..], t) <==> Occupied(log, t) && t > now - WEEK
  {
    var n := Before(log, now - WEEK + 1);
    if Occupied(log, t) && t > now - WEEK {
      var i :| 0 <= i < |log| && log[i].key == t;
      assert log[n..][i - n].key == t;
    }
  }

  /** The message sent in step `i` has not expired before step `n`. */
  ghost predicate Unexpired(run: seq<Event>, i: nat, n: nat) {
    && i < n <= |run| && run[i].Send?
    && forall k :: i < k < n && run[k].Clean? ==> run[i].now > run[k].now - WEEK
  }

  /** It has not, and no message with the same reading was there, unexpired, when it was sent. */
  ghost predicate KeptPrivately(run: seq<Event>, i: nat, n: nat) {
    Unexpired(run, i, n) && forall j: nat :: Unexpired(run, j, i) ==> run[j].now != run[i].now
  }

  lemma UnexpiredStep(run: seq<Event>, i: nat, n: nat)
    requires n < |run|
    ensures Unexpired(run, i, n + 1) <==>
              (i == n && run[n].Send?) || (Unexpired(run, i, n) && (run[n].Clean? ==> run[i].now > run[n].now - WEEK))
  {
  }

  ghost predicate Taken(run: seq<Event>, n: nat, t: Time) {
    exists i: nat :: Unexpired(run, i, n) && run[i].now == t
  }

  lemma TakenStep(run: seq<Event>, n: nat, t: Time)
    requires n < |run|
    ensures Taken(run, n + 1, t) <==>
              if run[n].Send? then Taken(run, n, t) || run[n].now == t else Taken(run, n, t) && t > run[n].now - WEEK
  {
    UnexpiredStep(run, n, n);
    hide Unexpired;
    if Taken(run, n, t) {
      var i: nat :| Unexpired(run, i, n) && run[i].now == t;
      UnexpiredStep(run, i, n);
    }
    if Taken(run, n + 1, t) {
      var i: nat :| Unexpired(run, i, n + 1) && run[i].now == t;
      UnexpiredStep(run, i, n);
    }
  }

  /** A time stamp is occupied exactly if an unexpired message was sent at that reading. */
  lemma {:induction false} OccupiedIff(run: seq<Event>, n: nat, t: Time)
    requires n <= |run|
    ensures Occupied(AfterPrivate(run[..n]), t) <==> Taken(run, n, t)
  {
    if n > 0 {
      hide Taken, Occupied, Insert, Before;
      var log, e := AfterPrivate(run[..n - 1]), run[n - 1];
      OccupiedIff(run, n - 1, t);
      OneMorePrivate(run, n - 1);
      TakenStep(run, n - 1, t);
      if e.Send? {
        OccupiedAfterInsert(log, Entry(e.now, e.message), t);
        if Occupied(log, e.now) { assert e.now == t ==> Occupied(log, t); }
      } else {
        OccupiedAfterClean(log, e.now, t);
      }
    } else {
      assert run[..0] == [];
    }
  }

  /** An entry that some step has put there for good. */
  ghost predicate Put(run: seq<Event>, n: nat, x: Entry) {
    exists i: nat :: KeptPrivately(run, i, n) && x == Entry(run[i].now, run[i].message)
  }

  lemma PutStep(run: seq<Event>, n: nat, x: Entry)
    requires n < |run|
    ensures Put(run, n + 1, x) <==>
              if run[n].Send? then
                Put(run, n, x) || (x == Entry(run[n].now, run[n].message) && !Taken(run, n, run[n].now))
              else Put(run, n, x) && x.key > run[n].now - WEEK
  {
    UnexpiredStep(run, n, n);
    hide Unexpired;
    if Put(run, n, x) {
      var i: nat :| KeptPrivately(run, i, n) && x == Entry(run[i].now, run[i].message);
      UnexpiredStep(run, i, n);
      if Unexpired(run, i, n + 1) { assert KeptPrivately(run, i, n + 1); }
    }
    if run[n].Send? && x == Entry(run[n].now, run[n].message) && !Taken(run, n, run[n].now) {
      assert KeptPrivately(run, n, n + 1);
    }
    if Put(run, n + 1, x) {
      var i: nat :| KeptPrivately(run, i, n + 1) && x == Entry(run[i].now, run[i].message);
      UnexpiredStep(run, i, n);
      if Unexpired(run, i, n) { assert KeptPrivately(run, i, n); }
    }
  }

  /**
    A private room's log holds exactly the unexpired messages that found no unexpired one with their reading when
    they were sent, however the clock behaves.
  */
  lemma {:induction false} PrivateLogExactly(run: seq<Event>, n: nat, x: Entry)
    requires n <= |run|
    ensures x in AfterPrivate(run[..n]) <==> Put(run, n, x)
  {
    if n > 0 {
      hide Put, Taken, Occupied, Insert, Before;
      var log, e := AfterPrivate(run[..n - 1]), run[n - 1];
      PrivateLogExactly(run, n - 1, x);
      OneMorePrivate(run, n - 1);
      PutStep(run, n - 1, x);
      if e.Send? {
        OccupiedIff(run, n - 1, e.now);
        InsertKeeps(log, Entry(e.now, e.message), x);
      } else {
        CleanKeeps(log, e.now, x);
      }
    } else {
      assert run[..0] == [];
    }
  }

  ghost predicate DistinctReadings(run: seq<Event>) {
    forall i, j :: 0 <= i < j < |run| ==> run[i].now != run[j].now
  }

  lemma DistinctStep(run: seq<Event>)
    requires run != [] && forall i :: 0 <= i < |run| ==> run[i].Send?
    ensures var n := |run| - 1;
      DistinctReadings(run) <==> DistinctReadings(run[..n]) && !Taken(run, n, run[n].now)
  {
    var n := |run| - 1;
    assert forall i :: 0 <= i < n ==> run[..n][i] == run[i];
    assert forall i: nat :: i < n ==> Unexpired(run, i, n);
  }

  /** Before any cleaning, all messages are kept exactly when no two of them are sent at the same reading. */
  lemma {:induction false} AllKeptIff(run: seq<Event>)
    requires forall i :: 0 <= i < |run| ==> run[i].Send?
    ensures |AfterPrivate(run)| <= |run|
    ensures |AfterPrivate(run)| == |run| <==> DistinctReadings(run)
  {
    if run != [] {
      hide Occupied, Before, DistinctReadings, Sorted, Taken;
      var n := |run| - 1;
      AllKeptIff(run[..n]);
      OccupiedIff(run, n, run[n].now);
      DistinctStep(run);
    }
  }
}
