/**
  The rate limiter for new connections: a token bucket for every address, one for all of them, and the
  periodic eviction of idle buckets. Time is in seconds since the clock's epoch.
*/
module RateLimiting {
  import opened Collections

  /** Addresses are only compared for equality. */
  datatype Address = Address(text: string)

  const IDLE_TIME := 60.0

  /** A new bucket is empty and was last updated at the epoch. */
  datatype Bucket = Bucket(tokens: real, last: real)

  const NEW_BUCKET := Bucket(0.0, 0.0)

  datatype State = State(buckets: map<Address, Bucket>, all: Bucket)

  const INITIAL := State(map[], NEW_BUCKET)

  // ---------------------------------------------------------------- specification

  function Min(a: real, b: real): real {
    if b < a then b else a
  }

  /** What is gained in some seconds. */
  function Gain(capacity: real, seconds: real): real {
    seconds * capacity
  }

  function Refilled(tokens: real, last: real, capacity: real, now: real): real {
    Min(capacity, tokens + Gain(capacity, now - last))
  }

  /** The tokens of a bucket of the given capacity at a later time. */
  function Tokens(b: Bucket, capacity: real, now: real): real {
    Refilled(b.tokens, b.last, capacity, now)
  }

  /** Every attempt costs a token, also one that is refused for want of a token. */
  function Paid(b: Bucket, capacity: real, now: real): Bucket {
    Bucket(Tokens(b, capacity, now) - 1.0, now)
  }

  function BucketOf(s: State, a: Address): Bucket {
    if a in s.buckets then s.buckets[a] else NEW_BUCKET
  }

  /** An attempt to connect, or the test of one bucket during a cleaning pass. */
  datatype Event =
    | Attempt(address: Address, now: real)
    | Visit(address: Address, now: real)

  /** The address's own bucket lets the attempt pass. */
  predicate Passes(s: State, capacity: real, e: Event) {
    e.Attempt? && Tokens(BucketOf(s, e.address), capacity, e.now) > 0.0
  }

  predicate Accepted(s: State, capacity: real, global: real, e: Event) {
    Passes(s, capacity, e) && Tokens(s.all, global, e.now) > 0.0
  }

  function Next(s: State, capacity: real, global: real, e: Event): State {
    match e
    case Attempt(a, now) =>
      State(s.buckets[a := Paid(BucketOf(s, a), capacity, now)],
            if Passes(s, capacity, e) then Paid(s.all, global, now) else s.all)
    case Visit(a, now) =>
      if a in s.buckets && now - s.buckets[a].last >= IDLE_TIME then s.(buckets := s.buckets - {a}) else s
  }

  class RateLimiter {
    var globalCapacity: real
    var singleCapacity: real
    var globalToken: real
    var lastUpdate: real
    var buckets: map<Address, Bucket>

    ghost function Abs(): State
      reads this
    {
      State(buckets, Bucket(globalToken, lastUpdate))
    }

    constructor (globalCapacity: real, singleCapacity: real)
      ensures Abs() == INITIAL
      ensures this.globalCapacity == globalCapacity && this.singleCapacity == singleCapacity
    {
      this.globalCapacity, this.singleCapacity := globalCapacity, singleCapacity;
      globalToken, lastUpdate, buckets := 0.0, 0.0, map[];
    }

    method SetSingleCapacity(capacity: real)
      modifies this`singleCapacity
      ensures singleCapacity == capacity
    {
      singleCapacity := capacity;
    }

    method SetGlobalCapacity(capacity: real)
      modifies this`globalCapacity
      ensures globalCapacity == capacity
    {
      globalCapacity := capacity;
    }

    method AllowConnection(a: Address, now: real) returns (allow: bool)
      modifies this`globalToken, this`lastUpdate, this`buckets
      ensures allow == Accepted(old(Abs()), singleCapacity, globalCapacity, Attempt(a, now))
      ensures Abs() == Next(old(Abs()), singleCapacity, globalCapacity, Attempt(a, now))
    {
      if a !in buckets {
        buckets := buckets[a := NEW_BUCKET];
      }
      var tokens := Refilled(buckets[a].tokens, buckets[a].last, singleCapacity, now);
      allow := tokens > 0.0;
      buckets := buckets[a := Bucket(tokens - 1.0, now)];
      assert buckets == old(buckets)[a := buckets[a]];
      if !allow {
        return false;
      }
      var token := Refilled(globalToken, lastUpdate, globalCapacity, now);
      if token <= 0.0 {
        allow := false;
      }
      globalToken := token - 1.0;
      lastUpdate := now;
    }

    /** One cleaning pass; the clock is read anew for every bucket. */
    method AutoClean(now: map<Address, real>)
      requires now.Keys == buckets.Keys
      modifies this`buckets
      ensures buckets == map a | a in old(buckets) && now[a] - old(buckets)[a].last < IDLE_TIME :: old(buckets)[a]
      ensures forall a :: a in old(buckets) ==>
        (a in buckets <==> a in Next(old(Abs()), singleCapacity, globalCapacity, Visit(a, now[a])).buckets)
    {
      var todo := buckets.Keys;
      while todo != {}
        invariant todo <= old(buckets).Keys
        invariant forall a :: a in buckets <==>
          a in old(buckets) && (a in todo || now[a] - old(buckets)[a].last < IDLE_TIME)
        invariant forall a :: a in buckets ==> buckets[a] == old(buckets)[a]
        decreases |todo|
      {
        var a := Pick(todo);
        todo := todo - {a};
        if now[a] - buckets[a].last >= IDLE_TIME {
          buckets := buckets - {a};
        }
      }
    }
  }

  // ---------------------------------------------------------------- runs and windows

  /** The clock never goes back. */
  ghost predicate Ordered(run: seq<Event>) {
    forall i, j :: 0 <= i < j < |run| ==> run[i].now <= run[j].now
  }

  function After(capacity: real, global: real, run: seq<Event>): State {
    if run == [] then INITIAL
    else Next(After(capacity, global, run[..|run| - 1]), capacity, global, run[|run| - 1])
  }

  /** Attempts of one address that its bucket lets pass, among the events `i..j` of a run. */
  function Passed(capacity: real, global: real, run: seq<Event>, a: Address, i: nat, j: nat): nat
    requires i <= j <= |run|
    decreases j
  {
    if i == j then 0
    else
      Passed(capacity, global, run, a, i, j - 1) +
      if run[j - 1].address == a && Passes(After(capacity, global, run[..j - 1]), capacity, run[j - 1]) then 1 else 0
  }

  /** Connections of one address that are accepted, among the events `i..j`. */
  function AcceptedFrom(capacity: real, global: real, run: seq<Event>, a: Address, i: nat, j: nat): nat
    requires i <= j <= |run|
    decreases j
  {
    if i == j then 0
    else
      AcceptedFrom(capacity, global, run, a, i, j - 1) +
      if run[j - 1].address == a && Accepted(After(capacity, global, run[..j - 1]), capacity, global, run[j - 1])
      then 1 else 0
  }

  /** Connections that are accepted from any address. */
  function AcceptedFromAll(capacity: real, global: real, run: seq<Event>, i: nat, j: nat): nat
    requires i <= j <= |run|
    decreases j
  {
    if i == j then 0
    else
      AcceptedFromAll(capacity, global, run, i, j - 1) +
      if Accepted(After(capacity, global, run[..j - 1]), capacity, global, run[j - 1]) then 1 else 0
  }

  /** The events `i..j` happen within `d` seconds. */
  predicate Within(run: seq<Event>, i: nat, j: nat, d: real) {
    i < j <= |run| && run[j - 1].now - run[i].now <= d
  }

  /** The limit for a window of `d` seconds. */
  predicate Below(n: nat, capacity: real, d: real) {
    n as real < capacity * (1.0 + d) + 1.0
  }

  lemma AfterOneMore(capacity: real, global: real, run: seq<Event>, j: nat)
    requires j < |run|
    ensures After(capacity, global, run[..j + 1]) == Next(After(capacity, global, run[..j]), capacity, global, run[j])
  {
    assert run[..j + 1][..j] == run[..j];
  }

  // ---------------------------------------------------------------- what a bucket can still grant

  lemma GainAdds(capacity: real, x: real, y: real)
    ensures Gain(capacity, x + y) == Gain(capacity, x) + Gain(capacity, y)
    ensures Gain(capacity, 0.0) == 0.0 && Gain(capacity, 1.0) == capacity
    ensures capacity > 0.0 && x >= 0.0 ==> Gain(capacity, x) >= 0.0
  {
  }

  lemma GainOfMinute(capacity: real)
    ensures Gain(capacity, 60.0) == 60.0 * capacity
  {
  }

  /** Tokens grow by at most the capacity every second. */
  lemma TokensGrow(b: Bucket, capacity: real, now: real, later: real)
    requires now <= later && capacity > 0.0
    ensures Tokens(b, capacity, later) <= Tokens(b, capacity, now) + Gain(capacity, later - now)
    ensures Tokens(b, capacity, now) <= Tokens(b, capacity, later) <= capacity
  {
    hide Gain;
    GainAdds(capacity, later - now, now - b.last);
    assert (later - now) + (now - b.last) == later - b.last;
  }

  lemma TokensAfterPaying(b: Bucket, capacity: real, now: real)
    ensures Tokens(Paid(b, capacity, now), capacity, now) == Min(capacity, Tokens(b, capacity, now) - 1.0)
  {
    hide Gain;
    GainAdds(capacity, 0.0, 0.0);
    assert now - Paid(b, capacity, now).last == 0.0;
  }

  /** What eviction could give at best: the capacity, but not before the bucket has been idle for long enough. */
  function Renewal(last: real, capacity: real, now: real): real {
    Min(capacity, Gain(capacity, now - last) - 59.0 * capacity)
  }

  lemma RenewalGrows(last: real, capacity: real, now: real, later: real)
    requires now <= later && capacity > 0.0
    ensures Renewal(last, capacity, later) <= Renewal(last, capacity, now) + Gain(capacity, later - now)
    ensures now >= last ==> Renewal(last, capacity, now) >= -59.0 * capacity
    ensures now - last >= IDLE_TIME ==> Renewal(last, capacity, now) == capacity
    ensures Renewal(now, capacity, now) == -59.0 * capacity
  {
    hide Gain;
    GainAdds(capacity, later - now, now - last);
    assert (later - now) + (now - last) == later - last;
    GainAdds(capacity, now - last, 0.0);
    GainAdds(capacity, now - last - 60.0, 60.0);
    assert (now - last - 60.0) + 60.0 == now - last;
    GainOfMinute(capacity);
    assert now - now == 0.0;
  }

  /** An upper bound for what an address can still be granted, whether its bucket is evicted or not. */
  function Credit(s: State, capacity: real, a: Address, now: real): real {
    if a !in s.buckets then capacity
    else if Tokens(s.buckets[a], capacity, now) < Renewal(s.buckets[a].last, capacity, now)
    then Renewal(s.buckets[a].last, capacity, now)
    else Tokens(s.buckets[a], capacity, now)
  }

  lemma CreditGrows(s: State, capacity: real, a: Address, now: real, later: real)
    requires now <= later && capacity > 0.0
    ensures Credit(s, capacity, a, later) <= Credit(s, capacity, a, now) + Gain(capacity, later - now)
    ensures Tokens(BucketOf(s, a), capacity, now) <= Credit(s, capacity, a, now) <= capacity
  {
    hide Gain;
    GainAdds(capacity, later - now, 0.0);
    if a in s.buckets {
      TokensGrow(s.buckets[a], capacity, now, later);
      RenewalGrows(s.buckets[a].last, capacity, now, later);
    }
  }

  /** No bucket was updated in the future. */
  ghost predicate UpTo(s: State, now: real) {
    forall a :: a in s.buckets ==> s.buckets[a].last <= now
  }

  /** An event costs the credit of an address a unit when it lets an attempt pass, and never raises it. */
  lemma CreditSpent(s: State, capacity: real, global: real, a: Address, e: Event)
    requires 59.0 * capacity >= 1.0 && UpTo(s, e.now)
    ensures UpTo(Next(s, capacity, global, e), e.now)
    ensures Credit(Next(s, capacity, global, e), capacity, a, e.now) <=
            Credit(s, capacity, a, e.now) - if e.address == a && Passes(s, capacity, e) then 1.0 else 0.0
  {
    hide Gain;
    if e.address == a {
      CreditGrows(s, capacity, a, e.now, e.now);
      if a in s.buckets { RenewalGrows(s.buckets[a].last, capacity, e.now, e.now); }
      if e.Attempt? {
        TokensAfterPaying(BucketOf(s, a), capacity, e.now);
        RenewalGrows(e.now, capacity, e.now, e.now);
      }
    }
  }

  // ---------------------------------------------------------------- one address

  /** The capacity and what is gained between two moments. */
  function Allowance(capacity: real, from: real, to: real): real {
    capacity + Gain(capacity, to - from)
  }

  lemma AllowanceGrows(capacity: real, from: real, mid: real, to: real)
    ensures Allowance(capacity, from, to) == Allowance(capacity, from, mid) + Gain(capacity, to - mid)
    ensures Allowance(capacity, from, from) == capacity
    ensures capacity > 0.0 && mid <= to ==> Allowance(capacity, from, mid) <= Allowance(capacity, from, to)
  {
  }

  lemma {:induction false} NoneFromFuture(capacity: real, global: real, run: seq<Event>, j: nat)
    requires Ordered(run) && j < |run|
    ensures UpTo(After(capacity, global, run[..j]), run[j].now)
  {
    if j > 0 {
      NoneFromFuture(capacity, global, run, j - 1);
      AfterOneMore(capacity, global, run, j - 1);
    }
  }

  lemma CreditStep(capacity: real, global: real, run: seq<Event>, a: Address, k: nat)
    requires 59.0 * capacity >= 1.0 && Ordered(run)
    requires k + 1 < |run| && UpTo(After(capacity, global, run[..k]), run[k].now)
    ensures var s := After(capacity, global, run[..k]);
      Credit(After(capacity, global, run[..k + 1]), capacity, a, run[k + 1].now) <=
      Credit(s, capacity, a, run[k].now) + Gain(capacity, run[k + 1].now - run[k].now)
        - if run[k].address == a && Passes(s, capacity, run[k]) then 1.0 else 0.0
  {
    hide Gain, Credit, Next, Passes;
    AfterOneMore(capacity, global, run, k);
    CreditSpent(After(capacity, global, run[..k]), capacity, global, a, run[k]);
    CreditGrows(After(capacity, global, run[..k + 1]), capacity, a, run[k].now, run[k + 1].now);
  }

  /** Up to event `j`, the passed attempts since event `i` are paid for by the capacity and the elapsed time. */
  lemma {:induction false} CreditSince(capacity: real, global: real, run: seq<Event>, a: Address, i: nat, j: nat)
    requires 59.0 * capacity >= 1.0 && Ordered(run)
    requires i <= j < |run|
    ensures Credit(After(capacity, global, run[..j]), capacity, a, run[j].now) <=
            Allowance(capacity, run[i].now, run[j].now) - Passed(capacity, global, run, a, i, j) as real
    decreases j
  {
    hide Gain, Credit, Next, Passes, Allowance;
    if i == j {
      AllowanceGrows(capacity, run[i].now, run[i].now, run[i].now);
      CreditGrows(After(capacity, global, run[..j]), capacity, a, run[j].now, run[j].now);
    } else {
      AllowanceGrows(capacity, run[i].now, run[j - 1].now, run[j].now);
      CreditSince(capacity, global, run, a, i, j - 1);
      NoneFromFuture(capacity, global, run, j - 1);
      CreditStep(capacity, global, run, a, j - 1);
    }
  }

  /** Fewer than cap (1 + d) + 1 attempts of one address pass within any d seconds, evictions or not. */
  lemma {:induction false} PassedInWindow(capacity: real, global: real, run: seq<Event>, a: Address, i: nat, j: nat)
    requires 59.0 * capacity >= 1.0 && Ordered(run) && i < j <= |run|
    ensures Passed(capacity, global, run, a, i, j) as real < Allowance(capacity, run[i].now, run[j - 1].now) + 1.0
    decreases j
  {
    hide Gain, Credit, Next, Allowance, After;
    var k := j - 1;
    var s := After(capacity, global, run[..k]);
    if run[k].address == a && Passes(s, capacity, run[k]) {
      CreditSince(capacity, global, run, a, i, k);
      CreditGrows(s, capacity, a, run[k].now, run[k].now);
    } else if i < k {
      PassedInWindow(capacity, global, run, a, i, k);
      AllowanceGrows(capacity, run[i].now, run[k - 1].now, run[k].now);
    } else {
      AllowanceGrows(capacity, run[i].now, run[i].now, run[i].now);
    }
  }

  lemma {:induction false} AcceptedArePassed(capacity: real, global: real, run: seq<Event>, a: Address, i: nat, j: nat)
    requires i <= j <= |run|
    ensures AcceptedFrom(capacity, global, run, a, i, j) <= Passed(capacity, global, run, a, i, j)
    decreases j
  {
    if i < j { AcceptedArePassed(capacity, global, run, a, i, j - 1); }
  }

  lemma AllowanceWithin(capacity: real, from: real, to: real, d: real)
    requires capacity > 0.0 && from <= to <= from + d
    ensures Allowance(capacity, from, to) <= capacity * (1.0 + d)
  {
    assert Gain(capacity, d) == Gain(capacity, to - from) + Gain(capacity, d - (to - from)) by {
      GainAdds(capacity, to - from, d - (to - from));
    }
    GainAdds(capacity, d - (to - from), 0.0);
  }

  /** The limit for one address. */
  lemma SingleLimit(capacity: real, global: real, run: seq<Event>, a: Address, i: nat, j: nat, d: real)
    requires 59.0 * capacity >= 1.0 && Ordered(run) && Within(run, i, j, d)
    ensures Below(AcceptedFrom(capacity, global, run, a, i, j), capacity, d)
  {
    hide Gain, Allowance, Passed, AcceptedFrom;
    PassedInWindow(capacity, global, run, a, i, j);
    AcceptedArePassed(capacity, global, run, a, i, j);
    AllowanceWithin(capacity, run[i].now, run[j - 1].now, d);
  }

  // ---------------------------------------------------------------- refused attempts also pay

  predicate AttemptOf(run: seq<Event>, i: nat, a: Address) {
    i < |run| && run[i].Attempt? && run[i].address == a
  }

  /** The visit `m` comes a minute or more after event `i`. */
  predicate EvictsAt(run: seq<Event>, a: Address, i: nat, m: nat) {
    i < m < |run| && run[m].Visit? && run[m].address == a && run[m].now - run[i].now >= IDLE_TIME
  }

  ghost predicate EvictedBefore(run: seq<Event>, a: Address, i: nat, n: nat) {
    exists m: nat :: EvictsAt(run, a, i, m) && m < n
  }

  /** Until its next attempt, an address has the bucket that its last one has paid from, or none after an eviction. */
  lemma {:induction false} BucketSince(capacity: real, global: real, run: seq<Event>, a: Address, i: nat, n: nat)
    requires AttemptOf(run, i, a) && i < n <= |run| && forall k :: i < k < n ==> !AttemptOf(run, k, a)
    ensures var s := After(capacity, global, run[..n]);
      if EvictedBefore(run, a, i, n) then a !in s.buckets
      else a in s.buckets
           && s.buckets[a] == Paid(BucketOf(After(capacity, global, run[..i]), a), capacity, run[i].now)
    decreases n
  {
    hide Tokens;
    var m := n - 1;
    AfterOneMore(capacity, global, run, m);
    if i < m {
      BucketSince(capacity, global, run, a, i, m);
      if EvictedBefore(run, a, i, m) || EvictsAt(run, a, i, m) {
        assert EvictedBefore(run, a, i, n);
      } else {
        assert !EvictedBefore(run, a, i, n);
      }
      hide EvictedBefore, After;
      assert !AttemptOf(run, m, a);
    } else {
      assert !EvictedBefore(run, a, i, n);
    }
  }

  /** The tokens that an attempt finds in the bucket of its address. */
  function Found(capacity: real, global: real, run: seq<Event>, i: nat): real
    requires i < |run|
  {
    Tokens(BucketOf(After(capacity, global, run[..i]), run[i].address), capacity, run[i].now)
  }

  /** Before its first attempt, an address has no bucket. */
  lemma {:induction false} NoBucketYet(capacity: real, global: real, run: seq<Event>, a: Address, n: nat)
    requires n <= |run| && forall k :: 0 <= k < n ==> !AttemptOf(run, k, a)
    ensures a !in After(capacity, global, run[..n]).buckets
    decreases n
  {
    hide Tokens;
    if n > 0 {
      NoBucketYet(capacity, global, run, a, n - 1);
      AfterOneMore(capacity, global, run, n - 1);
      assert !AttemptOf(run, n - 1, a);
    } else {
      assert run[..0] == [];
    }
  }

  lemma TokensFrom(tokens: real, last: real, capacity: real, now: real)
    ensures Tokens(Bucket(tokens, last), capacity, now) == Min(capacity, tokens + (now - last) * capacity)
  {
  }

  /** What the first attempt of an address finds is what a bucket gains from the clock's epoch on. */
  lemma FoundFirst(capacity: real, global: real, run: seq<Event>, a: Address, j: nat)
    requires AttemptOf(run, j, a) && forall k :: 0 <= k < j ==> !AttemptOf(run, k, a)
    ensures Found(capacity, global, run, j) == Min(capacity, run[j].now * capacity)
    ensures capacity > 0.0 ==> (Passes(After(capacity, global, run[..j]), capacity, run[j]) <==> run[j].now > 0.0)
  {
    NoBucketYet(capacity, global, run, a, j);
    if capacity > 0.0 { NewBucketHasTokens(capacity, run[j].now); }
    hide After, Tokens;
    TokensFrom(0.0, 0.0, capacity, run[j].now);
  }

  /** What the next one finds: one token less and what was gained meanwhile, or a new bucket after an eviction. */
  lemma FoundNext(capacity: real, global: real, run: seq<Event>, a: Address, i: nat, j: nat)
    requires i < j && AttemptOf(run, i, a) && AttemptOf(run, j, a) && forall k :: i < k < j ==> !AttemptOf(run, k, a)
    ensures Found(capacity, global, run, j) ==
            if EvictedBefore(run, a, i, j) then Min(capacity, run[j].now * capacity)
            else Min(capacity, Found(capacity, global, run, i) - 1.0 + (run[j].now - run[i].now) * capacity)
  {
    hide After, EvictedBefore, Tokens;
    BucketSince(capacity, global, run, a, i, j);
    TokensFrom(Found(capacity, global, run, i) - 1.0, run[i].now, capacity, run[j].now);
    TokensFrom(0.0, 0.0, capacity, run[j].now);
  }

  /**
    After an attempt that found `t` tokens, the next one of the address passes exactly when `1 - t` tokens were gained
    meanwhile, or, if the bucket was evicted, when a new one has any.
  */
  lemma PassesAgainIff(capacity: real, global: real, run: seq<Event>, a: Address, i: nat, j: nat)
    requires capacity > 0.0 && i < j && AttemptOf(run, i, a) && AttemptOf(run, j, a)
    requires forall k :: i < k < j ==> !AttemptOf(run, k, a)
    ensures Passes(After(capacity, global, run[..j]), capacity, run[j]) <==>
              if EvictedBefore(run, a, i, j) then run[j].now > 0.0
              else Gain(capacity, run[j].now - run[i].now) > 1.0 - Found(capacity, global, run, i)
  {
    BucketSince(capacity, global, run, a, i, j);
    if EvictedBefore(run, a, i, j) {
      NewBucketHasTokens(capacity, run[j].now);
    }
    hide Gain, After;
  }

  lemma NewBucketFull(capacity: real, now: real)
    requires capacity > 0.0 && now >= 1.0
    ensures Tokens(NEW_BUCKET, capacity, now) == capacity
  {
  }

  lemma NewBucketHasTokens(capacity: real, now: real)
    requires capacity > 0.0
    ensures Tokens(NEW_BUCKET, capacity, now) > 0.0 <==> now > 0.0
  {
  }

  /** Attempt `k` is refused by the bucket of its address. */
  predicate RefusedAt(capacity: real, global: real, run: seq<Event>, a: Address, k: nat) {
    AttemptOf(run, k, a) && !Passes(After(capacity, global, run[..k]), capacity, run[k])
  }

  /** Not more than a token is gained between the two attempts. */
  predicate Close(capacity: real, run: seq<Event>, a: Address, i: nat, j: nat) {
    i < j < |run| && AttemptOf(run, i, a) && Gain(capacity, run[j].now - run[i].now) <= 1.0
  }

  /** From attempt `k` on, the address never pauses for the time in which a token is gained. */
  ghost predicate Floods(capacity: real, run: seq<Event>, a: Address, k: nat) {
    forall j :: k < j && AttemptOf(run, j, a) ==> exists i: nat :: k <= i && Close(capacity, run, a, i, j)
  }

  lemma {:induction false} LatestBefore(run: seq<Event>, a: Address, k: nat, j: nat) returns (i: nat)
    requires k < j && AttemptOf(run, k, a)
    ensures k <= i < j && AttemptOf(run, i, a) && forall m :: i < m < j ==> !AttemptOf(run, m, a)
    decreases j
  {
    i := j - 1;
    if !AttemptOf(run, j - 1, a) { i := LatestBefore(run, a, k, j - 1); }
  }

  /** The pause since the latest attempt is no longer, and too short for an eviction. */
  lemma ShortPause(capacity: real, run: seq<Event>, a: Address, k: nat, i: nat, j: nat)
    requires 60.0 * capacity > 1.0 && Ordered(run) && Floods(capacity, run, a, k) && k <= i < j
    requires AttemptOf(run, j, a) && forall m :: i < m < j ==> !AttemptOf(run, m, a)
    ensures Gain(capacity, run[j].now - run[i].now) <= 1.0
    ensures !EvictedBefore(run, a, i, j)
  {
    var h: nat :| k <= h && Close(capacity, run, a, h, j);
    assert h <= i && run[h].now <= run[i].now <= run[j].now;
    hide Gain, Close;
    assert (run[j].now - run[i].now) + (run[i].now - run[h].now) == run[j].now - run[h].now;
    GainAdds(capacity, run[j].now - run[i].now, run[i].now - run[h].now);
    GainAdds(capacity, run[i].now - run[h].now, 0.0);
    if EvictedBefore(run, a, i, j) {
      var m: nat :| EvictsAt(run, a, i, m) && m < j;
      assert run[m].now <= run[j].now;
      GainAdds(capacity, run[j].now - run[i].now - 60.0, 60.0);
      assert (run[j].now - run[i].now - 60.0) + 60.0 == run[j].now - run[i].now;
      GainOfMinute(capacity);
      assert false;
    }
  }

  /** Once refused by its own bucket, an address that keeps trying without such a pause is refused every time. */
  lemma {:induction false} FloodStaysRefused(capacity: real, global: real, run: seq<Event>, a: Address, k: nat, j: nat)
    requires 60.0 * capacity > 1.0 && Ordered(run)
    requires RefusedAt(capacity, global, run, a, k) && Floods(capacity, run, a, k)
    requires k <= j && AttemptOf(run, j, a)
    ensures !Passes(After(capacity, global, run[..j]), capacity, run[j])
    decreases j
  {
    hide Gain, Tokens, After, Floods, EvictedBefore, Ordered;
    if k < j {
      var i := LatestBefore(run, a, k, j);
      FloodStaysRefused(capacity, global, run, a, k, i);
      ShortPause(capacity, run, a, k, i, j);
      PassesAgainIff(capacity, global, run, a, i, j);
    }
  }

  /** With a token a minute or less, the bucket of a refused address can be evicted while it waits for the token. */
  function Outwaiting(a: Address): seq<Event> {
    [Attempt(a, 1.0), Attempt(a, 1.0), Visit(a, 61.0), Attempt(a, 61.0)]
  }

  lemma OutwaitingPasses(capacity: real, global: real, a: Address)
    requires 0.0 < capacity && 60.0 * capacity <= 1.0
    ensures var run := Outwaiting(a);
      && Ordered(run) && RefusedAt(capacity, global, run, a, 1) && Floods(capacity, run, a, 1)
      && Passes(After(capacity, global, run[..3]), capacity, run[3])
  {
    var run := Outwaiting(a);
    assert Close(capacity, run, a, 1, 3) by { GainOfMinute(capacity); }
    hide Gain, After;
    assert run[..0] == [];
    assert a !in After(capacity, global, run[..0]).buckets by { EmptyAtFirst(capacity, global); }
    NewBucketFull(capacity, 1.0);
    PassesAgainIff(capacity, global, run, a, 0, 1);
    GainAdds(capacity, 0.0, 0.0);
    assert EvictsAt(run, a, 1, 2);
    PassesAgainIff(capacity, global, run, a, 1, 3);
  }

  lemma EmptyAtFirst(capacity: real, global: real)
    ensures After(capacity, global, []) == INITIAL
  {
  }

  /** No address that floods after a refusal by its own bucket ever passes: exactly with more than a token a minute. */
  lemma FloodRefusedIff(capacity: real, global: real)
    ensures (forall run, a, k, j | Ordered(run) && RefusedAt(capacity, global, run, a, k)
                                   && Floods(capacity, run, a, k) && k < j && AttemptOf(run, j, a) ::
               !Passes(After(capacity, global, run[..j]), capacity, run[j]))
            <==> capacity <= 0.0 || 60.0 * capacity > 1.0
  {
    hide After, Ordered, Floods, Gain;
    if capacity <= 0.0 || 60.0 * capacity > 1.0 {
      forall run, a, k: nat, j: nat | Ordered(run) && RefusedAt(capacity, global, run, a, k)
                                      && Floods(capacity, run, a, k) && k < j && AttemptOf(run, j, a)
        ensures !Passes(After(capacity, global, run[..j]), capacity, run[j])
      {
        if capacity > 0.0 { FloodStaysRefused(capacity, global, run, a, k, j); }
      }
    } else {
      OutwaitingPasses(capacity, global, Address(""));
      assert AttemptOf(Outwaiting(Address("")), 3, Address(""));
    }
  }

  // ---------------------------------------------------------------- all addresses together

  lemma AllSpent(s: State, capacity: real, global: real, e: Event)
    requires global > 0.0
    ensures Tokens(Next(s, capacity, global, e).all, global, e.now) <=
            Tokens(s.all, global, e.now) - if Accepted(s, capacity, global, e) then 1.0 else 0.0
  {
    hide Gain;
    TokensAfterPaying(s.all, global, e.now);
  }

  lemma {:induction false} AllSince(capacity: real, global: real, run: seq<Event>, i: nat, j: nat)
    requires global > 0.0 && Ordered(run) && i <= j < |run|
    ensures Tokens(After(capacity, global, run[..j]).all, global, run[j].now) <=
            Allowance(global, run[i].now, run[j].now) - AcceptedFromAll(capacity, global, run, i, j) as real
    decreases j
  {
    hide Gain, Tokens, Accepted, Allowance, Next;
    if i == j {
      AllowanceGrows(global, run[i].now, run[i].now, run[i].now);
      TokensGrow(After(capacity, global, run[..j]).all, global, run[j].now, run[j].now);
    } else {
      var s := After(capacity, global, run[..j - 1]);
      AllSince(capacity, global, run, i, j - 1);
      AllSpent(s, capacity, global, run[j - 1]);
      AfterOneMore(capacity, global, run, j - 1);
      TokensGrow(After(capacity, global, run[..j]).all, global, run[j - 1].now, run[j].now);
      AllowanceGrows(global, run[i].now, run[j - 1].now, run[j].now);
    }
  }

  lemma {:induction false} AllInWindow(capacity: real, global: real, run: seq<Event>, i: nat, j: nat)
    requires global > 0.0 && Ordered(run) && i < j <= |run|
    ensures AcceptedFromAll(capacity, global, run, i, j) as real < Allowance(global, run[i].now, run[j - 1].now) + 1.0
    decreases j
  {
    hide Gain, Tokens, Next, Allowance, After, Passes;
    var k := j - 1;
    if Accepted(After(capacity, global, run[..k]), capacity, global, run[k]) {
      AllSince(capacity, global, run, i, k);
    } else if i < k {
      AllInWindow(capacity, global, run, i, k);
      AllowanceGrows(global, run[i].now, run[k - 1].now, run[k].now);
    } else {
      AllowanceGrows(global, run[i].now, run[i].now, run[i].now);
    }
  }

  /** All addresses together stay below the limit for the global capacity, whatever is evicted. */
  lemma GlobalLimit(capacity: real, global: real, run: seq<Event>, i: nat, j: nat, d: real)
    requires global > 0.0 && Ordered(run) && Within(run, i, j, d)
    ensures Below(AcceptedFromAll(capacity, global, run, i, j), global, d)
  {
    hide Gain, Allowance, AcceptedFromAll;
    AllInWindow(capacity, global, run, i, j);
    AllowanceWithin(global, run[i].now, run[j - 1].now, d);
  }

  // ---------------------------------------------------------------- exactly what is accepted

  /** The attempt passes its own bucket, so it also pays from the common one. */
  predicate PassesAt(capacity: real, global: real, run: seq<Event>, i: nat) {
    i < |run| && Passes(After(capacity, global, run[..i]), capacity, run[i])
  }

  predicate AcceptedAt(capacity: real, global: real, run: seq<Event>, i: nat) {
    i < |run| && Accepted(After(capacity, global, run[..i]), capacity, global, run[i])
  }

  /** The tokens that an event finds in the common bucket. */
  function FoundInAll(capacity: real, global: real, run: seq<Event>, i: nat): real
    requires i < |run|
  {
    Tokens(After(capacity, global, run[..i]).all, global, run[i].now)
  }

  lemma AcceptedIff(capacity: real, global: real, run: seq<Event>, i: nat)
    requires i < |run|
    ensures AcceptedAt(capacity, global, run, i) <==>
              PassesAt(capacity, global, run, i) && FoundInAll(capacity, global, run, i) > 0.0
  {
    hide After, Tokens, Passes;
  }

  /** Until the next attempt that passes, the common bucket is as the last one has left it, accepted or refused. */
  lemma {:induction false} AllSinceLast(capacity: real, global: real, run: seq<Event>, i: nat, n: nat)
    requires PassesAt(capacity, global, run, i) && i < n <= |run|
    requires forall k :: i < k < n ==> !PassesAt(capacity, global, run, k)
    ensures After(capacity, global, run[..n]).all ==
            Bucket(FoundInAll(capacity, global, run, i) - 1.0, run[i].now)
    decreases n
  {
    hide Tokens;
    AfterOneMore(capacity, global, run, n - 1);
    if i < n - 1 {
      AllSinceLast(capacity, global, run, i, n - 1);
      assert !PassesAt(capacity, global, run, n - 1);
    }
  }

  lemma {:induction false} AllUntouched(capacity: real, global: real, run: seq<Event>, n: nat)
    requires n <= |run| && forall k :: 0 <= k < n ==> !PassesAt(capacity, global, run, k)
    ensures After(capacity, global, run[..n]).all == NEW_BUCKET
    decreases n
  {
    hide Tokens;
    if n > 0 {
      AfterOneMore(capacity, global, run, n - 1);
      AllUntouched(capacity, global, run, n - 1);
      assert !PassesAt(capacity, global, run, n - 1);
    } else {
      assert run[..0] == [];
    }
  }

  /** The first attempt that passes its own bucket is accepted as soon as the clock is past its epoch. */
  lemma FirstAcceptedIff(capacity: real, global: real, run: seq<Event>, j: nat)
    requires global > 0.0 && PassesAt(capacity, global, run, j)
    requires forall k :: 0 <= k < j ==> !PassesAt(capacity, global, run, k)
    ensures AcceptedAt(capacity, global, run, j) <==> run[j].now > 0.0
  {
    AllUntouched(capacity, global, run, j);
    NewBucketHasTokens(global, run[j].now);
    hide After, Tokens;
  }

  /** The next one is accepted exactly if the common bucket gained what it lacked; refused attempts have paid, too. */
  lemma AcceptedAgainIff(capacity: real, global: real, run: seq<Event>, i: nat, j: nat)
    requires global > 0.0 && i < j && PassesAt(capacity, global, run, i) && PassesAt(capacity, global, run, j)
    requires forall k :: i < k < j ==> !PassesAt(capacity, global, run, k)
    ensures AcceptedAt(capacity, global, run, j) <==>
              (run[j].now - run[i].now) * global > 1.0 - FoundInAll(capacity, global, run, i)
    ensures FoundInAll(capacity, global, run, j) ==
            Min(global, FoundInAll(capacity, global, run, i) - 1.0 + (run[j].now - run[i].now) * global)
  {
    AllSinceLast(capacity, global, run, i, j);
    AcceptedIff(capacity, global, run, j);
    TokensFrom(FoundInAll(capacity, global, run, i) - 1.0, run[i].now, global, run[j].now);
    assert FoundInAll(capacity, global, run, j) ==
           Tokens(Bucket(FoundInAll(capacity, global, run, i) - 1.0, run[i].now), global, run[j].now);
    hide After, Tokens, FoundInAll, AcceptedAt, PassesAt;
    var gained := (run[j].now - run[i].now) * global;
  }

  // ---------------------------------------------------------------- where the limit of one address fails

  function Repeated(n: nat, x: real): real {
    if n == 0 then 0.0 else Repeated(n - 1, x) + x
  }

  lemma {:induction false} RepeatedIs(n: nat, x: real)
    ensures Repeated(n, x) == n as real * x
  {
    if n > 0 { RepeatedIs(n - 1, x); }
  }

  lemma {:induction false} RepeatedGrows(m: nat, n: nat, x: real)
    requires m <= n && x >= 0.0
    ensures Repeated(m, x) <= Repeated(n, x)
  {
    if m < n { RepeatedGrows(m, n - 1, x); }
  }

  /** Attempts of one address, `w` seconds apart. */
  function Burst(a: Address, start: real, w: real, n: nat): (run: seq<Event>)
    ensures |run| == n && forall i | 0 <= i < n :: run[i] == Attempt(a, start + Repeated(i, w))
  {
    seq(n, i requires 0 <= i < n => Attempt(a, start + Repeated(i, w)))
  }

  /** The events from `m` on are such a burst, up to its attempt `n`. */
  ghost predicate BurstAt(run: seq<Event>, a: Address, m: nat, n: nat, start: real, w: real) {
    m + n < |run| && forall i | 0 <= i <= n :: run[m + i] == Attempt(a, start + Repeated(i, w))
  }

  /** The bucket of the address holds some tokens at some time, and the bucket for all addresses is full. */
  predicate Holds(s: State, capacity: real, global: real, a: Address, now: real, tokens: real) {
    Tokens(BucketOf(s, a), capacity, now) == tokens && Tokens(s.all, global, now) == global
  }

  /** Both buckets have just been paid for an attempt. */
  predicate HasPaid(s: State, global: real, a: Address, now: real, tokens: real) {
    a in s.buckets && s.buckets[a] == Bucket(tokens - 1.0, now) && s.all == Bucket(global - 1.0, now)
  }

  /** Every attempt of a burst costs a bit more than is gained before the next one, and the common bucket refills. */
  lemma BurstStep(s: State, capacity: real, global: real, a: Address, now: real, tokens: real, v: real, w: real)
    requires Holds(s, capacity, global, a, now, tokens) && 0.0 < tokens <= capacity && global > 0.0
    requires v >= 0.0 && Gain(capacity, w) == 1.0 - v && Gain(global, w) >= 1.0
    ensures Accepted(s, capacity, global, Attempt(a, now))
    ensures var t := Next(s, capacity, global, Attempt(a, now));
      HasPaid(t, global, a, now, tokens) && Holds(t, capacity, global, a, now + w, tokens - v)
  {
    hide Gain;
    assert (now + w) - now == w;
  }

  /** Where the burst stands before its attempt `n`. */
  lemma {:induction false} BurstHolds(capacity: real, global: real, run: seq<Event>, a: Address, m: nat, n: nat,
                                      start: real, v: real, w: real)
    requires BurstAt(run, a, m, n, start, w)
    requires Holds(After(capacity, global, run[..m]), capacity, global, a, start, capacity)
    requires v >= 0.0 && Gain(capacity, w) == 1.0 - v && Gain(global, w) >= 1.0
    requires global > 0.0 && Repeated(n, v) < capacity
    ensures Holds(After(capacity, global, run[..m + n]), capacity, global, a, start + Repeated(n, w),
                  capacity - Repeated(n, v))
    decreases n
  {
    hide Gain, Holds, HasPaid, After, Next;
    if n > 0 {
      RepeatedGrows(n - 1, n, v);
      RepeatedGrows(0, n - 1, v);
      BurstHolds(capacity, global, run, a, m, n - 1, start, v, w);
      AfterOneMore(capacity, global, run, m + n - 1);
      BurstStep(After(capacity, global, run[..m + n - 1]), capacity, global, a, start + Repeated(n - 1, w),
                capacity - Repeated(n - 1, v), v, w);
      assert run[m + n - 1] == Attempt(a, start + Repeated(n - 1, w));
      assert run[..m + n] == run[..m + n - 1 + 1];
    }
  }

  /** All attempts of the burst are accepted. */
  lemma {:induction false} BurstAccepted(capacity: real, global: real, run: seq<Event>, a: Address, m: nat, n: nat,
                                         start: real, v: real, w: real)
    requires BurstAt(run, a, m, n, start, w)
    requires Holds(After(capacity, global, run[..m]), capacity, global, a, start, capacity)
    requires v >= 0.0 && Gain(capacity, w) == 1.0 - v && Gain(global, w) >= 1.0
    requires global > 0.0 && Repeated(n, v) < capacity
    ensures AcceptedFrom(capacity, global, run, a, 0, m + n + 1) ==
            AcceptedFrom(capacity, global, run, a, 0, m) + n + 1
    ensures HasPaid(After(capacity, global, run[..m + n + 1]), global, a, start + Repeated(n, w),
                    capacity - Repeated(n, v))
    decreases n
  {
    hide Gain, Holds, HasPaid, After, Next, Accepted;
    BurstHolds(capacity, global, run, a, m, n, start, v, w);
    RepeatedGrows(0, n, v);
    AfterOneMore(capacity, global, run, m + n);
    assert run[m + n] == Attempt(a, start + Repeated(n, w));
    BurstStep(After(capacity, global, run[..m + n]), capacity, global, a, start + Repeated(n, w),
              capacity - Repeated(n, v), v, w);
    if n > 0 {
      RepeatedGrows(n - 1, n, v);
      BurstAccepted(capacity, global, run, a, m, n - 1, start, v, w);
    }
  }

  /** After its idle time the bucket is evicted, and the next one is full. */
  lemma Renewed(s: State, capacity: real, global: real, a: Address, last: real, tokens: real, z: real)
    requires HasPaid(s, global, a, last, tokens) && last >= 1.0 && capacity > 0.0
    requires z >= IDLE_TIME && Gain(global, z) >= 1.0
    ensures Holds(Next(s, capacity, global, Visit(a, last + z)), capacity, global, a, last + z, capacity)
  {
    NewBucketFull(capacity, last + z);
    hide Gain;
    assert (last + z) - last == z;
  }

  /** A burst, the eviction of the bucket after `z` idle seconds, and the same burst again. */
  function Evading(a: Address, w: real, z: real, n: nat): (run: seq<Event>)
    ensures |run| == 2 * n + 3 && run[n + 1] == Visit(a, 1.0 + Repeated(n, w) + z)
    ensures forall i | 0 <= i <= n :: run[i] == Attempt(a, 1.0 + Repeated(i, w))
    ensures forall i | 0 <= i <= n :: run[n + 2 + i] == Attempt(a, 1.0 + Repeated(n, w) + z + Repeated(i, w))
  {
    var again := 1.0 + Repeated(n, w) + z;
    Burst(a, 1.0, w, n + 1) + [Visit(a, again)] + Burst(a, again, w, n + 1)
  }

  lemma EvadingBursts(a: Address, w: real, z: real, n: nat)
    ensures BurstAt(Evading(a, w, z, n), a, 0, n, 1.0, w)
    ensures BurstAt(Evading(a, w, z, n), a, n + 2, n, 1.0 + Repeated(n, w) + z, w)
  {
    hide Evading, Repeated;
    var run := Evading(a, w, z, n);
    forall i | 0 <= i <= n ensures run[0 + i] == Attempt(a, 1.0 + Repeated(i, w)) {
      assert run[i] == Attempt(a, 1.0 + Repeated(i, w));
    }
  }

  lemma EvadingPair(a: Address, w: real, z: real, n: nat, i: nat, j: nat)
    requires w >= 0.0 && z >= 0.0 && i < j < 2 * n + 3
    ensures Evading(a, w, z, n)[i].now <= Evading(a, w, z, n)[j].now
  {
    var run := Evading(a, w, z, n);
    hide Evading;
    if j <= n {
      RepeatedGrows(i, j, w);
    } else if i >= n + 2 {
      RepeatedGrows(i - n - 2, j - n - 2, w);
      assert run[i] == run[n + 2 + (i - n - 2)] && run[j] == run[n + 2 + (j - n - 2)];
    } else {
      if i <= n { RepeatedGrows(i, n, w); }
      if j >= n + 2 {
        RepeatedGrows(0, j - n - 2, w);
        assert run[j] == run[n + 2 + (j - n - 2)];
      }
    }
  }

  lemma EvadingOrdered(a: Address, w: real, z: real, n: nat)
    requires w >= 0.0 && z >= 0.0
    ensures Ordered(Evading(a, w, z, n))
    ensures Within(Evading(a, w, z, n), 0, 2 * n + 3, Repeated(n, w) + z + Repeated(n, w))
  {
    var run := Evading(a, w, z, n);
    hide Evading;
    assert run[0] == Attempt(a, 1.0 + Repeated(0, w));
    assert run[n + 2 + n] == run[2 * n + 2];
    RepeatedGrows(0, n, w);
    forall i, j | 0 <= i < j < |run|
      ensures run[i].now <= run[j].now
    {
      EvadingPair(a, w, z, n, i, j);
    }
  }

  lemma StartsFull(capacity: real, global: real, run: seq<Event>, a: Address)
    requires capacity > 0.0 && global > 0.0
    ensures Holds(After(capacity, global, run[..0]), capacity, global, a, 1.0, capacity)
    ensures AcceptedFrom(capacity, global, run, a, 0, 0) == 0
  {
    NewBucketFull(capacity, 1.0);
    NewBucketFull(global, 1.0);
  }

  lemma OneMoreAccepted(capacity: real, global: real, run: seq<Event>, a: Address, j: nat)
    requires j < |run|
    ensures AcceptedFrom(capacity, global, run, a, 0, j + 1) >= AcceptedFrom(capacity, global, run, a, 0, j)
  {
  }

  lemma FirstBurst(capacity: real, global: real, a: Address, n: nat, v: real, w: real, z: real)
    requires capacity > 0.0 && global > 0.0
    requires v >= 0.0 && Gain(capacity, w) == 1.0 - v && Gain(global, w) >= 1.0
    requires Repeated(n, v) < capacity
    ensures var run := Evading(a, w, z, n);
      && AcceptedFrom(capacity, global, run, a, 0, n + 1) == n + 1
      && HasPaid(After(capacity, global, run[..n + 1]), global, a, 1.0 + Repeated(n, w), capacity - Repeated(n, v))
  {
    var run := Evading(a, w, z, n);
    hide Gain, Holds, HasPaid, After, Next, Accepted, AcceptedFrom, Evading, Repeated, BurstAt;
    StartsFull(capacity, global, run, a);
    EvadingBursts(a, w, z, n);
    BurstAccepted(capacity, global, run, a, 0, n, 1.0, v, w);
  }

  /** All attempts of both bursts are accepted. */
  lemma EvadingAccepted(capacity: real, global: real, a: Address, n: nat, v: real, w: real, z: real)
    requires capacity > 0.0 && global > 0.0
    requires v >= 0.0 && w >= 0.0 && Gain(capacity, w) == 1.0 - v && Gain(global, w) >= 1.0
    requires Repeated(n, v) < capacity && z >= IDLE_TIME && Gain(global, z) >= 1.0
    ensures AcceptedFrom(capacity, global, Evading(a, w, z, n), a, 0, 2 * n + 3) >= 2 * n + 2
  {
    var run, last := Evading(a, w, z, n), 1.0 + Repeated(n, w);
    hide Gain, Holds, HasPaid, After, Next, Accepted, AcceptedFrom, Evading, BurstAt;
    EvadingBursts(a, w, z, n);
    FirstBurst(capacity, global, a, n, v, w, z);
    AfterOneMore(capacity, global, run, n + 1);
    RepeatedGrows(0, n, w);
    Renewed(After(capacity, global, run[..n + 1]), capacity, global, a, last, capacity - Repeated(n, v), z);
    OneMoreAccepted(capacity, global, run, a, n + 1);
    BurstAccepted(capacity, global, run, a, n + 2, n, last + z, v, w);
  }

  lemma Scaled(x: real, y: real, factor: real)
    requires x <= y && factor >= 0.0
    ensures x * factor <= y * factor
  {
  }

  lemma RefillTime(global: real) returns (z: real)
    requires global > 0.0
    ensures z > 0.0 && Gain(global, z) == 1.0
  {
    z := 1.0 / global;
    assert z * global == 1.0;
  }

  lemma GainMore(capacity: real, global: real, x: real, y: real)
    requires capacity <= global && global > 0.0 && 0.0 <= x <= y
    ensures Gain(capacity, x) <= Gain(global, y)
  {
    Scaled(capacity, global, x);
    Scaled(x, y, global);
  }

  /** How long to stay idle: until the bucket is evicted and the common one is full again. */
  lemma IdleTime(capacity: real, global: real) returns (z: real)
    requires 0.0 < capacity < global && 59.0 * capacity < 1.0
    ensures z >= IDLE_TIME && Gain(global, z) >= 1.0
    ensures Gain(capacity, z) < 1.0 + capacity
  {
    hide Gain;
    var refill := RefillTime(global);
    GainOfMinute(capacity);
    z := if refill < IDLE_TIME then IDLE_TIME else refill;
    GainMore(global, global, refill, z);
    GainMore(capacity, global, refill, refill);
  }

  lemma Unscaled(x: real, y: real, factor: real)
    requires x * factor <= y * factor && factor > 0.0
    ensures x <= y
  {
  }

  /** A share of at most `u` for each of `n` attempts. */
  lemma Shares(debt: real, u: real, n: nat)
    requires debt >= 0.0 && u > 0.0 && n as real >= debt / u && n > 0
    ensures 0.0 <= debt / n as real <= u && n as real * (debt / n as real) == debt
  {
    var share := debt / n as real;
    assert share * n as real == debt;
    var quotient := debt / u;
    assert quotient * u == debt;
    Scaled(quotient, n as real, u);
    Unscaled(share, u, n as real);
  }

  lemma Quotient(x: real, capacity: real, global: real)
    requires 0.0 < capacity && 0.0 < global && x >= capacity / global
    ensures x / capacity * global >= 1.0
  {
    var ratio := capacity / global;
    assert ratio * global == capacity;
    Scaled(ratio, x, global);
    var w := x / capacity;
    assert w * capacity == x;
    assert w * global * capacity == x * global;
    Unscaled(1.0, w * global, capacity);
  }

  lemma Ratio(capacity: real, global: real)
    requires 0.0 < capacity < global
    ensures 0.0 < capacity / global < 1.0
  {
    var ratio := capacity / global;
    assert ratio * global == capacity;
    if ratio >= 1.0 { Scaled(1.0, ratio, global); }
  }

  /** Attempts that lack at most `1 - cap / global` tokens leave the common bucket the time to refill. */
  lemma Distance(capacity: real, global: real, v: real) returns (w: real)
    requires 0.0 < capacity < global && 0.0 <= v <= 1.0 - capacity / global
    ensures w >= 0.0 && Gain(capacity, w) == 1.0 - v && Gain(global, w) >= 1.0
  {
    w := (1.0 - v) / capacity;
    assert w * capacity == 1.0 - v;
    Ratio(capacity, global);
    Quotient(1.0 - v, capacity, global);
  }

  /** How many attempts to make, and how far apart, so that they lack no more than the given tokens in all. */
  lemma BurstLength(capacity: real, global: real, debt: real) returns (n: nat, v: real, w: real)
    requires 0.0 < capacity < global && debt >= 0.0
    ensures v >= 0.0 && w >= 0.0 && Repeated(n, v) == debt
    ensures Gain(capacity, w) == 1.0 - v && Gain(global, w) >= 1.0
    ensures Gain(capacity, Repeated(n, w)) == n as real - debt
  {
    var u := 1.0 - capacity / global;
    Ratio(capacity, global);
    var quotient := debt / u;
    assert quotient >= 0.0;
    n := quotient.Floor + 1;
    Shares(debt, u, n);
    v := debt / n as real;
    w := Distance(capacity, global, v);
    RepeatedIs(n, v);
    GainOfRepeated(capacity, n, w, v);
  }

  lemma {:induction false} GainOfRepeated(capacity: real, n: nat, w: real, v: real)
    requires Gain(capacity, w) == 1.0 - v
    ensures Gain(capacity, Repeated(n, w)) == n as real - Repeated(n, v)
  {
    hide Gain;
    GainAdds(capacity, 0.0, 0.0);
    if n > 0 {
      GainOfRepeated(capacity, n - 1, w, v);
      GainAdds(capacity, Repeated(n - 1, w), w);
    }
  }

  lemma WindowOfGain(capacity: real, d: real)
    ensures capacity * (1.0 + d) == capacity + Gain(capacity, d)
  {
  }

  /** With less than one token in 59 seconds, and more for all addresses, one address gets past its limit. */
  lemma LimitFails(capacity: real, global: real, a: Address) returns (run: seq<Event>, d: real)
    requires 0.0 < capacity < global && 59.0 * capacity < 1.0
    ensures Ordered(run) && Within(run, 0, |run|, d)
    ensures !Below(AcceptedFrom(capacity, global, run, a, 0, |run|), capacity, d)
  {
    hide Gain, AcceptedFrom, Ordered, Evading, Repeated;
    var z := IdleTime(capacity, global);
    var share := (Gain(capacity, z) + capacity - 1.0) / 2.0;
    var debt := if share < 0.0 then 0.0 else share;
    var n, v, w := BurstLength(capacity, global, debt);
    run := Evading(a, w, z, n);
    d := Repeated(n, w) + z + Repeated(n, w);
    EvadingOrdered(a, w, z, n);
    EvadingAccepted(capacity, global, a, n, v, w, z);
    GainAdds(capacity, Repeated(n, w), z);
    GainAdds(capacity, Repeated(n, w) + z, Repeated(n, w));
    WindowOfGain(capacity, d);
  }

  // ---------------------------------------------------------------- exactly when one address is limited

  lemma {:induction false} AcceptedAmongAll(capacity: real, global: real, run: seq<Event>, a: Address, i: nat, j: nat)
    requires i <= j <= |run|
    ensures AcceptedFrom(capacity, global, run, a, i, j) <= AcceptedFromAll(capacity, global, run, i, j)
    ensures global <= 0.0 ==> AcceptedFromAll(capacity, global, run, i, j) == 0
    decreases j
  {
    if i < j { AcceptedAmongAll(capacity, global, run, a, i, j - 1); }
  }

  lemma BelowMore(n: nat, m: nat, global: real, capacity: real, d: real)
    requires n <= m && global <= capacity && d >= 0.0 && Below(m, global, d)
    ensures Below(n, capacity, d)
  {
    Scaled(global, capacity, 1.0 + d);
  }

  /** A common bucket that is no larger than those of the addresses limits every one of them. */
  lemma LimitedByAll(capacity: real, global: real, run: seq<Event>, a: Address, i: nat, j: nat, d: real)
    requires capacity > 0.0 && global <= capacity && Ordered(run) && Within(run, i, j, d)
    ensures Below(AcceptedFrom(capacity, global, run, a, i, j), capacity, d)
  {
    assert d >= 0.0;
    assert Below(0, 0.0, d);
    hide AcceptedFrom, AcceptedFromAll, Below;
    var n, all := AcceptedFrom(capacity, global, run, a, i, j), AcceptedFromAll(capacity, global, run, i, j);
    AcceptedAmongAll(capacity, global, run, a, i, j);
    if global > 0.0 {
      GlobalLimit(capacity, global, run, i, j, d);
      BelowMore(n, all, global, capacity, d);
    } else {
      BelowMore(n, 0, 0.0, capacity, d);
    }
  }

  /** Every address stays below its limit in every window of every run exactly when 59 cap >= 1 or global <= cap. */
  lemma SingleLimitIff(capacity: real, global: real)
    requires capacity > 0.0
    ensures (forall run, a, i, j, d | Ordered(run) && Within(run, i, j, d) ::
               Below(AcceptedFrom(capacity, global, run, a, i, j), capacity, d))
            <==> 59.0 * capacity >= 1.0 || global <= capacity
  {
    hide AcceptedFrom, Below, Ordered;
    if 59.0 * capacity >= 1.0 || global <= capacity {
      forall run, a, i: nat, j: nat, d | Ordered(run) && Within(run, i, j, d)
        ensures Below(AcceptedFrom(capacity, global, run, a, i, j), capacity, d)
      {
        if global <= capacity {
          LimitedByAll(capacity, global, run, a, i, j, d);
        } else {
          SingleLimit(capacity, global, run, a, i, j, d);
        }
      }
    } else {
      var run, d := LimitFails(capacity, global, Address(""));
    }
  }
}
