/** The reassembly of packets from a byte stream that arrives in arbitrary pieces. */
module Framing {
  import opened Collections
  import opened Endianness

  type Bytes = seq<Byte>

  // ---------------------------------------------------------------- specification

  /** The length that the first message declares for itself, length field included. */
  function FirstLength(r: Bytes): nat {
    if |r| < 4 then 0 else FromBig(r[..4])
  }

  predicate Complete(r: Bytes) {
    |r| >= 4 && FirstLength(r) <= |r|
  }

  /** A complete message of length zero can be neither handed out nor skipped. */
  predicate Stuck(r: Bytes) {
    |r| >= 4 && FirstLength(r) == 0
  }

  predicate HasFrame(r: Bytes) {
    Complete(r) && !Stuck(r)
  }

  /** The messages at the front of a buffer, in order. */
  function Frames(r: Bytes): seq<Bytes>
    decreases |r|
  {
    if !HasFrame(r) then [] else [r[..FirstLength(r)]] + Frames(r[FirstLength(r)..])
  }

  /** What is left of a buffer behind all its messages. */
  function Rest(r: Bytes): (t: Bytes)
    ensures !HasFrame(t)
    decreases |r|
  {
    if !HasFrame(r) then r else Rest(r[FirstLength(r)..])
  }

  function Flatten(parts: seq<Bytes>): Bytes {
    if parts == [] then [] else parts[0] + Flatten(parts[1..])
  }

  // ---------------------------------------------------------------- the receiver

  datatype Error = IncompletePackage | EmptyLength

  datatype Reading = Message(bytes: Bytes) | Failed(error: Error)

  class Package {
    var buffer: Bytes

    constructor ()
      ensures buffer == []
    {
      buffer := [];
    }

    method Write(data: Bytes)
      modifies this
      ensures buffer == old(buffer) + data
    {
      buffer := buffer + data;
    }

    method CanRead() returns (ok: bool)
      ensures ok == Complete(buffer)
    {
      if |buffer| < 4 {
        return false;
      }
      var length := Loaded(Little, U32, buffer[..4]);
      WireValue(Little, U32, buffer[..4]);
      WrapFits(U32, FromBig(buffer[..4]));
      length := SwapNetworkEndianness(Little, U32, length);
      return length <= |buffer|;
    }

    method FirstMsgLength() returns (n: nat)
      ensures n == FirstLength(buffer)
    {
      if |buffer| < 4 {
        return 0;
      }
      var length := Loaded(Little, U32, buffer[..4]);
      WireValue(Little, U32, buffer[..4]);
      WrapFits(U32, FromBig(buffer[..4]));
      length := SwapNetworkEndianness(Little, U32, length);
      return length;
    }

    /** A message is handed out together with its length field; a failure changes nothing. */
    method Read() returns (r: Reading)
      modifies this
      ensures r.Message? <==> HasFrame(old(buffer))
      ensures r.Message? ==> r.bytes + buffer == old(buffer) && |r.bytes| == FirstLength(old(buffer))
      ensures r.Failed? ==> buffer == old(buffer)
      ensures r == Failed(EmptyLength) <==> Stuck(old(buffer))
    {
      var ok := CanRead();
      if !ok {
        return Failed(IncompletePackage);
      }
      var n := FirstMsgLength();
      if n == 0 {
        return Failed(EmptyLength);
      }
      r := Message(buffer[..n]);
      buffer := buffer[n..];
    }

    /** Reading while it is possible hands out the messages at the front and leaves the rest. */
    method Drain() returns (messages: seq<Bytes>)
      modifies this
      ensures messages == Frames(old(buffer)) && buffer == Rest(old(buffer))
    {
      messages := [];
      var ok := CanRead();
      while ok
        invariant messages + Frames(buffer) == Frames(old(buffer))
        invariant Rest(buffer) == Rest(old(buffer))
        invariant ok == Complete(buffer)
        decreases |buffer|, ok
      {
        ghost var before := buffer;
        var r := Read();
        if r.Failed? {
          return;
        }
        FirstFrame(r.bytes, buffer);
        messages := messages + [r.bytes];
        ok := CanRead();
      }
    }
  }

  // ---------------------------------------------------------------- streams in pieces

  lemma FirstFrame(message: Bytes, buffer: Bytes)
    requires HasFrame(message + buffer) && |message| == FirstLength(message + buffer)
    ensures Frames(message + buffer) == [message] + Frames(buffer)
    ensures Rest(message + buffer) == Rest(buffer)
  {
    assert (message + buffer)[..|message|] == message;
    assert (message + buffer)[|message|..] == buffer;
  }

  /** More bytes behind a message do not change it. */
  lemma StillFirst(r: Bytes, c: Bytes)
    ensures |r| >= 4 ==> FirstLength(r + c) == FirstLength(r)
    ensures HasFrame(r) ==> HasFrame(r + c)
    ensures Stuck(r) ==> Stuck(r + c)
  {
    if |r| >= 4 { assert (r + c)[..4] == r[..4]; }
  }

  /** Splitting off the messages before or after more bytes arrive makes no difference. */
  lemma {:induction false} FramesSplit(r: Bytes, c: Bytes)
    ensures Frames(r + c) == Frames(r) + Frames(Rest(r) + c)
    ensures Rest(r + c) == Rest(Rest(r) + c)
    decreases |r|
  {
    if HasFrame(r) {
      var n := FirstLength(r);
      StillFirst(r, c);
      assert (r + c)[..n] == r[..n];
      assert (r + c)[n..] == r[n..] + c;
      FramesSplit(r[n..], c);
    }
  }

  lemma FlattenFront(m: Bytes, parts: seq<Bytes>)
    ensures Flatten([m] + parts) == m + Flatten(parts)
  {
    assert ([m] + parts)[1..] == parts;
  }

  /** No byte is lost, invented or moved. */
  lemma {:induction false} NothingLost(r: Bytes)
    ensures Flatten(Frames(r)) + Rest(r) == r
    decreases |r|
  {
    if HasFrame(r) {
      var m, t := r[..FirstLength(r)], r[FirstLength(r)..];
      calc {
        Flatten(Frames(r)) + Rest(r);
      ==  { FlattenFront(m, Frames(t)); }
        (m + Flatten(Frames(t))) + Rest(t);
      ==  { Associative(m, Flatten(Frames(t)), Rest(t)); }
        m + (Flatten(Frames(t)) + Rest(t));
      ==  { NothingLost(t); }
        m + t;
      ==
        r;
      }
    }
  }

  /** A packet on the wire declares its own size, as every encoded packet does. */
  predicate Framed(m: Bytes) {
    |m| >= 4 && FromBig(m[..4]) == |m|
  }

  /** A sequence of packets sent back to back is taken apart into just these packets. */
  lemma {:induction false} FramesOfPackets(sent: seq<Bytes>)
    requires forall i :: 0 <= i < |sent| ==> Framed(sent[i])
    ensures Frames(Flatten(sent)) == sent && Rest(Flatten(sent)) == []
  {
    if sent != [] {
      var m, tail := sent[0], Flatten(sent[1..]);
      assert (m + tail)[..4] == m[..4];
      FramesOfPackets(sent[1..]);
      FirstFrame(m, tail);
    }
  }

  lemma {:induction false} FlattenBack(parts: seq<Bytes>, m: Bytes)
    ensures Flatten(parts + [m]) == Flatten(parts) + m
  {
    if parts == [] {
      assert [] + [m] == [m] + [];
      FlattenFront(m, []);
    } else {
      var first, later := parts[0], parts[1..];
      assert parts + [m] == [first] + (later + [m]);
      FlattenFront(first, later + [m]);
      FlattenBack(later, m);
      assert first + (Flatten(later) + m) == (first + Flatten(later)) + m;
    }
  }

  /** The use of a receiver: pieces arrive and reads are attempted in any order. */
  datatype Event = Write(chunk: Bytes) | Read

  datatype State = State(buffer: Bytes, delivered: seq<Bytes>)

  function Next(s: State, e: Event): State {
    match e
    case Write(chunk) => s.(buffer := s.buffer + chunk)
    case Read =>
      if !HasFrame(s.buffer) then s
      else
        var n := FirstLength(s.buffer);
        State(s.buffer[n..], s.delivered + [s.buffer[..n]])
  }

  function Run(events: seq<Event>): State {
    if events == [] then State([], [])
    else Next(Run(events[..|events| - 1]), events[|events| - 1])
  }

  function Received(events: seq<Event>): Bytes {
    if events == [] then []
    else
      var last := events[|events| - 1];
      Received(events[..|events| - 1]) + if last.Write? then last.chunk else []
  }

  /** What a receiver has to do with the bytes it received. */
  ghost predicate Accounts(s: State, received: Bytes) {
    && Flatten(s.delivered) + s.buffer == received
    && s.delivered + Frames(s.buffer) == Frames(received)
    && Rest(s.buffer) == Rest(received)
  }

  lemma WriteFrames(delivered: seq<Bytes>, buffer: Bytes, received: Bytes, chunk: Bytes)
    requires delivered + Frames(buffer) == Frames(received) && Rest(buffer) == Rest(received)
    ensures delivered + Frames(buffer + chunk) == Frames(received + chunk)
    ensures Rest(buffer + chunk) == Rest(received + chunk)
  {
    FramesSplit(buffer, chunk);
    FramesSplit(received, chunk);
    Associative(delivered, Frames(buffer), Frames(Rest(buffer) + chunk));
  }

  lemma WriteAccounts(s: State, received: Bytes, chunk: Bytes)
    requires Accounts(s, received)
    ensures Accounts(Next(s, Write(chunk)), received + chunk)
  {
    WriteFrames(s.delivered, s.buffer, received, chunk);
    Associative(Flatten(s.delivered), s.buffer, chunk);
  }

  lemma ReadAccounts(s: State, received: Bytes)
    requires Accounts(s, received)
    ensures Accounts(Next(s, Read), received)
  {
    if HasFrame(s.buffer) {
      var m, t := s.buffer[..FirstLength(s.buffer)], s.buffer[FirstLength(s.buffer)..];
      FlattenBack(s.delivered, m);
      Associative(Flatten(s.delivered), m, t);
      assert m + t == s.buffer;
      Associative(s.delivered, [m], Frames(t));
    }
  }

  /** After any schedule, what was delivered and what the buffer still holds make up what was received. */
  lemma {:induction false} AnySchedule(events: seq<Event>)
    ensures Accounts(Run(events), Received(events))
  {
    if events != [] {
      var s, e := Run(events[..|events| - 1]), events[|events| - 1];
      var received := Received(events[..|events| - 1]);
      AnySchedule(events[..|events| - 1]);
      if e.Write? {
        WriteAccounts(s, received, e.chunk);
      } else {
        ReadAccounts(s, received);
        assert received + [] == received;
      }
    }
  }

  lemma OneMoreEvent(events: seq<Event>, k: nat)
    requires k < |events|
    ensures Run(events[..k + 1]) == Next(Run(events[..k]), events[k])
  {
    assert events[..k + 1][..k] == events[..k];
  }

  /** A read delivers exactly one message if one has arrived that was not delivered before, and a write none. */
  lemma DeliveredExactly(events: seq<Event>, k: nat)
    requires k < |events|
    ensures var before, arrived := |Run(events[..k]).delivered|, |Frames(Received(events[..k]))|;
      && before <= arrived
      && |Run(events[..k + 1]).delivered| == before + if events[k].Read? && before < arrived then 1 else 0
  {
    OneMoreEvent(events, k);
    AnySchedule(events[..k]);
    var s := Run(events[..k]);
    assert |Frames(s.buffer)| == |Frames(Received(events[..k]))| - |s.delivered|;
    hide Run, Received, Rest;
  }

  /** Every schedule of every split of a stream of packets delivers a prefix of the packets, in order. */
  lemma PacketsArrive(sent: seq<Bytes>, events: seq<Event>)
    requires forall i :: 0 <= i < |sent| ==> Framed(sent[i])
    requires Received(events) <= Flatten(sent)
    ensures Run(events).delivered <= sent
  {
    var s, got := Run(events), Received(events);
    var later := Flatten(sent)[|got|..];
    assert got + later == Flatten(sent);
    AnySchedule(events);
    PrefixOfFrames(got, later);
    FramesOfPackets(sent);
    assert s.delivered <= Frames(got) <= sent;
  }

  lemma PrefixOfFrames(r: Bytes, c: Bytes)
    ensures Frames(r) <= Frames(r + c)
  {
    FramesSplit(r, c);
  }

  /** When the whole stream has arrived, all packets are delivered iff no further read would succeed. */
  lemma AllPacketsArrive(sent: seq<Bytes>, events: seq<Event>)
    requires forall i :: 0 <= i < |sent| ==> Framed(sent[i])
    requires Received(events) == Flatten(sent)
    ensures Run(events).delivered == sent <==> !HasFrame(Run(events).buffer)
    ensures Run(events).delivered == sent ==> Run(events).buffer == []
  {
    FramesOfPackets(sent);
    AnySchedule(events);
    var s := Run(events);
    assert s.delivered + Frames(s.buffer) == sent;
    if HasFrame(s.buffer) {
      assert |Frames(s.buffer)| > 0;
    }
  }

  // ---------------------------------------------------------------- the server's receive loop

  /** One connection at the server. It is closed when a length of zero comes up. */
  datatype Session = Session(buffer: Bytes, delivered: seq<Bytes>, closed: bool)

  /** At most one message is handed over. */
  function HandOver(s: Session): Session {
    if !Complete(s.buffer) then s
    else if Stuck(s.buffer) then s.(closed := true)
    else
      var n := FirstLength(s.buffer);
      Session(s.buffer[n..], s.delivered + [s.buffer[..n]], false)
  }

  function Served(chunks: seq<Bytes>): Session {
    if chunks == [] then Session([], [], false)
    else
      var s := Served(chunks[..|chunks| - 1]);
      if s.closed then s else HandOver(s.(buffer := s.buffer + chunks[|chunks| - 1]))
  }

  lemma OneMoreChunk(chunks: seq<Bytes>, k: nat)
    requires k < |chunks|
    ensures Served(chunks[..k + 1]) ==
            var s := Served(chunks[..k]);
            if s.closed then s else HandOver(s.(buffer := s.buffer + chunks[k]))
  {
    assert chunks[..k + 1][..k] == chunks[..k];
  }

  /** Socket reads until a message is complete, then one message, and so on; `chunks` are what the reads return. */
  method ServerLoop(chunks: seq<Bytes>) returns (messages: seq<Bytes>, closed: bool)
    ensures messages == Served(chunks).delivered && closed == Served(chunks).closed
  {
    var receiver := new Package();
    var k := 0;
    messages, closed := [], false;
    assert chunks[..|chunks|] == chunks;
    while k < |chunks|
      invariant k <= |chunks|
      invariant Served(chunks[..k]) == Session(receiver.buffer, messages, false)
    {
      var ready := false;
      while !ready && k < |chunks|
        invariant k <= |chunks|
        invariant Served(chunks[..k]) ==
                  if ready then HandOver(Session(receiver.buffer, messages, false))
                  else Session(receiver.buffer, messages, false)
        invariant ready ==> k > 0 && Complete(receiver.buffer)
        decreases |chunks| - k
      {
        OneMoreChunk(chunks, k);
        receiver.Write(chunks[k]);
        k := k + 1;
        ready := receiver.CanRead();
      }
      if !ready {
        return;
      }
      var r := receiver.Read();
      if r.Failed? {
        StaysClosed(chunks, k);
        return messages, true;
      }
      messages := messages + [r.bytes];
    }
  }

  lemma {:induction false} StaysClosed(chunks: seq<Bytes>, k: nat)
    requires k <= |chunks| && Served(chunks[..k]).closed
    ensures Served(chunks) == Served(chunks[..k])
    decreases |chunks| - k
  {
    if k < |chunks| {
      OneMoreChunk(chunks, k);
      StaysClosed(chunks, k + 1);
    } else {
      assert chunks[..k] == chunks;
    }
  }

  /** Number of messages completely received with the first `k` reads. */
  function Arrived(chunks: seq<Bytes>, k: nat): nat
    requires k <= |chunks|
  {
    |Frames(Flatten(chunks[..k]))|
  }

  function Min(a: nat, b: nat): nat {
    if a < b then a else b
  }

  function HandedOver(chunks: seq<Bytes>, k: nat): nat
    requires k <= |chunks|
  {
    |Served(chunks[..k]).delivered|
  }

  /** What the server has handed over or keeps; once it closed, no message can ever follow. */
  ghost predicate SessionAccounts(s: Session, received: Bytes) {
    && s.delivered + Frames(s.buffer) == Frames(received)
    && (if s.closed then Stuck(s.buffer) && Stuck(Rest(received)) else Rest(s.buffer) == Rest(received))
  }

  lemma StuckStays(r: Bytes, c: Bytes)
    requires Stuck(r)
    ensures Frames(r) == [] && Rest(r) == r && Frames(r + c) == [] && Rest(r + c) == r + c && Stuck(r + c)
  {
    StillFirst(r, c);
  }

  lemma ClosedStep(s: Session, received: Bytes, c: Bytes)
    requires SessionAccounts(s, received) && s.closed
    ensures SessionAccounts(s, received + c) && |s.delivered| == |Frames(received + c)|
  {
    FramesSplit(received, c);
    StuckStays(Rest(received), c);
    StuckStays(s.buffer, []);
  }

  lemma OpenStep(s: Session, received: Bytes, c: Bytes)
    requires SessionAccounts(s, received) && !s.closed
    ensures var t := HandOver(s.(buffer := s.buffer + c));
      && SessionAccounts(t, received + c)
      && |t.delivered| == Min(|Frames(received + c)|, |s.delivered| + 1)
  {
    var b := s.buffer + c;
    WriteFrames(s.delivered, s.buffer, received, c);
    if HasFrame(b) {
      var m, t := b[..FirstLength(b)], b[FirstLength(b)..];
      Associative(s.delivered, [m], Frames(t));
    } else if Stuck(b) {
      StuckStays(b, []);
    }
  }

  lemma {:induction false} ServedAccounts(chunks: seq<Bytes>, k: nat)
    requires k <= |chunks|
    ensures SessionAccounts(Served(chunks[..k]), Flatten(chunks[..k]))
    ensures HandedOver(chunks, k) == if k == 0 then 0 else Min(Arrived(chunks, k), HandedOver(chunks, k - 1) + 1)
    ensures HandedOver(chunks, k) <= Arrived(chunks, k)
  {
    if k > 0 {
      var s, received, c := Served(chunks[..k - 1]), Flatten(chunks[..k - 1]), chunks[k - 1];
      assert Flatten(chunks[..k]) == received + c by {
        assert chunks[..k] == chunks[..k - 1] + [c];
        FlattenBack(chunks[..k - 1], c);
      }
      ServedAccounts(chunks, k - 1);
      OneMoreChunk(chunks, k - 1);
      if s.closed {
        ClosedStep(s, received, c);
      } else {
        OpenStep(s, received, c);
      }
    }
  }

  /** A length field of zero. */
  predicate ZeroLength(r: Bytes) {
    |r| >= 4 && FromBig(r[..4]) == 0
  }

  /** With the read `k` a length of zero comes up, and all messages in front of it have been handed over before. */
  predicate ClosesAt(chunks: seq<Bytes>, k: nat) {
    k < |chunks| && HandedOver(chunks, k) == Arrived(chunks, k + 1) && ZeroLength(Rest(Flatten(chunks[..k + 1])))
  }

  lemma ClosesInStep(chunks: seq<Bytes>, k: nat)
    requires k < |chunks| && !Served(chunks[..k]).closed
    ensures Served(chunks[..k + 1]).closed <==> ClosesAt(chunks, k)
  {
    var s, received, c := Served(chunks[..k]), Flatten(chunks[..k]), chunks[k];
    assert Flatten(chunks[..k + 1]) == received + c by {
      assert chunks[..k + 1] == chunks[..k] + [c];
      FlattenBack(chunks[..k], c);
    }
    ServedAccounts(chunks, k);
    OneMoreChunk(chunks, k);
    WriteFrames(s.delivered, s.buffer, received, c);
    var b := s.buffer + c;
    assert Served(chunks[..k + 1]).closed <==> Stuck(b);
    assert Stuck(b) <==> Frames(b) == [] && ZeroLength(Rest(b));
  }

  /** The server closes exactly when a length of zero is next, which it may be some reads after its arrival. */
  lemma {:induction false} ClosesIff(chunks: seq<Bytes>, n: nat)
    requires n <= |chunks|
    ensures Served(chunks[..n]).closed <==> exists k: nat :: k < n && ClosesAt(chunks, k)
  {
    hide ClosesAt, Served;
    if n > 0 {
      ClosesIff(chunks, n - 1);
      if Served(chunks[..n - 1]).closed {
        ClosedForGood(chunks, n - 1);
      } else {
        ClosesInStep(chunks, n - 1);
      }
    } else {
      NothingServed(chunks);
    }
  }

  lemma ClosedForGood(chunks: seq<Bytes>, k: nat)
    requires k < |chunks| && Served(chunks[..k]).closed
    ensures Served(chunks[..k + 1]).closed
  {
    OneMoreChunk(chunks, k);
  }

  lemma NothingServed(chunks: seq<Bytes>)
    ensures Served(chunks[..0]) == Session([], [], false)
  {
    assert chunks[..0] == [];
  }

  /** Reads `j..n` hand over at most one message each, so the backlog at `j` bounds what is handed over at `n`. */
  lemma {:induction false} AtMostOnePerRead(chunks: seq<Bytes>, j: nat, n: nat)
    requires j <= n <= |chunks|
    ensures HandedOver(chunks, n) <= Arrived(chunks, j) + (n - j)
    decreases n
  {
    ServedAccounts(chunks, n);
    if j < n {
      AtMostOnePerRead(chunks, j, n - 1);
    }
  }

  /** Since some point, the server has handed over one message with every read and was up to date before. */
  lemma {:induction false} UpToDateOnce(chunks: seq<Bytes>, n: nat) returns (j: nat)
    requires n <= |chunks|
    ensures j <= n && HandedOver(chunks, n) == Arrived(chunks, j) + (n - j)
  {
    ServedAccounts(chunks, n);
    j := n;
    if HandedOver(chunks, n) < Arrived(chunks, n) {
      j := UpToDateOnce(chunks, n - 1);
    }
  }

  /** The server hands over the messages in order, and all of them iff they never bunched up at the end. */
  lemma AllHandedOverIff(chunks: seq<Bytes>)
    ensures Served(chunks).delivered <= Frames(Flatten(chunks))
    ensures Served(chunks).delivered == Frames(Flatten(chunks)) <==>
              forall j :: 0 <= j <= |chunks| ==> Arrived(chunks, |chunks|) - Arrived(chunks, j) <= |chunks| - j
  {
    var n := |chunks|;
    assert chunks[..n] == chunks;
    ServedAccounts(chunks, n);
    assert Served(chunks).delivered <= Served(chunks).delivered + Frames(Served(chunks).buffer);
    forall j | 0 <= j <= n ensures HandedOver(chunks, n) <= Arrived(chunks, j) + (n - j) {
      AtMostOnePerRead(chunks, j, n);
    }
    var j := UpToDateOnce(chunks, n);
  }

  /** Two packets in one piece: the second one stays in the buffer until something else arrives. */
  lemma TwoInOnePiece(a: Bytes, b: Bytes, later: Bytes)
    requires Framed(a) && Framed(b)
    ensures Served([a + b]).delivered == [a] && Served([a + b, later]).delivered == [a, b]
  {
    assert (a + b)[..4] == a[..4] && (a + b)[..|a|] == a && (a + b)[|a|..] == b;
    assert (b + later)[..4] == b[..4] && (b + later)[..|b|] == b;
    assert [a + b, later][..1] == [a + b] && [a + b][..0] == [];
    assert [] + (a + b) == a + b;
  }
}
