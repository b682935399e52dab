/** Packets from one end of a connection to the other: encoding, the byte stream in pieces, reassembly, decoding. */
module Transport {
  import opened Endianness
  import opened DataPackages
  import Framing

  /** The length field tells the size of header and data, as it does for packets below the limit of 2^32 bytes. */
  predicate Sendable(p: Package) {
    WellFormed(p) && p.length == HEADER_SIZE + |p.data|
  }

  function Sent(p: Package): seq<Byte>
    requires Sendable(p)
  {
    Encode(p).bytes
  }

  function SentAll(packets: seq<Package>): (strings: seq<seq<Byte>>)
    requires forall p :: p in packets ==> Sendable(p)
    ensures |strings| == |packets|
  {
    if packets == [] then [] else [Sent(packets[0])] + SentAll(packets[1..])
  }

  /** The packets are the ones that the strings decode to. */
  ghost predicate DecodedFrom(packets: seq<Package>, strings: seq<seq<Byte>>) {
    |packets| == |strings| && forall i :: 0 <= i < |packets| ==> Decode(strings[i]) == Decoded(packets[i])
  }

  lemma MadeIsSendable(data: seq<Byte>, kind: int, sequenceSize: int, sequence: int, requestID: int)
    requires Fits(U32, kind) && Fits(U32, sequenceSize) && Fits(U32, sequence) && Fits(I64, requestID)
    ensures Sendable(Make(data, kind, sequenceSize, sequence, requestID)) <==> HEADER_SIZE + |data| < LENGTH_LIMIT
  {
    FourBytes();
  }

  /** An encoded packet declares its own size, which is what the reassembly relies on. */
  lemma SentIsFramed(p: Package)
    requires Sendable(p)
    ensures Framing.Framed(Sent(p)) && Decode(Sent(p)) == Decoded(p)
  {
    DecodeEncoded(p);
    AcceptedIff(Sent(p));
    assert GetData(p) == p.data;
  }

  lemma {:induction false} SentAreFramed(packets: seq<Package>)
    requires forall p :: p in packets ==> Sendable(p)
    ensures DecodedFrom(packets, SentAll(packets))
    ensures forall i :: 0 <= i < |packets| ==> Framing.Framed(SentAll(packets)[i])
  {
    if packets != [] {
      hide Sent, Decode, Framing.Framed, Sendable;
      SentIsFramed(packets[0]);
      SentAreFramed(packets[1..]);
    }
  }

  /** Whatever the pieces and the reads, what was delivered decodes to the first packets that were sent. */
  lemma PacketsArrive(packets: seq<Package>, events: seq<Framing.Event>)
    requires forall p :: p in packets ==> Sendable(p)
    requires Framing.Received(events) <= Framing.Flatten(SentAll(packets))
    ensures var delivered := Framing.Run(events).delivered;
      |delivered| <= |packets| && DecodedFrom(packets[..|delivered|], delivered)
  {
    hide Decode, Framing.Framed, Framing.Run, Framing.Flatten, Framing.Received;
    SentAreFramed(packets);
    Framing.PacketsArrive(SentAll(packets), events);
  }

  /** Once the whole stream is there, all packets were delivered unless a further read would succeed. */
  lemma AllPacketsArrive(packets: seq<Package>, events: seq<Framing.Event>)
    requires forall p :: p in packets ==> Sendable(p)
    requires Framing.Received(events) == Framing.Flatten(SentAll(packets))
    requires !Framing.HasFrame(Framing.Run(events).buffer)
    ensures DecodedFrom(packets, Framing.Run(events).delivered) && Framing.Run(events).buffer == []
  {
    SentAreFramed(packets);
    Framing.AllPacketsArrive(SentAll(packets), events);
  }
}
