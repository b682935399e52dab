/**
  The packets of the protocol: a packed header of 24 bytes in front of the data, converted field by field
  between the host's memory and the big-endian wire format.
*/
module DataPackages {
  import opened Endianness

  const HEADER_SIZE := 24
  const LENGTH_LIMIT := 0x1_0000_0000

  /** A packet in memory; `data` is what the allocation holds behind the header. */
  datatype Package = Package(
    length: int,
    kind: int,
    sequenceSize: int,
    sequence: int,
    requestID: int,
    data: seq<Byte>)

  /** The field values are of their types, and the declared length stays within the allocation. */
  predicate WellFormed(p: Package) {
    && Fits(U32, p.length) && Fits(U32, p.kind) && Fits(U32, p.sequenceSize) && Fits(U32, p.sequence)
    && Fits(I64, p.requestID) && p.length <= HEADER_SIZE + |p.data|
  }

  datatype Error = DataTooSmall | InvalidData

  /** `Undefined` is a write behind the end of a buffer that is shorter than the header. */
  datatype Encoding = Encoded(bytes: seq<Byte>) | Undefined

  datatype Decoding = Decoded(package: Package) | Failed(error: Error)

  // ---------------------------------------------------------------- specification

  /** The length field is the size of header and data, cut to 32 bits. */
  function Make(data: seq<Byte>, kind: int, sequenceSize: int, sequence: int, requestID: int): Package {
    Package((HEADER_SIZE + |data|) % LENGTH_LIMIT, kind, sequenceSize, sequence, requestID, data)
  }

  /** The five header fields, each in big-endian order. */
  function WireHeader(p: Package): (s: seq<Byte>)
    ensures |s| == HEADER_SIZE
  {
    ToBig(4, p.length) + ToBig(4, p.kind) + ToBig(4, p.sequenceSize) + ToBig(4, p.sequence) + ToBig(8, p.requestID)
  }

  /** `length` bytes: the wire header and as much of the data as fits. */
  function Encode(p: Package): Encoding
    requires WellFormed(p)
  {
    if p.length < HEADER_SIZE then Undefined else Encoded(WireHeader(p) + p.data[..p.length - HEADER_SIZE])
  }

  /** The unsigned and signed values of big-endian fields. */
  function Field(w: Width, s: seq<Byte>, at: nat): int
    requires at + w.bytes <= |s|
  {
    Wrap(w, FromBig(s[at..at + w.bytes]))
  }

  function Decode(s: seq<Byte>): Decoding {
    if |s| < HEADER_SIZE then Failed(DataTooSmall)
    else if Field(U32, s, 0) != |s| then Failed(InvalidData)
    else Decoded(Package(Field(U32, s, 0), Field(U32, s, 4), Field(U32, s, 8), Field(U32, s, 12), Field(I64, s, 16),
                         s[HEADER_SIZE..]))
  }

  /** The data a packet gives back: as much as its length field says. */
  function GetData(p: Package): seq<Byte>
    requires HEADER_SIZE <= p.length <= HEADER_SIZE + |p.data|
  {
    p.data[..p.length - HEADER_SIZE]
  }

  // ---------------------------------------------------------------- the operations in memory

  /** The packed memory image of a packet on a host. */
  function Image(host: Host, p: Package): (s: seq<Byte>)
    ensures |s| == HEADER_SIZE + |p.data|
  {
    Stored(host, U32, p.length) + Stored(host, U32, p.kind) + Stored(host, U32, p.sequenceSize)
    + Stored(host, U32, p.sequence) + Stored(host, I64, p.requestID) + p.data
  }

  /** The packet whose memory a host finds in a buffer. */
  function AtMemory(host: Host, s: seq<Byte>): Package
    requires |s| >= HEADER_SIZE
  {
    Package(Loaded(host, U32, s[0..4]), Loaded(host, U32, s[4..8]), Loaded(host, U32, s[8..12]),
            Loaded(host, U32, s[12..16]), Loaded(host, I64, s[16..24]), s[HEADER_SIZE..])
  }

  method MakePackage(data: seq<Byte>, kind: int, sequenceSize: int, sequence: int, requestID: int)
    returns (p: Package)
    requires Fits(U32, kind) && Fits(U32, sequenceSize) && Fits(U32, sequence) && Fits(I64, requestID)
    ensures p == Make(data, kind, sequenceSize, sequence, requestID) && WellFormed(p)
  {
    FourBytes();
    ZeroFits();
    var total := HEADER_SIZE + |data|;
    p := Package(0, 0, 0, 0, 0, data);
    p := p.(length := Wrap(U32, total));
    p := p.(kind := kind);
    p := p.(sequenceSize := sequenceSize);
    p := p.(sequence := sequence);
    p := p.(requestID := requestID);
  }

  /** `s` with the `n` bytes from `at` on in reverse order. */
  function ReversedAt(s: seq<Byte>, at: nat, n: nat): (r: seq<Byte>)
    requires at + n <= |s|
    ensures |r| == |s|
  {
    s[..at] + Reversed(s[at..at + n]) + s[at + n..]
  }

  method CopyTo(buffer: array<Byte>, at: nat, bytes: seq<Byte>)
    requires at + |bytes| <= buffer.Length
    modifies buffer
    ensures buffer[..] == old(buffer[..at]) + bytes + old(buffer[at + |bytes|..])
  {
    forall i | 0 <= i < |bytes| {
      buffer[at + i] := bytes[i];
    }
  }

  /** Replaces the field at `at` by its swapped value. */
  method SwapField(buffer: array<Byte>, at: nat, w: Width)
    requires at + w.bytes <= buffer.Length
    modifies buffer
    ensures buffer[..] == ReversedAt(old(buffer[..]), at, w.bytes)
  {
    ghost var was, field := buffer[..], buffer[at..at + w.bytes];
    assert was[at..at + w.bytes] == field;
    var value := Loaded(Little, w, buffer[at..at + w.bytes]);
    var swapped := SwapEndianness(w, value);
    StoreLoaded(Little, w, field);
    SwapReverses(Little, w, value);
    var bytes := Stored(Little, w, swapped);
    CopyTo(buffer, at, bytes);
  }

  /** The five fields of the header in a buffer are swapped one after the other. */
  method SwapHeader(buffer: array<Byte>)
    requires buffer.Length >= HEADER_SIZE
    modifies buffer
    ensures buffer[..] == HeaderReversed(old(buffer[..]))
  {
    ghost var s := buffer[..];
    SwapField(buffer, 0, U32);
    SwapField(buffer, 4, U32);
    SwapField(buffer, 8, U32);
    SwapField(buffer, 12, U32);
    SwapField(buffer, 16, I64);
    AllFieldsReversed(s);
  }

  /** Reversing up to `at` and then the next `n` bytes is reversing up to `at + n`. */
  lemma NextReversed(done: seq<Byte>, s: seq<Byte>, at: nat, n: nat)
    requires |done| == at && at + n <= |s|
    ensures ReversedAt(done + s[at..], at, n) == (done + Reversed(s[at..at + n])) + s[at + n..]
  {
    var r := done + s[at..];
    assert r[..at] == done && r[at..at + n] == s[at..at + n] && r[at + n..] == s[at + n..];
  }

  lemma AllFieldsReversed(s: seq<Byte>)
    requires |s| >= HEADER_SIZE
    ensures ReversedAt(ReversedAt(ReversedAt(ReversedAt(ReversedAt(s, 0, 4), 4, 4), 8, 4), 12, 4), 16, 8)
            == HeaderReversed(s)
  {
    assert s == [] + s[0..];
    NextReversed([], s, 0, 4);
    var a := [] + Reversed(s[0..4]);
    NextReversed(a, s, 4, 4);
    var b := a + Reversed(s[4..8]);
    NextReversed(b, s, 8, 4);
    var c := b + Reversed(s[8..12]);
    NextReversed(c, s, 12, 4);
    NextReversed(c + Reversed(s[12..16]), s, 16, 8);
  }

  function HeaderReversed(s: seq<Byte>): (r: seq<Byte>)
    requires |s| >= HEADER_SIZE
    ensures |r| == |s|
  {
    Reversed(s[0..4]) + Reversed(s[4..8]) + Reversed(s[8..12]) + Reversed(s[12..16]) + Reversed(s[16..24])
    + s[HEADER_SIZE..]
  }

  /** Copies the packet's memory, cut to its length, and converts the header in the copy. */
  method PackageToString(host: Host, p: Package) returns (r: Encoding)
    requires WellFormed(p)
    ensures r == Encode(p)
  {
    var image := Image(host, p);
    var buffer := new Byte[p.length](i requires 0 <= i < p.length => image[i]);
    if p.length < HEADER_SIZE {
      return Undefined;
    }
    assert buffer[..] == image[..p.length];
    if host == Little {
      SwapHeader(buffer);
      ImageReversed(p, p.length);
    } else {
      ImageOfBigHost(p, p.length);
    }
    r := Encoded(buffer[..]);
  }

  method StringToPackage(host: Host, s: seq<Byte>) returns (r: Decoding)
    ensures r == Decode(s)
  {
    if |s| < HEADER_SIZE {
      return Failed(DataTooSmall);
    }
    var size := Loaded(host, U32, s[0..4]);
    WireValue(host, U32, s[0..4]);
    if host == Little {
      size := SwapEndianness(U32, size);
    }
    if size != |s| || size < HEADER_SIZE {
      return Failed(InvalidData);
    }
    var buffer := new Byte[size](i requires 0 <= i < size => s[i]);
    assert buffer[..] == s;
    if host == Little {
      SwapHeader(buffer);
    }
    var memory := buffer[..];
    r := Decoded(AtMemory(host, memory));
    MemoryOfWire(host, s);
  }

  // ---------------------------------------------------------------- the operations meet the specification

  lemma FourBytes()
    ensures Pow256(4) == LENGTH_LIMIT
  {
    assert Pow256(2) == 256 * 256;
  }

  lemma ZeroFits()
    ensures Fits(U32, 0) && Fits(I64, 0)
  {
  }

  /** Swapping the header of a little-endian host's image gives the wire header. */
  lemma ImageReversed(p: Package, n: nat)
    requires HEADER_SIZE <= n <= HEADER_SIZE + |p.data|
    ensures HeaderReversed(Image(Little, p)[..n]) == WireHeader(p) + p.data[..n - HEADER_SIZE]
  {
    BigIsReversed(4, p.length);
    BigIsReversed(4, p.kind);
    BigIsReversed(4, p.sequenceSize);
    BigIsReversed(4, p.sequence);
    BigIsReversed(8, p.requestID);
    ImageFields(Little, p, n);
  }

  lemma ImageOfBigHost(p: Package, n: nat)
    requires HEADER_SIZE <= n <= HEADER_SIZE + |p.data|
    ensures Image(Big, p)[..n] == WireHeader(p) + p.data[..n - HEADER_SIZE]
  {
    BigIsReversed(4, p.length);
    BigIsReversed(4, p.kind);
    BigIsReversed(4, p.sequenceSize);
    BigIsReversed(4, p.sequence);
    BigIsReversed(8, p.requestID);
  }

  lemma Slice(front: seq<Byte>, field: seq<Byte>, back: seq<Byte>)
    ensures (front + field + back)[|front|..|front| + |field|] == field
  {
  }

  lemma ImageFields(host: Host, p: Package, n: nat)
    requires HEADER_SIZE <= n <= HEADER_SIZE + |p.data|
    ensures var s := Image(host, p)[..n];
      && s[0..4] == Stored(host, U32, p.length) && s[4..8] == Stored(host, U32, p.kind)
      && s[8..12] == Stored(host, U32, p.sequenceSize) && s[12..16] == Stored(host, U32, p.sequence)
      && s[16..24] == Stored(host, I64, p.requestID) && s[HEADER_SIZE..] == p.data[..n - HEADER_SIZE]
  {
    HeaderFields(Stored(host, U32, p.length), Stored(host, U32, p.kind), Stored(host, U32, p.sequenceSize),
                 Stored(host, U32, p.sequence), Stored(host, I64, p.requestID), p.data[..n - HEADER_SIZE]);
    assert p.data == p.data[..n - HEADER_SIZE] + p.data[n - HEADER_SIZE..];
    assert Image(host, p)[..n] == Stored(host, U32, p.length) + Stored(host, U32, p.kind)
      + Stored(host, U32, p.sequenceSize) + Stored(host, U32, p.sequence) + Stored(host, I64, p.requestID)
      + p.data[..n - HEADER_SIZE];
  }

  /** Where the fields of a header are. */
  lemma HeaderFields(a: seq<Byte>, b: seq<Byte>, c: seq<Byte>, d: seq<Byte>, e: seq<Byte>, rest: seq<Byte>)
    requires |a| == |b| == |c| == |d| == 4 && |e| == 8
    ensures var s := a + b + c + d + e + rest;
      s[0..4] == a && s[4..8] == b && s[8..12] == c && s[12..16] == d && s[16..24] == e && s[24..] == rest
  {
    var s := a + b + c + d + e + rest;
    assert s == [] + a + (b + c + d + e + rest);
    Slice([], a, b + c + d + e + rest);
    assert s == a + b + (c + d + e + rest);
    Slice(a, b, c + d + e + rest);
    assert s == (a + b) + c + (d + e + rest);
    Slice(a + b, c, d + e + rest);
    assert s == (a + b + c) + d + (e + rest);
    Slice(a + b + c, d, e + rest);
    Slice(a + b + c + d, e, rest);
  }

  /** A field of the converted memory is the big-endian field of the wire. */
  lemma FieldOfWire(host: Host, w: Width, s: seq<Byte>)
    requires |s| == w.bytes
    ensures Loaded(host, w, if host == Little then Reversed(s) else s) == Wrap(w, FromBig(s))
  {
    FromBigReversed(Reversed(s));
    ReversedTwice(s);
  }

  lemma MemoryOfWire(host: Host, s: seq<Byte>)
    requires |s| >= HEADER_SIZE
    ensures AtMemory(host, if host == Little then HeaderReversed(s) else s) ==
            Package(Field(U32, s, 0), Field(U32, s, 4), Field(U32, s, 8), Field(U32, s, 12), Field(I64, s, 16),
                    s[HEADER_SIZE..])
  {
    FieldOfWire(host, U32, s[0..4]);
    FieldOfWire(host, U32, s[4..8]);
    FieldOfWire(host, U32, s[8..12]);
    FieldOfWire(host, U32, s[12..16]);
    FieldOfWire(host, I64, s[16..24]);
    if host == Little {
      HeaderFields(Reversed(s[0..4]), Reversed(s[4..8]), Reversed(s[8..12]), Reversed(s[12..16]), Reversed(s[16..24]),
                   s[HEADER_SIZE..]);
    }
  }

  // ---------------------------------------------------------------- round trips

  lemma WireFields(p: Package, rest: seq<Byte>)
    requires WellFormed(p)
    ensures var s := WireHeader(p) + rest;
      && Field(U32, s, 0) == p.length && Field(U32, s, 4) == p.kind && Field(U32, s, 8) == p.sequenceSize
      && Field(U32, s, 12) == p.sequence && Field(I64, s, 16) == p.requestID && s[HEADER_SIZE..] == rest
  {
    HeaderFields(ToBig(4, p.length), ToBig(4, p.kind), ToBig(4, p.sequenceSize), ToBig(4, p.sequence),
                 ToBig(8, p.requestID), rest);
    BigValue(U32, p.length);
    BigValue(U32, p.kind);
    BigValue(U32, p.sequenceSize);
    BigValue(U32, p.sequence);
    BigValue(I64, p.requestID);
  }

  /** What was encoded decodes to the packet with its data cut to the declared length. */
  lemma DecodeEncoded(p: Package)
    requires WellFormed(p) && Encode(p).Encoded?
    ensures Decode(Encode(p).bytes) == Decoded(p.(data := GetData(p)))
    ensures |Encode(p).bytes| == p.length
  {
    WireFields(p, GetData(p));
  }

  /** A packet that was made survives the wire exactly when header and data are shorter than 2^32 bytes. */
  lemma RoundTripIff(data: seq<Byte>, kind: int, sequenceSize: int, sequence: int, requestID: int)
    requires Fits(U32, kind) && Fits(U32, sequenceSize) && Fits(U32, sequence) && Fits(I64, requestID)
    ensures var p := Make(data, kind, sequenceSize, sequence, requestID);
      WellFormed(p) &&
      (HEADER_SIZE + |data| < LENGTH_LIMIT <==>
         Encode(p).Encoded? && Decode(Encode(p).bytes) == Decoded(p) && GetData(p) == data)
  {
    FourBytes();
    var p := Make(data, kind, sequenceSize, sequence, requestID);
    if p.length >= HEADER_SIZE {
      DecodeEncoded(p);
    }
  }

  /** The bytes of a packet that was made: every argument in its own field, big-endian, and the data behind them. */
  lemma WireLayout(data: seq<Byte>, kind: int, sequenceSize: int, sequence: int, requestID: int)
    requires Fits(U32, kind) && Fits(U32, sequenceSize) && Fits(U32, sequence) && Fits(I64, requestID)
    requires 24 + |data| < 0x1_0000_0000
    ensures WellFormed(Make(data, kind, sequenceSize, sequence, requestID))
    ensures var r := Encode(Make(data, kind, sequenceSize, sequence, requestID));
      && r.Encoded? && |r.bytes| == 24 + |data| && r.bytes[24..] == data
      && FromBig(r.bytes[0..4]) == 24 + |data| && FromBig(r.bytes[4..8]) == kind
      && FromBig(r.bytes[8..12]) == sequenceSize && FromBig(r.bytes[12..16]) == sequence
      && Wrap(I64, FromBig(r.bytes[16..24])) == requestID
  {
    RoundTripIff(data, kind, sequenceSize, sequence, requestID);
    var p := Make(data, kind, sequenceSize, sequence, requestID);
    WireFields(p, data);
    DecodeEncoded(p);
    assert Encode(p).bytes == WireHeader(p) + data;
    FromBigFits(Encode(p).bytes, 0);
    FromBigFits(Encode(p).bytes, 4);
    FromBigFits(Encode(p).bytes, 8);
    FromBigFits(Encode(p).bytes, 12);
  }

  lemma FromBigFits(s: seq<Byte>, at: nat)
    requires at + 4 <= |s|
    ensures Field(U32, s, at) == FromBig(s[at..at + 4])
  {
    WrapFits(U32, FromBig(s[at..at + 4]));
  }

  /** What decodes was encoded: no two strings are accepted as the same packet. */
  lemma EncodeDecoded(s: seq<Byte>)
    requires Decode(s).Decoded?
    ensures var p := Decode(s).package; WellFormed(p) && Encode(p) == Encoded(s) && GetData(p) == s[HEADER_SIZE..]
  {
    hide ToBig, FromBig, Wrap, Fits;
    BigImage(U32, s[0..4]);
    BigImage(U32, s[4..8]);
    BigImage(U32, s[8..12]);
    BigImage(U32, s[12..16]);
    BigImage(I64, s[16..24]);
    var p := Decode(s).package;
    assert WireHeader(p) == s[0..4] + s[4..8] + s[8..12] + s[12..16] + s[16..24];
    assert WireHeader(p) == s[..24];
  }

  /** A string is accepted iff it holds a header and its size is the one it declares. */
  lemma AcceptedIff(s: seq<Byte>)
    ensures Decode(s).Decoded? <==> |s| >= HEADER_SIZE && FromBig(s[..4]) == |s|
    ensures Decode(s) == Failed(DataTooSmall) <==> |s| < HEADER_SIZE
  {
    if |s| >= HEADER_SIZE {
      WrapFits(U32, FromBig(s[0..4]));
      assert s[0..4] == s[..4];
    }
  }
}
