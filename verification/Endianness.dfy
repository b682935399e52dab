/** Integers of a fixed width, their byte images, and the byte order conversion of the wire format. */
module Endianness {
  import opened Arithmetic

  type Byte = x: int | 0 <= x < 256

  datatype Width = Width(bytes: nat, signed: bool)

  const U32 := Width(4, false)
  const I64 := Width(8, true)

  datatype Host = Little | Big

  function Pow256(n: nat): (p: int)
    ensures p > 0
  {
    if n == 0 then 1 else 256 * Pow256(n - 1)
  }

  /** The values of the type. */
  predicate Fits(w: Width, v: int) {
    if w.signed then -Pow256(w.bytes) <= 2 * v < Pow256(w.bytes) else 0 <= v < Pow256(w.bytes)
  }

  /** Conversion of any integer to the type: wrap-around in two's complement. */
  function Wrap(w: Width, x: int): (v: int)
    ensures Fits(w, v)
  {
    var r := x % Pow256(w.bytes);
    if w.signed && 2 * r >= Pow256(w.bytes) then r - Pow256(w.bytes) else r
  }

  /** Arithmetic shift to the right by `i` bytes. */
  function ShiftRight(v: int, i: nat): int
    decreases i
  {
    if i == 0 then v else ShiftRight(v / 256, i - 1)
  }

  /** The image of a value, least significant byte first; two's complement for negative values. */
  function ToLittle(n: nat, v: int): (s: seq<Byte>)
    ensures |s| == n
  {
    if n == 0 then [] else [v % 256] + ToLittle(n - 1, v / 256)
  }

  function FromLittle(s: seq<Byte>): (v: int)
    ensures 0 <= v < Pow256(|s|)
  {
    if s == [] then 0 else s[0] + 256 * FromLittle(s[1..])
  }

  /** The image of a value, most significant byte first. */
  function ToBig(n: nat, v: int): (s: seq<Byte>)
    ensures |s| == n
  {
    if n == 0 then [] else ToBig(n - 1, v / 256) + [v % 256]
  }

  function FromBig(s: seq<Byte>): (v: int)
    ensures 0 <= v < Pow256(|s|)
  {
    if s == [] then 0 else 256 * FromBig(s[..|s| - 1]) + s[|s| - 1]
  }

  function Reversed(s: seq<Byte>): (r: seq<Byte>)
    ensures |r| == |s|
    ensures forall i :: 0 <= i < |s| ==> r[i] == s[|s| - 1 - i]
  {
    if s == [] then [] else Reversed(s[1..]) + [s[0]]
  }

  // ---------------------------------------------------------------- arithmetic

  /** Wrapping adds a multiple of the modulus. */
  lemma WrapShift(w: Width, x: int) returns (k: int)
    ensures Wrap(w, x) == x + k * Pow256(w.bytes)
  {
    var p := Pow256(w.bytes);
    Multiples(x, p);
    k := if w.signed && 2 * (x % p) >= p then -(x / p) - 1 else -(x / p);
  }

  lemma WrapFits(w: Width, v: int)
    requires Fits(w, v)
    ensures Wrap(w, v) == v
  {
    var p := Pow256(w.bytes);
    if v >= 0 { Euclid(v, 0, v, p); } else { Euclid(v, -1, v + p, p); }
  }

  lemma ZeroWraps(w: Width)
    ensures Wrap(w, 0) == 0
  {
    WrapFits(w, 0);
  }

  lemma WrapAgain(w: Width, x: int, b: int)
    ensures Wrap(w, Wrap(w, x) * 256 + b) == Wrap(w, x * 256 + b)
  {
    var p := Pow256(w.bytes);
    var k := WrapShift(w, x);
    assert (k * p) * 256 == (256 * k) * p;
    ModShifted(x * 256 + b, 256 * k, p);
  }

  // ---------------------------------------------------------------- images

  lemma {:induction false} LittleAt(n: nat, v: int, i: nat)
    requires i < n
    ensures ToLittle(n, v)[i] == ShiftRight(v, i) % 256
  {
    if i > 0 { LittleAt(n - 1, v / 256, i - 1); }
  }

  lemma {:induction false} BigIsReversed(n: nat, v: int)
    ensures ToBig(n, v) == Reversed(ToLittle(n, v))
  {
    if n > 0 { BigIsReversed(n - 1, v / 256); }
  }

  lemma {:induction false} FromBigReversed(s: seq<Byte>)
    ensures FromBig(Reversed(s)) == FromLittle(s)
  {
    if s != [] {
      FromBigReversed(s[1..]);
      assert Reversed(s)[..|s| - 1] == Reversed(s[1..]);
    }
  }

  lemma ReversedTwice(s: seq<Byte>)
    ensures Reversed(Reversed(s)) == s
  {
  }

  lemma Regroup(k: int, p: int)
    ensures k * (256 * p) == 256 * (k * p) == -256 * ((-k) * p)
  {
  }

  /** Reading back an image gives the value modulo the width. */
  lemma {:induction false} LittleValue(n: nat, v: int)
    ensures FromLittle(ToLittle(n, v)) == v % Pow256(n)
  {
    if n > 0 {
      LittleValue(n - 1, v / 256);
      var p, q := Pow256(n - 1), v / 256;
      Multiples(q, p);
      Regroup(q / p, p);
      Euclid(v, q / p, 256 * (q % p) + v % 256, Pow256(n));
    }
  }

  lemma {:induction false} LittleImage(s: seq<Byte>)
    ensures ToLittle(|s|, FromLittle(s)) == s
  {
    if s != [] {
      var x := FromLittle(s[1..]);
      Euclid(s[0] + 256 * x, x, s[0], 256);
      LittleImage(s[1..]);
    }
  }

  lemma {:induction false} LittleModulo(n: nat, x: int, k: int)
    ensures ToLittle(n, x + k * Pow256(n)) == ToLittle(n, x)
  {
    if n > 0 {
      var p := Pow256(n - 1);
      assert k * Pow256(n) == 256 * (k * p);
      LittleModulo(n - 1, x / 256, k);
    }
  }

  lemma LittleOfWrap(w: Width, x: int)
    ensures ToLittle(w.bytes, Wrap(w, x)) == ToLittle(w.bytes, x)
  {
    var k := WrapShift(w, x);
    LittleModulo(w.bytes, x, k);
  }

  lemma WrapOfLittle(w: Width, v: int)
    requires Fits(w, v)
    ensures Wrap(w, FromLittle(ToLittle(w.bytes, v))) == v
  {
    var p := Pow256(w.bytes);
    LittleValue(w.bytes, v);
    Multiples(v, p);
    ModShifted(v, -(v / p), p);
    WrapFits(w, v);
  }

  // ---------------------------------------------------------------- memory of a host

  /** The bytes a host keeps for a value of the type. */
  function Stored(host: Host, w: Width, v: int): (s: seq<Byte>)
    ensures |s| == w.bytes
  {
    if host == Little then ToLittle(w.bytes, v) else Reversed(ToLittle(w.bytes, v))
  }

  /** The value of the type a host finds in its memory. */
  function Loaded(host: Host, w: Width, s: seq<Byte>): (v: int)
    ensures Fits(w, v)
  {
    Wrap(w, FromLittle(if host == Little then s else Reversed(s)))
  }

  lemma StoreLoaded(host: Host, w: Width, s: seq<Byte>)
    requires |s| == w.bytes
    ensures Stored(host, w, Loaded(host, w, s)) == s
  {
    var t := if host == Little then s else Reversed(s);
    LittleOfWrap(w, FromLittle(t));
    LittleImage(t);
    ReversedTwice(s);
  }

  // ---------------------------------------------------------------- the conversion

  /** The value whose image is the reversed image of `v`. */
  function Swap(w: Width, v: int): (r: int)
    ensures Fits(w, r)
  {
    Wrap(w, FromBig(ToLittle(w.bytes, v)))
  }

  /** The loop shifts the bytes of the value, from the lowest, into the result. */
  method SwapEndianness(w: Width, value: int) returns (result: int)
    requires Fits(w, value)
    ensures result == Swap(w, value)
  {
    hide Wrap, Pow256, ShiftRight, ToLittle;
    result := 0;
    var i := 0;
    ghost var s := ToLittle(w.bytes, value);
    ZeroWraps(w);
    while i < w.bytes
      invariant 0 <= i <= w.bytes
      invariant result == Wrap(w, FromBig(s[..i]))
    {
      LittleAt(w.bytes, value, i);
      assert s[..i + 1][..i] == s[..i];
      WrapAgain(w, FromBig(s[..i]), s[i]);
      result := Wrap(w, result * 256 + ShiftRight(value, i) % 256);
      i := i + 1;
    }
    assert s[..w.bytes] == s;
  }

  method SwapNetworkEndianness(host: Host, w: Width, value: int) returns (result: int)
    requires Fits(w, value)
    ensures result == if host == Little then Swap(w, value) else value
  {
    result := value;
    if host == Little {
      result := SwapEndianness(w, value);
    }
  }

  /** The image of the swapped value is the reversed image, for negative values too. */
  lemma SwapReverses(host: Host, w: Width, v: int)
    ensures ToLittle(w.bytes, Swap(w, v)) == Reversed(ToLittle(w.bytes, v))
    ensures Stored(host, w, Swap(w, v)) == Reversed(Stored(host, w, v))
  {
    var s := ToLittle(w.bytes, v);
    ReversedTwice(s);
    FromBigReversed(Reversed(s));
    LittleOfWrap(w, FromLittle(Reversed(s)));
    LittleImage(Reversed(s));
  }

  /** Swapping twice is the identity on every value of the type. */
  lemma SwapTwice(w: Width, v: int)
    requires Fits(w, v)
    ensures Swap(w, Swap(w, v)) == v
  {
    var s := ToLittle(w.bytes, v);
    SwapReverses(Little, w, v);
    FromBigReversed(s);
    WrapOfLittle(w, v);
  }

  /** What a host puts on the wire is the big-endian image, whatever its own byte order. */
  lemma WireBytes(host: Host, w: Width, v: int)
    ensures Stored(host, w, if host == Little then Swap(w, v) else v) == ToBig(w.bytes, v)
  {
    SwapReverses(host, w, v);
    BigIsReversed(w.bytes, v);
  }

  /** The value a host finds in wire bytes after the conversion does not depend on its byte order. */
  lemma WireValue(host: Host, w: Width, s: seq<Byte>)
    requires |s| == w.bytes
    ensures (if host == Little then Swap(w, Loaded(host, w, s)) else Loaded(host, w, s)) == Wrap(w, FromBig(s))
  {
    StoreLoaded(host, w, s);
    ReversedTwice(s);
    FromBigReversed(Reversed(s));
  }

  lemma BigValue(w: Width, v: int)
    requires Fits(w, v)
    ensures Wrap(w, FromBig(ToBig(w.bytes, v))) == v
  {
    BigIsReversed(w.bytes, v);
    FromBigReversed(ToLittle(w.bytes, v));
    WrapOfLittle(w, v);
  }

  lemma BigImage(w: Width, s: seq<Byte>)
    requires |s| == w.bytes
    ensures ToBig(w.bytes, Wrap(w, FromBig(s))) == s
  {
    BigIsReversed(w.bytes, Wrap(w, FromBig(s)));
    ReversedTwice(s);
    FromBigReversed(Reversed(s));
    LittleOfWrap(w, FromBig(s));
    LittleImage(Reversed(s));
  }
}
