/** Fixed-width integers and their little- and big-endian byte encodings, as produced by
  * Rust's `to_le_bytes`/`to_be_bytes` and consumed by `from_le_bytes`/`from_be_bytes`. */
module Ints {
  type U8 = x: int | 0 <= x < 0x100
  type U16 = x: int | 0 <= x < 0x1_0000
  type U32 = x: int | 0 <= x < 0x1_0000_0000
  type U64 = x: int | 0 <= x < 0x1_0000_0000_0000_0000
  type I32 = x: int | -0x8000_0000 <= x < 0x8000_0000
  type Bytes = seq<U8>

  const U32_LIMIT: nat := 0x1_0000_0000
  const U64_LIMIT: nat := 0x1_0000_0000_0000_0000

  /** The bytes of an ASCII text (its UTF-8 encoding); used for the fixed names in the formats. */
  function AsciiBytes(s: string): (r: Bytes)
    ensures |r| == |s|
  {
    seq(|s|, i requires 0 <= i < |s| => (s[i] as int) % 0x100)
  }

  /** Byte order of a stream, `IOEndian` in the source. */
  datatype Endian = Little | Big

  /** The integer widths the binary stream reads and writes. */
  datatype Width = W8 | W16 | W32 | W64 {
    function Size(): (n: nat)
      ensures n in {1, 2, 4, 8}
    {
      match this
      case W8 => 1
      case W16 => 2
      case W32 => 4
      case W64 => 8
    }
  }

  function Pow256(n: nat): (r: nat)
    ensures r >= 1
  {
    if n == 0 then 1 else 256 * Pow256(n - 1)
  }

  /** Number of unsigned values of a width: 2^(8 * size). */
  function Bound(w: Width): (b: nat)
    ensures b == Pow256(w.Size())
  {
    match w
    case W8 => 0x100
    case W16 => 0x1_0000
    case W32 => 0x1_0000_0000
    case W64 => 0x1_0000_0000_0000_0000
  }

  /** Wrapping conversions: `x as u32`, `x as u64` and `x as i32` in Rust keep the low bits. */
  function WrapU32(x: int): (r: U32)
    ensures 0 <= x < U32_LIMIT ==> r == x
    ensures (r - x) % U32_LIMIT == 0
  {
    x % U32_LIMIT
  }

  function WrapU64(x: int): (r: U64)
    ensures 0 <= x < U64_LIMIT ==> r == x
  {
    x % U64_LIMIT
  }

  function WrapI32(x: int): (r: I32)
    ensures -0x8000_0000 <= x < 0x8000_0000 ==> r == x
    ensures (r - x) % U32_LIMIT == 0
  {
    var u := x % U32_LIMIT;
    if u < 0x8000_0000 then u else u - U32_LIMIT
  }

  /** `n` little-endian bytes of `v` (least significant byte first). */
  function LeBytes(v: nat, n: nat): (r: Bytes)
    requires v < Pow256(n)
    ensures |r| == n
  {
    if n == 0 then [] else [v % 256] + LeBytes(v / 256, n - 1)
  }

  /** The unsigned value of little-endian bytes. */
  function FromLe(b: Bytes): (v: nat)
    ensures v < Pow256(|b|)
  {
    if b == [] then 0 else b[0] + 256 * FromLe(b[1..])
  }

  function Reverse(b: Bytes): (r: Bytes)
    ensures |r| == |b|
    ensures forall i :: 0 <= i < |b| ==> r[i] == b[|b| - 1 - i]
  {
    if b == [] then [] else Reverse(b[1..]) + [b[0]]
  }

  lemma {:induction false} ReverseReverse(b: Bytes)
    ensures Reverse(Reverse(b)) == b
  {
    var r := Reverse(Reverse(b));
    assert |r| == |b|;
    forall i | 0 <= i < |b| ensures r[i] == b[i] {
    }
  }

  lemma {:induction false} FromLeLeBytes(v: nat, n: nat)
    requires v < Pow256(n)
    ensures FromLe(LeBytes(v, n)) == v
  {
    if n > 0 {
      FromLeLeBytes(v / 256, n - 1);
      assert LeBytes(v, n)[1..] == LeBytes(v / 256, n - 1);
    }
  }

  lemma {:induction false} LeBytesFromLe(b: Bytes)
    ensures LeBytes(FromLe(b), |b|) == b
  {
    if b != [] {
      LeBytesFromLe(b[1..]);
      assert FromLe(b) % 256 == b[0];
      assert FromLe(b) / 256 == FromLe(b[1..]);
    }
  }

  /** Unsigned encoding with the stream's byte order. */
  function EncodeUnsigned(e: Endian, w: Width, v: nat): (r: Bytes)
    requires v < Bound(w)
    ensures |r| == w.Size()
  {
    match e
    case Little => LeBytes(v, w.Size())
    case Big => Reverse(LeBytes(v, w.Size()))
  }

  function DecodeUnsigned(e: Endian, b: Bytes): (v: nat)
    ensures v < Pow256(|b|)
  {
    match e
    case Little => FromLe(b)
    case Big => FromLe(Reverse(b))
  }

  /** Least signed value of a width: -2^(8 * size - 1). */
  function SignedMin(w: Width): (m: int)
    ensures m == -(Bound(w) / 2)
  {
    -(Bound(w) / 2)
  }

  /** Two's complement: the unsigned pattern of a signed value and back. */
  function ToUnsigned(w: Width, v: int): (u: nat)
    requires SignedMin(w) <= v < -SignedMin(w)
    ensures u < Bound(w)
  {
    if v < 0 then v + Bound(w) else v
  }

  function ToSigned(w: Width, u: nat): (v: int)
    requires u < Bound(w)
    ensures SignedMin(w) <= v < -SignedMin(w)
  {
    if u < Bound(w) / 2 then u else u - Bound(w)
  }

  function EncodeSigned(e: Endian, w: Width, v: int): (r: Bytes)
    requires SignedMin(w) <= v < -SignedMin(w)
    ensures |r| == w.Size()
  {
    EncodeUnsigned(e, w, ToUnsigned(w, v))
  }

  function DecodeSigned(e: Endian, w: Width, b: Bytes): (v: int)
    requires |b| == w.Size()
    ensures SignedMin(w) <= v < -SignedMin(w)
  {
    ToSigned(w, DecodeUnsigned(e, b))
  }

  /** Decoding what was encoded with the same byte order gives the value back. */
  lemma UnsignedRoundTrip(e: Endian, w: Width, v: nat)
    requires v < Bound(w)
    ensures DecodeUnsigned(e, EncodeUnsigned(e, w, v)) == v
  {
    FromLeLeBytes(v, w.Size());
    if e == Big {
      ReverseReverse(LeBytes(v, w.Size()));
    }
  }

  /** Encoding what was decoded gives the bytes back. */
  lemma UnsignedRoundTripBytes(e: Endian, w: Width, b: Bytes)
    requires |b| == w.Size()
    ensures EncodeUnsigned(e, w, DecodeUnsigned(e, b)) == b
  {
    match e
    case Little => LeBytesFromLe(b);
    case Big =>
      LeBytesFromLe(Reverse(b));
      ReverseReverse(b);
  }

  lemma SignedRoundTrip(e: Endian, w: Width, v: int)
    requires SignedMin(w) <= v < -SignedMin(w)
    ensures DecodeSigned(e, w, EncodeSigned(e, w, v)) == v
  {
    UnsignedRoundTrip(e, w, ToUnsigned(w, v));
  }

  /** Big-endian output is the little-endian output in reverse order. */
  lemma BigIsReversedLittle(w: Width, v: nat)
    requires v < Bound(w)
    ensures EncodeUnsigned(Big, w, v) == Reverse(EncodeUnsigned(Little, w, v))
    ensures EncodeUnsigned(Little, w, v)[0] == v % 256
  {
  }
}
