/** Fixed-width and variable-width integers and length-prefixed strings (util/coding.h, util/coding.cc). */
module Coding {
  type Byte = x: int | 0 <= x < 0x100
  type U32 = x: int | 0 <= x < 0x1_0000_0000
  type U64 = x: int | 0 <= x < 0x1_0000_0000_0000_0000
  type Bytes = seq<Byte>

  datatype Parsed<+T> = Parsed(value: T, rest: Bytes) | Bad

  // ---- Fixed width -----------------------------------------------------------------------------

  function Fixed32(v: U32): (r: Bytes)
    ensures |r| == 4
  {
    [v % 0x100, v / 0x100 % 0x100, v / 0x1_0000 % 0x100, v / 0x100_0000]
  }

  function DecodeFixed32(b: Bytes): U32
    requires |b| >= 4
  {
    var b0: int, b1: int, b2: int, b3: int := b[0], b[1], b[2], b[3];
    b0 + b1 * 0x100 + b2 * 0x1_0000 + b3 * 0x100_0000
  }

  lemma DecodeInvertsFixed32(v: U32, rest: Bytes)
    ensures DecodeFixed32(Fixed32(v) + rest) == v
  {
    var b := Fixed32(v) + rest;
    var high := v / 0x100;
    assert v / 0x1_0000 == high / 0x100 && v / 0x100_0000 == high / 0x100 / 0x100;
    assert b[0] == v % 0x100 && b[1] == high % 0x100 && b[2] == high / 0x100 % 0x100 && b[3] == high / 0x100 / 0x100;
  }

  /** Little endian: the low word comes first. */
  function Fixed64(v: U64): (r: Bytes)
    ensures |r| == 8
  {
    Fixed32(v % 0x1_0000_0000) + Fixed32(v / 0x1_0000_0000)
  }

  function DecodeFixed64(b: Bytes): U64
    requires |b| >= 8
  {
    var low: int, high: int := DecodeFixed32(b), DecodeFixed32(b[4..]);
    low + high * 0x1_0000_0000
  }

  lemma DecodeInvertsFixed64(v: U64, rest: Bytes)
    ensures DecodeFixed64(Fixed64(v) + rest) == v
  {
    hide Fixed32, DecodeFixed32;
    var low, high := v % 0x1_0000_0000, v / 0x1_0000_0000;
    var b := Fixed64(v) + rest;
    assert b == Fixed32(low) + (Fixed32(high) + rest) && b[4..] == Fixed32(high) + rest;
    DecodeInvertsFixed32(low, Fixed32(high) + rest);
    DecodeInvertsFixed32(high, rest);
  }

  // ---- Variable width --------------------------------------------------------------------------

  /** Seven bits a byte, low bits first, the high bit set on every byte but the last. */
  function Varint(v: nat): (r: Bytes)
    ensures r != []
  {
    if v < 128 then [v] else [v % 128 + 128] + Varint(v / 128)
  }

  /** What at most n bytes of `input` decode to. */
  function DecodeVarint(input: Bytes, n: nat): Parsed<nat> {
    if n == 0 || input == [] then Bad
    else if input[0] < 128 then Parsed(input[0], input[1..])
    else
      match DecodeVarint(input[1..], n - 1)
      case Parsed(high, rest) => Parsed(input[0] - 128 + 128 * high, rest)
      case Bad => Bad
  }

  function Power128(n: nat): (r: nat)
    ensures r >= 1
  {
    if n == 0 then 1 else 128 * Power128(n - 1)
  }

  lemma {:induction false} DecodeInvertsVarint(v: nat, rest: Bytes, n: nat)
    requires n > 0 && v < Power128(n)
    ensures DecodeVarint(Varint(v) + rest, n) == Parsed(v, rest)
  {
    var b := Varint(v) + rest;
    if v < 128 {
      assert b[1..] == rest;
    } else {
      assert Power128(n) == 128 * Power128(n - 1) && Power128(0) == 1;
      DecodeInvertsVarint(v / 128, rest, n - 1);
      assert b[1..] == Varint(v / 128) + rest;
    }
  }

  /** GetVarint32 reads at most five bytes and keeps 32 bits, GetVarint64 ten bytes and 64 bits. */
  function DecodeVarint32(input: Bytes): Parsed<U32> {
    match DecodeVarint(input, 5)
    case Parsed(v, rest) => Parsed(v % 0x1_0000_0000, rest)
    case Bad => Bad
  }

  function DecodeVarint64(input: Bytes): Parsed<U64> {
    match DecodeVarint(input, 10)
    case Parsed(v, rest) => Parsed(v % 0x1_0000_0000_0000_0000, rest)
    case Bad => Bad
  }

  lemma Powers()
    ensures Power128(5) == 0x8_0000_0000 && Power128(10) == 0x40_0000_0000_0000_0000
  {
    assert Power128(2) == 0x4000 && Power128(4) == 0x1000_0000;
    assert Power128(6) == 0x400_0000_0000 && Power128(8) == 0x100_0000_0000_0000;
  }

  lemma Varint32RoundTrip(v: U32, rest: Bytes)
    ensures DecodeVarint32(Varint(v) + rest) == Parsed(v, rest)
  {
    hide Varint, DecodeVarint, Power128;
    Powers();
    DecodeInvertsVarint(v, rest, 5);
  }

  lemma Varint64RoundTrip(v: U64, rest: Bytes)
    ensures DecodeVarint64(Varint(v) + rest) == Parsed(v, rest)
  {
    hide Varint, DecodeVarint, Power128;
    Powers();
    DecodeInvertsVarint(v, rest, 10);
  }

  /** EncodeVarint64: the loop. */
  method EncodeVarint64(value: U64) returns (r: Bytes)
    ensures r == Varint(value)
  {
    var v: nat := value;
    r := [];
    while v >= 128
      invariant r + Varint(v) == Varint(value)
    {
      r := r + [v % 128 + 128];
      v := v / 128;
    }
    r := r + [v];
  }

  /** EncodeVarint32: the unrolled case distinction on the size of v. */
  function EncodeVarint32(v: U32): (r: Bytes)
    ensures r != []
  {
    var v1, v2, v3, v4 := v / 128, v / 128 / 128, v / 128 / 128 / 128, v / 128 / 128 / 128 / 128;
    var b0, b1, b2, b3 := v % 128 + 128, v1 % 128 + 128, v2 % 128 + 128, v3 % 128 + 128;
    if v < 0x80 then [v]
    else if v < 0x4000 then [b0, v1]
    else if v < 0x20_0000 then [b0, b1, v2]
    else if v < 0x1000_0000 then [b0, b1, b2, v3]
    else [b0, b1, b2, b3, v4]
  }

  lemma VarintStep(v: nat)
    ensures Varint(v) == if v < 128 then [v] else [v % 128 + 128] + Varint(v / 128)
  {
  }

  lemma EncodeVarint32IsVarint(v: U32)
    ensures EncodeVarint32(v) == Varint(v)
  {
    hide Varint;
    VarintStep(v);
    VarintStep(v / 128);
    VarintStep(v / 128 / 128);
    VarintStep(v / 128 / 128 / 128);
    VarintStep(v / 128 / 128 / 128 / 128);
  }

  lemma Shifted(acc: nat, scale: nat, digit: nat, high: nat)
    ensures acc + scale * (digit + 128 * high) == acc + scale * digit + scale * 128 * high
  {
  }

  /** The loop of GetVarint32Ptr (n == 5, width 2^32) and GetVarint64Ptr (n == 10, width 2^64): `scale` is
      1 << shift. Bits shifted past the width are lost, which is the same as cutting them off at the end. */
  method GetVarint(input: Bytes, n: nat, width: nat) returns (r: Parsed<nat>)
    requires width > 0
    ensures match DecodeVarint(input, n)
            case Parsed(v, rest) => r == Parsed(v % width, rest)
            case Bad => r == Bad
  {
    var p, left := input, n;
    var result: nat, scale: nat := 0, 1;
    while left > 0 && p != []
      invariant match DecodeVarint(p, left)
                case Parsed(v, rest) => DecodeVarint(input, n) == Parsed(result + scale * v, rest)
                case Bad => DecodeVarint(input, n) == Bad
      decreases left
    {
      var byte := p[0];
      p := p[1..];
      if byte < 128 {
        return Parsed((result + scale * byte) % width, p);
      }
      var digit: nat := byte - 128;
      ghost var tail := DecodeVarint(p, left - 1);
      if tail.Parsed? {
        Shifted(result, scale, digit, tail.value);
      }
      result := result + scale * digit;
      scale := scale * 128;
      left := left - 1;
    }
    r := Bad;
  }

  /** A strictly shorter rest: decoding makes progress. */
  lemma {:induction false} DecodeVarintConsumes(input: Bytes, n: nat)
    ensures DecodeVarint(input, n).Parsed? ==> |DecodeVarint(input, n).rest| < |input|
  {
    if n > 0 && input != [] && input[0] >= 128 {
      DecodeVarintConsumes(input[1..], n - 1);
    }
  }

  method GetVarint32(input: Bytes) returns (r: Parsed<U32>)
    ensures r == DecodeVarint32(input) && (r.Parsed? ==> |r.rest| < |input|)
  {
    DecodeVarintConsumes(input, 5);
    var v := GetVarint(input, 5, 0x1_0000_0000);
    r := match v case Parsed(n, rest) => Parsed(n, rest) case Bad => Bad;
  }

  method GetVarint64(input: Bytes) returns (r: Parsed<U64>)
    ensures r == DecodeVarint64(input) && (r.Parsed? ==> |r.rest| < |input|)
  {
    DecodeVarintConsumes(input, 10);
    var v := GetVarint(input, 10, 0x1_0000_0000_0000_0000);
    r := match v case Parsed(n, rest) => Parsed(n, rest) case Bad => Bad;
  }

  /** PutVarint32 of a size, which is cast to 32 bits. */
  function PutVarint32(n: nat): (r: Bytes)
    ensures r != []
  {
    EncodeVarint32(n % 0x1_0000_0000)
  }

  lemma PutVarint32RoundTrip(n: nat, rest: Bytes)
    requires n < 0x1_0000_0000
    ensures DecodeVarint32(PutVarint32(n) + rest) == Parsed(n, rest)
  {
    hide EncodeVarint32, Varint, DecodeVarint32;
    EncodeVarint32IsVarint(n);
    Varint32RoundTrip(n, rest);
  }

  // ---- Length-prefixed strings -----------------------------------------------------------------

  /** PutLengthPrefixedSlice casts the length to 32 bits. */
  function Prefixed(s: Bytes): Bytes { PutVarint32(|s|) + s }

  /** GetLengthPrefixedSlice. */
  function DecodePrefixed(input: Bytes): Parsed<Bytes> {
    match DecodeVarint32(input)
    case Parsed(n, rest) => if n <= |rest| then Parsed(rest[..n], rest[n..]) else Bad
    case Bad => Bad
  }

  lemma PrefixedRoundTrip(s: Bytes, rest: Bytes)
    requires |s| < 0x1_0000_0000
    ensures DecodePrefixed(Prefixed(s) + rest) == Parsed(s, rest)
  {
    hide DecodeVarint32, PutVarint32;
    assert Prefixed(s) + rest == PutVarint32(|s|) + (s + rest);
    PutVarint32RoundTrip(|s|, s + rest);
    assert (s + rest)[..|s|] == s && (s + rest)[|s|..] == rest;
  }

  method GetLengthPrefixedSlice(input: Bytes) returns (r: Parsed<Bytes>)
    ensures r == DecodePrefixed(input) && (r.Parsed? ==> |r.rest| < |input|)
  {
    var length := GetVarint32(input);
    match length
    case Bad => r := Bad;
    case Parsed(n, rest) =>
      r := if n <= |rest| then Parsed(rest[..n], rest[n..]) else Bad;
  }
}
