/** Input streams and substreams (pb_decode.c). */
module PbStream {
  import opened DbFormat
  import opened Coding
  import opened PbFormat

  /** What is left after reading some bytes from the front. */
  ghost predicate After(before: Bytes, left: Bytes) {
    |left| <= |before| && before[|before| - |left|..] == left
  }

  lemma AfterItself(b: Bytes)
    ensures After(b, b)
  {
  }

  lemma AfterOne(before: Bytes, left: Bytes)
    requires After(before, left) && left != []
    ensures After(before, left[1..]) && |left[1..]| < |before|
  {
    assert before[|before| - |left| + 1..] == left[1..];
  }

  // ---- 32-bit varints, of any length -------------------------------------------------------------

  /** Where the varint ends: the first byte without its high bit, or the end of the bytes. */
  function VarintEnd(b: Bytes): (n: nat)
    ensures n <= |b| && (forall i :: 0 <= i < n ==> b[i] >= 128) && (n < |b| ==> b[n] < 128)
  {
    if b == [] || b[0] < 128 then 0 else 1 + VarintEnd(b[1..])
  }

  /** The low 32 bits of the first n digits, seven bits each. */
  function LowBits(b: Bytes, n: nat): (v: nat)
    requires n <= |b|
    ensures v < 0x1_0000_0000
  {
    if n == 0 then 0 else WithDigit(LowBits(b, n - 1), b[n - 1] as int % 128, 7 * (n - 1))
  }

  /** A digit beyond 32 bits may say nothing, or repeat the sign of a negative number. */
  predicate Redundant(b: Byte, i: nat, value: nat) {
    b as int % 128 == 0 || (value >= 0x8000_0000 && b == if i < 9 then 0xff else 0x01)
  }

  /** What a 32-bit varint may look like: it ends, its digits beyond 32 bits are redundant, and if it ends with the
      fifth byte then that has no bits beyond 32 either. */
  predicate IsVarint32(b: Bytes) {
    var n := VarintEnd(b);
    && n < |b| && (n == 4 ==> b[4] < 16)
    && forall i :: 5 <= i <= n ==> Redundant(b[i], i, LowBits(b, 5))
  }

  /** Its value. */
  function Varint32Value(b: Bytes): nat
    requires IsVarint32(b)
  {
    var n := VarintEnd(b);
    LowBits(b, if n < 5 then n + 1 else 5)
  }

  /** What follows a varint. */
  function BehindVarint(b: Bytes): (r: Bytes)
    requires VarintEnd(b) < |b|
    ensures |r| < |b|
  {
    b[VarintEnd(b) + 1..]
  }

  /** A length and at least that many bytes. */
  predicate IsSized(b: Bytes) { IsVarint32(b) && Varint32Value(b) <= |BehindVarint(b)| }

  /** `left` are the bytes_left bytes from state on. */
  class IStream {
    var left: Bytes

    constructor (bytes: Bytes)
      ensures left == bytes
    {
      left := bytes;
    }

    /** pb_read, also with a null buffer. */
    method Read(count: nat) returns (ok: bool, bytes: Bytes)
      modifies this
      ensures ok <==> count <= |old(left)|
      ensures ok ==> bytes == old(left)[..count] && left == old(left)[count..]
      ensures !ok ==> left == old(left)
    {
      if |left| < count {
        return false, [];
      }
      ok, bytes := true, left[..count];
      left := left[count..];
    }

    /** pb_decode_varint: at most ten bytes, 64 bits kept. */
    method DecodeVarint() returns (ok: bool, value: nat)
      modifies this
      ensures match DecodeVarint64(old(left))
              case Parsed(v, rest) => ok && value == v && left == rest
              case Bad => !ok
      ensures |left| <= |old(left)| && (ok ==> |left| < |old(left)|)
    {
      var r := GetVarint64(left);
      match r
      case Parsed(v, rest) =>
        ok, value, left := true, v, rest;
      case Bad =>
        ok, value, left := false, 0, [];
    }

    /** pb_decode_varint32: over-long encodings are accepted only for zero bits or a sign extension. The value
        of a varint below 2^32 is read back; `eof` tells an empty stream from other failures. */
    method DecodeVarint32(ghost v: nat, ghost rest: Bytes) returns (ok: bool, value: nat, eof: bool)
      modifies this
      ensures old(left) == Varint(v) + rest && v < 0x1_0000_0000 ==> ok && value == v && left == rest
      ensures ok <==> IsVarint32(old(left))
      ensures ok ==> value == Varint32Value(old(left)) && left == BehindVarint(old(left))
      ensures After(old(left), left) && (ok ==> |left| < |old(left)|)
      ensures ok ==> value < 0x1_0000_0000
      ensures !ok ==> (eof <==> old(left) == [])
    {
      hide Varint, After, WithDigit, LowBits, Redundant, VarintEnd, IsVarint32, Varint32Value, PartRead;
      ghost var start := left;
      assert After(start, left) by { AfterItself(start); }
      ReadBack(v, rest);
      value := 0;
      if left == [] {
        CutOff32(start);
        return false, 0, true;
      }
      var byte := left[0];
      AfterOne(start, left);
      left := left[1..];
      eof := false;
      FirstRead(start);
      if byte < 128 {
        Accepted(start, 1, byte);
        return true, byte, false;
      }
      var bitpos: nat := 7;
      value := byte - 128;
      ghost var n: nat := 1;
      var more := true;
      while more
        invariant 1 <= n <= |start| && bitpos == 7 * n && left == start[n..] && After(start, left)
        invariant byte == start[n - 1] && (more <==> byte >= 128)
        invariant PartRead(start, n, value) && value < 0x1_0000_0000
        decreases more, |left|
      {
        if left == [] {
          AllHigh(start, value);
          CutOff32(start);
          return false, 0, false;
        }
        byte := left[0];
        AfterOne(start, left);
        left := left[1..];
        var low: nat := if byte >= 128 then byte - 128 else byte;
        OneMoreRead(start, n, value);
        if bitpos >= 32 {
          var signExtension := if bitpos < 63 then 0xff else 0x01;
          if low != 0 && (value < 0x8000_0000 || byte != signExtension) {
            return false, 0, false;
          }
        } else {
          value := WithDigit(value, low, bitpos);
        }
        n := n + 1;
        bitpos := bitpos + 7;
        more := byte >= 128;
      }
      Accepted(start, n, value);
      // Of the byte at bit 28 only the bottom four bits fit.
      if bitpos == 35 && byte >= 16 {
        return false, 0, false;
      }
      ok, eof := true, false;
    }

    /** pb_decode_tag: an empty stream or a zero byte ends the message. */
    method DecodeTag(ghost t: nat, ghost w: nat, ghost rest: Bytes)
      returns (ok: bool, wireType: nat, tag: nat, eof: bool)
      modifies this
      ensures old(left) == TagBytes(t, w) + rest && 0 < t < 0x2000_0000 && w < 8 ==>
                ok && wireType == w && tag == t && left == rest
      ensures |left| <= |old(left)| && (ok ==> |left| < |old(left)|)
      ensures var b := old(left);
              && (ok <==> IsVarint32(b) && Varint32Value(b) != 0)
              && (ok ==> tag * 8 + wireType == Varint32Value(b) && wireType < 8 && left == BehindVarint(b))
              && (!ok ==> (eof <==> b == [] || IsVarint32(b)))
    {
      hide Varint, IsVarint32, Varint32Value, BehindVarint;
      var temp;
      ok, temp, eof := DecodeVarint32(t * 8 + w, rest);
      if !ok {
        return false, 0, 0, eof;
      }
      if temp == 0 {
        return false, 0, 0, true;
      }
      tag, wireType := temp / 8, temp % 8;
    }

    /** pb_skip_varint, of any length. */
    method SkipVarint(ghost v: nat, ghost rest: Bytes) returns (ok: bool)
      modifies this
      ensures |left| <= |old(left)|
      ensures old(left) == Varint(v) + rest ==> ok && left == rest
      ensures ok <==> VarintEnd(old(left)) < |old(left)|
      ensures ok ==> left == BehindVarint(old(left))
    {
      hide Varint, VarintEnd;
      ghost var start, n: nat := left, 0;
      ghost var isHere := left == Varint(v) + rest;
      ghost var high: nat := v;
      var byte := 0x80;
      while byte >= 128
        invariant |left| <= |old(left)|
        invariant isHere ==> left == if byte >= 128 then Varint(high) + rest else rest
        invariant n <= |start| && left == start[n..] && forall i :: 0 <= i < n - 1 ==> start[i] >= 128
        invariant byte < 128 ==> n > 0
        invariant n > 0 ==> byte == start[n - 1]
        decreases |left|, byte >= 128
      {
        VarintStep(high);
        high := high / 128;
        VarintEnds(start, n);
        var bytes;
        ok, bytes := Read(1);
        if !ok {
          return;
        }
        byte := bytes[0];
        n := n + 1;
      }
      VarintEnds(start, n - 1);
      ok := true;
    }

    /** pb_skip_field, for fields the message does not know. */
    method SkipField(wireType: nat, ghost raw: Raw, ghost rest: Bytes) returns (ok: bool)
      modifies this
      ensures |left| <= |old(left)|
      ensures && RawFits(raw) && wireType == RawWireType(raw)
              && old(left) == RawBytes(raw) + rest && |old(left)| < 0x1_0000_0000 ==>
                ok && left == rest
      ensures ok <==>
                || (wireType == WT_VARINT && VarintEnd(old(left)) < |old(left)|)
                || (wireType == WT_64BIT && |old(left)| >= 8) || (wireType == WT_32BIT && |old(left)| >= 4)
                || (wireType == WT_STRING && IsSized(old(left)))
      ensures ok ==>
                left == if wireType == WT_VARINT then BehindVarint(old(left))
                        else if wireType == WT_64BIT then old(left)[8..]
                        else if wireType == WT_32BIT then old(left)[4..]
                        else BehindVarint(old(left))[Varint32Value(old(left))..]
    {
      hide Varint, IsVarint32, Varint32Value, VarintEnd, BehindVarint;
      var bytes: Bytes;
      if wireType == WT_VARINT {
        ok := SkipVarint(if raw.RawVarint? then raw.n else 0, rest);
      } else if wireType == WT_64BIT {
        ok, bytes := Read(8);
      } else if wireType == WT_STRING {
        var length, eof;
        if raw.RawString? {
          assert RawBytes(raw) + rest == Varint(|raw.bytes|) + (raw.bytes + rest);
        }
        ok, length, eof :=
          DecodeVarint32(if raw.RawString? then |raw.bytes| else 0, if raw.RawString? then raw.bytes + rest else []);
        if ok {
          ok, bytes := Read(length);
        }
      } else if wireType == WT_32BIT {
        ok, bytes := Read(4);
      } else {
        ok := false;
      }
    }

    /** pb_make_string_substream: the substream gets the announced bytes, the parent goes on behind them,
        where pb_close_string_substream leaves it. */
    method MakeSubstream(ghost b: Bytes, ghost rest: Bytes) returns (ok: bool, sub: IStream)
      modifies this
      ensures fresh(sub)
      ensures ok ==> |sub.left| + |left| < |old(left)| && After(old(left), sub.left + left)
      ensures |left| <= |old(left)|
      ensures old(left) == Varint(|b|) + b + rest && |b| < 0x1_0000_0000 ==> ok && sub.left == b && left == rest
      ensures ok <==> IsSized(old(left))
      ensures ok ==>
                var size, all := Varint32Value(old(left)), BehindVarint(old(left));
                sub.left == all[..size] && left == all[size..]
    {
      hide Varint, IsVarint32, Varint32Value, BehindVarint;
      sub := new IStream([]);
      assert Varint(|b|) + b + rest == Varint(|b|) + (b + rest);
      var size, eof;
      ok, size, eof := DecodeVarint32(|b|, b + rest);
      if !ok {
        return;
      }
      if |left| < size {
        return false, sub;
      }
      sub.left := left[..size];
      left := left[size..];
    }
  }

  /** x << bitpos, for the positions of a 32-bit varint. */
  function Shifted(x: nat, bitpos: nat): nat {
    if bitpos == 7 then 0x80 * x else if bitpos == 14 then 0x4000 * x else if bitpos == 21 then 0x20_0000 * x
    else if bitpos == 28 then 0x1000_0000 * x else x
  }

  /** result |= (uint32_t)low << bitpos, for bits not set yet. */
  function WithDigit(value: nat, low: nat, bitpos: nat): (r: nat)
    ensures r < 0x1_0000_0000
  {
    (value + Shifted(low, bitpos)) % 0x1_0000_0000
  }

  /** The first n bytes of a varint have been read, all of them but the last with the high bit. */
  ghost predicate PartRead(b: Bytes, n: nat, value: nat) {
    && 1 <= n <= |b| && (forall i :: 0 <= i < n - 1 ==> b[i] >= 128)
    && value == LowBits(b, if n < 5 then n else 5)
    && forall i :: 5 <= i < n ==> Redundant(b[i], i, value)
  }

  lemma FirstDigit(b: Bytes)
    requires b != []
    ensures LowBits(b, 1) == b[0] as int % 128
  {
    assert LowBits(b, 0) == 0;
  }

  lemma FirstRead(b: Bytes)
    requires b != []
    ensures PartRead(b, 1, b[0] as int % 128)
  {
    FirstDigit(b);
  }

  lemma OneMoreRead(b: Bytes, n: nat, value: nat)
    requires PartRead(b, n, value) && n < |b| && b[n - 1] >= 128
    ensures var low: nat := if b[n] >= 128 then b[n] - 128 else b[n];
            if n < 5 then PartRead(b, n + 1, WithDigit(value, low, 7 * n))
            else if low != 0 && (value < 0x8000_0000 || b[n] != if n < 9 then 0xff else 0x01) then !IsVarint32(b)
            else PartRead(b, n + 1, value)
  {
    hide LowBits, WithDigit, VarintEnd;
    VarintEnds(b, n);
    Digit(b, n);
  }

  lemma Accepted(b: Bytes, n: nat, value: nat)
    requires PartRead(b, n, value) && b[n - 1] < 128
    ensures VarintEnd(b) == n - 1 && (IsVarint32(b) <==> !(n == 5 && b[4] >= 16))
    ensures IsVarint32(b) ==> Varint32Value(b) == value
  {
    hide LowBits, Redundant, VarintEnd;
    VarintEnds(b, n - 1);
  }

  lemma AllHigh(b: Bytes, value: nat)
    requires PartRead(b, |b|, value) && b[|b| - 1] >= 128
    ensures forall i :: 0 <= i < |b| ==> b[i] >= 128
  {
  }

  /** A varint that does not end. */
  lemma CutOff32(b: Bytes)
    requires forall i :: 0 <= i < |b| ==> b[i] >= 128
    ensures !IsVarint32(b)
  {
    hide VarintEnd, LowBits, Redundant;
    VarintEnds(b, |b|);
  }

  lemma Digit(b: Bytes, n: nat)
    requires n < |b|
    ensures LowBits(b, n + 1) == WithDigit(LowBits(b, n), b[n] as int % 128, 7 * n)
    ensures b[n] as int % 128 == if b[n] >= 128 then b[n] - 128 else b[n]
  {
    hide WithDigit;
  }

  /** The first n bytes have their high bits set: then the varint ends with byte n or goes on. */
  lemma {:induction false} VarintEnds(b: Bytes, n: nat)
    requires n <= |b| && forall i :: 0 <= i < n ==> b[i] >= 128
    ensures VarintEnd(b) >= n && (n < |b| && b[n] < 128 ==> VarintEnd(b) == n) && (n == |b| ==> VarintEnd(b) == n)
    ensures n < |b| && b[n] >= 128 ==> VarintEnd(b) > n
  {
    if n > 0 {
      VarintEnds(b[1..], n - 1);
    }
  }

  // ---- Written varints ---------------------------------------------------------------------------

  /** The bits of v below `bitpos` have been read; `high` is what is left. */
  ghost predicate PartWay(bitpos: nat, value: nat, high: nat, v: nat)
    ensures PartWay(bitpos, value, high, v) ==> bitpos <= 28
  {
    && (bitpos == 7 || bitpos == 14 || bitpos == 21 || bitpos == 28)
    && value < Shifted(1, bitpos) && value + Shifted(high, bitpos) == v < 0x1_0000_0000
  }

  /** One more digit of a number that fits 32 bits. */
  lemma NextDigit(bitpos: nat, value: nat, high: nat, low: nat, v: nat)
    requires PartWay(bitpos, value, high, v) && low == high % 128
    ensures high < 128 ==> WithDigit(value, low, bitpos) == v && (bitpos == 28 ==> high < 16)
    ensures high >= 128 ==> PartWay(bitpos + 7, WithDigit(value, low, bitpos), high / 128, v)
  {
    var up := high / 128;
    assert high == 128 * up + low;
    assert WithDigit(value, low, bitpos) == value + Shifted(low, bitpos);
  }

  /** A number below 2^32 is written as a varint of at most five bytes that is read back. */
  lemma ReadBack(v: nat, rest: Bytes)
    ensures v < 0x1_0000_0000 ==>
              && IsVarint32(Varint(v) + rest) && Varint32Value(Varint(v) + rest) == v
              && (Varint(v) + rest)[VarintEnd(Varint(v) + rest) + 1..] == rest
  {
    hide WithDigit, LowBits, Varint, VarintEnd, PartWay, Redundant, IsVarint32, Varint32Value;
    if v < 0x1_0000_0000 {
      var b := Varint(v) + rest;
      if v < 128 {
        OneByte(v, rest);
      } else {
        FirstByte(v, rest);
        WrittenRest(b, 1, v / 128, rest, v);
      }
      ShortVarint(b);
    }
  }

  lemma OneByte(v: nat, rest: Bytes)
    requires v < 128
    ensures var b := Varint(v) + rest; VarintEnd(b) == 0 && LowBits(b, 1) == v && b[1..] == rest
  {
    hide WithDigit, LowBits, Varint, VarintEnd;
    VarintStep(v);
    var b := Varint(v) + rest;
    assert b == [v] + rest;
    FirstDigit(b);
    VarintEnds(b, 0);
  }

  lemma FirstByte(v: nat, rest: Bytes)
    requires 128 <= v < 0x1_0000_0000
    ensures var b := Varint(v) + rest;
            b[0] >= 128 && b[1..] == Varint(v / 128) + rest && PartWay(7, LowBits(b, 1), v / 128, v)
  {
    hide WithDigit, LowBits, Varint;
    VarintStep(v);
    var b := Varint(v) + rest;
    assert b == [v % 128 + 128] + (Varint(v / 128) + rest);
    FirstDigit(b);
    FirstPart(v);
  }

  lemma ShortVarint(b: Bytes)
    requires VarintEnd(b) < 5 && VarintEnd(b) < |b| && (VarintEnd(b) == 4 ==> b[4] < 16)
    ensures IsVarint32(b) && Varint32Value(b) == LowBits(b, VarintEnd(b) + 1)
  {
    hide VarintEnd, LowBits, Redundant;
  }

  lemma FirstPart(v: nat)
    requires v < 0x1_0000_0000
    ensures PartWay(7, (v % 128 + 128) % 128, v / 128, v)
  {
  }

  /** The rest of a written number behind its first n digits. */
  lemma {:induction false} WrittenRest(b: Bytes, n: nat, high: nat, rest: Bytes, v: nat)
    requires 1 <= n <= |b| && b[n..] == Varint(high) + rest && forall i :: 0 <= i < n ==> b[i] >= 128
    requires PartWay(7 * n, LowBits(b, n), high, v)
    ensures VarintEnd(b) < 5 && VarintEnd(b) < |b| && b[VarintEnd(b) + 1..] == rest
    ensures LowBits(b, VarintEnd(b) + 1) == v && (VarintEnd(b) == 4 ==> b[4] < 16)
    decreases 5 - n
  {
    hide WithDigit, LowBits, Varint, VarintEnd, PartWay;
    assert n <= 4 by { AtMostFour(7 * n, LowBits(b, n), high, v); }
    VarintStep(high);
    assert b[n] == b[n..][0] && b[n + 1..] == b[n..][1..];
    Digit(b, n);
    NextDigit(7 * n, LowBits(b, n), high, b[n] as int % 128, v);
    VarintEnds(b, n);
    if high >= 128 {
      WrittenRest(b, n + 1, high / 128, rest, v);
    }
  }

  lemma AtMostFour(bitpos: nat, value: nat, high: nat, v: nat)
    requires PartWay(bitpos, value, high, v)
    ensures bitpos <= 28
  {
  }
}
