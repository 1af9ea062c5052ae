/** The encoder, with its sizing passes and limited substreams (pb_encode.c). */
module PbEncode {
  import opened DbFormat
  import opened Coding
  import opened PbFormat

  /** What one call may do to a stream: it succeeds exactly when the value is within its limits and the bytes
      fit, and then it writes exactly `bytes`; a sizing stream only counts them. */
  ghost predicate Wrote(s: OStream, count0: nat, out0: Bytes, ok: bool, inLimits: bool, bytes: Bytes)
    reads s
  {
    && s.Valid()
    && (ok <==> inLimits && (s.sizing || count0 + |bytes| <= s.maxSize))
    && (ok ==> s.bytesWritten == count0 + |bytes| && s.out == if s.sizing then out0 else out0 + bytes)
  }

  class OStream {
    const sizing: bool // callback == NULL
    const maxSize: nat
    var bytesWritten: nat
    var out: Bytes

    constructor (sizing: bool, maxSize: nat)
      ensures Valid() && this.sizing == sizing && this.maxSize == maxSize && bytesWritten == 0 && out == []
    {
      this.sizing, this.maxSize := sizing, maxSize;
      bytesWritten, out := 0, [];
    }

    ghost predicate Valid()
      reads this
    {
      !sizing ==> bytesWritten <= maxSize
    }

    /** pb_write. */
    method Write(buf: Bytes) returns (ok: bool)
      requires Valid()
      modifies this
      ensures Wrote(this, old(bytesWritten), old(out), ok, true, buf)
    {
      if |buf| > 0 && !sizing {
        if bytesWritten + |buf| > maxSize {
          return false;
        }
        out := out + buf;
      }
      bytesWritten := bytesWritten + |buf|;
      ok := true;
    }

    /** pb_write without a buffer, when just sizing. */
    method Count(count: nat)
      requires sizing
      modifies this
      ensures bytesWritten == old(bytesWritten) + count && out == old(out)
    {
      bytesWritten := bytesWritten + count;
    }

    /** pb_encode_varint. */
    method EncodeVarint(value: nat) returns (ok: bool)
      requires Valid()
      modifies this
      ensures Wrote(this, old(bytesWritten), old(out), ok, true, Varint(value))
    {
      VarintStep(value);
      if value <= 0x7f {
        ok := Write([value]);
        return;
      }
      var buffer := VarintBuffer(value);
      ok := Write(buffer);
    }

    /** The loop of pb_encode_varint, with the top bit of the last byte taken off at the end. */
    static method VarintBuffer(value: nat) returns (buffer: Bytes)
      requires value > 0
      ensures buffer == Varint(value)
    {
      hide Varint;
      buffer := [];
      var v: nat := value;
      while v > 0
        invariant v > 0 ==> buffer + Varint(v) == Varint(value)
        invariant v == 0 ==> buffer != [] && buffer[|buffer| - 1] >= 128 &&
                             buffer[..|buffer| - 1] + [buffer[|buffer| - 1] - 128] == Varint(value)
      {
        VarintStep(v);
        buffer := buffer + [v % 128 + 128];
        v := v / 128;
      }
      buffer := buffer[..|buffer| - 1] + [buffer[|buffer| - 1] - 128];
    }

    /** pb_encode_tag. */
    method EncodeTag(wireType: nat, tag: nat) returns (ok: bool)
      requires Valid()
      modifies this
      ensures Wrote(this, old(bytesWritten), old(out), ok, true, TagBytes(tag, wireType))
    {
      ok := EncodeVarint(tag * 8 + wireType);
    }

    /** pb_encode_string. */
    method EncodeString(buffer: Bytes) returns (ok: bool)
      requires Valid()
      modifies this
      ensures Wrote(this, old(bytesWritten), old(out), ok, true, Varint(|buffer|) + buffer)
    {
      ok := EncodeVarint(|buffer|);
      if ok {
        ok := Write(buffer);
      }
    }
  }

  lemma {:induction false} FixedSizes(t: LType, vs: seq<Val>)
    requires forall j :: 0 <= j < |vs| ==> Fits(t, vs[j])
    ensures t.PbFixed32? ==> |ValsBytes(t, vs)| == 4 * |vs|
    ensures t.PbFixed64? ==> |ValsBytes(t, vs)| == 8 * |vs|
  {
    if vs != [] {
      FixedSizes(t, vs[1..]);
    }
  }

  lemma {:induction false} ValsBytesAppend(t: LType, vs: seq<Val>, v: Val)
    requires Fits(t, v) && forall j :: 0 <= j < |vs| ==> Fits(t, vs[j])
    ensures ValsBytes(t, vs + [v]) == ValsBytes(t, vs) + ValBytes(t, v)
  {
    hide Fits, ValBytes;
    if vs == [] {
      assert [] + [v] == [v] && [v][1..] == [];
    } else {
      assert (vs + [v])[1..] == vs[1..] + [v];
      ValsBytesAppend(t, vs[1..], v);
    }
  }

  lemma {:induction false} ItemsBytesAppend(t: LType, a: seq<Item>, b: seq<Item>)
    requires forall j :: 0 <= j < |a| ==> ItemFits(t, a[j])
    requires forall j :: 0 <= j < |b| ==> ItemFits(t, b[j])
    ensures forall j :: 0 <= j < |a + b| ==> ItemFits(t, (a + b)[j])
    ensures ItemsBytes(t, a + b) == ItemsBytes(t, a) + ItemsBytes(t, b)
  {
    hide ItemFits, ItemBytes;
    if a == [] {
      assert [] + b == b;
    } else {
      assert (a + b)[1..] == a[1..] + b;
      ItemsBytesAppend(t, a[1..], b);
    }
  }

  /** Writing a and then b, the second only if the first succeeded. */
  lemma InTurn(s: OStream, count0: nat, out0: Bytes, a: Bytes, count1: nat, out1: Bytes, ok: bool, limits: bool,
               b: Bytes)
    requires s.sizing || count0 + |a| <= s.maxSize
    requires count1 == count0 + |a| && out1 == if s.sizing then out0 else out0 + a
    requires Wrote(s, count1, out1, ok, limits, b)
    ensures Wrote(s, count0, out0, ok, limits, a + b)
  {
    assert out0 + (a + b) == out0 + a + b;
  }

  /** The first write failed for lack of room. */
  lemma NoRoom(s: OStream, count0: nat, out0: Bytes, a: Bytes, limits: bool, b: Bytes)
    requires s.Valid() && !s.sizing && count0 + |a| > s.maxSize
    ensures Wrote(s, count0, out0, false, limits, a + b)
  {
  }

  /** Two's complement and ZigZag as the code computes them. */
  function ZigZagBits(n: int): nat
    requires Signed(n, W64)
  {
    var doubled := 2 * n % 0x1_0000_0000_0000_0000;
    if n < 0 then 0xffff_ffff_ffff_ffff - doubled else doubled
  }

  lemma ZigZagBitsIs(n: int)
    requires Signed(n, W64)
    ensures ZigZagBits(n) == ZigZag(n)
  {
    if n < 0 {
      assert 2 * n % 0x1_0000_0000_0000_0000 == 2 * n + 0x1_0000_0000_0000_0000;
    } else {
      assert 2 * n % 0x1_0000_0000_0000_0000 == 2 * n;
    }
  }

  /** The field encoder for one value (PB_ENCODERS). */
  method EncodeVal(s: OStream, t: LType, v: Val) returns (ok: bool)
    requires s.Valid() && Fits(t, v)
    modifies s
    ensures Wrote(s, old(s.bytesWritten), old(s.out), ok, InLimits(t, v), ValBytes(t, v))
    decreases t, 3, 0
  {
    match t
    case PbBool => ok := s.EncodeVarint(v.n);
    case PbInt(_) => ok := s.EncodeVarint(Unsign(v.n));
    case PbUint(_) => ok := s.EncodeVarint(v.n);
    case PbSint(_) =>
      ZigZagBitsIs(v.n);
      ok := s.EncodeVarint(ZigZagBits(v.n));
    case PbFixed32 => ok := s.Write(Fixed32(v.n));
    case PbFixed64 => ok := s.Write(Fixed64(v.n));
    case PbBytes(max) =>
      if |v.bytes| > max {
        return false;
      }
      ok := s.EncodeString(v.bytes);
    case PbText(_) => ok := s.EncodeString(v.bytes);
    case PbFixedBytes(_) => ok := s.EncodeString(v.bytes);
    case PbMessage(_) => ok := EncodeSubmessage(s, t, v);
  }

  /** pb_encode_submessage: measure, write the length, then write again through a stream of just that size. */
  method EncodeSubmessage(s: OStream, t: LType, v: Val) returns (ok: bool)
    requires s.Valid() && t.PbMessage? && Fits(t, v)
    modifies s
    ensures Wrote(s, old(s.bytesWritten), old(s.out), ok, InLimits(t, v), ValBytes(t, v))
    decreases t, 2, 0
  {
    hide Fits, InLimits, ValsBytes, MessageBytes, Varint;
    ghost var count0, out0, bytes := s.bytesWritten, s.out, MessageBytes(t, v);
    var substream := new OStream(true, 0);
    ok := Encode(substream, t, v);
    if !ok {
      return;
    }
    var size := substream.bytesWritten;
    ok := s.EncodeVarint(size);
    if !ok {
      NoRoom(s, count0, out0, Varint(size), true, bytes);
      return;
    }
    ghost var count1, out1 := s.bytesWritten, s.out;
    if s.sizing {
      s.Count(size);
      ok := true;
      InTurn(s, count0, out0, Varint(size), count1, out1, ok, true, bytes);
      return;
    }
    if s.bytesWritten + size > s.maxSize {
      return false;
    }
    substream := new OStream(false, size);
    ok := Encode(substream, t, v);
    s.bytesWritten := s.bytesWritten + substream.bytesWritten;
    s.out := s.out + substream.out;
    InTurn(s, count0, out0, Varint(size), count1, out1, ok, true, bytes);
  }

  lemma FieldItemsFit(t: LType, v: Val, i: nat)
    requires t.PbMessage? && Fits(t, v) && i < |t.fields|
    ensures v.Message? && |v.slots| == |t.fields| && SlotFits(t.fields[i], v.slots[i])
    ensures forall j :: 0 <= j < |FieldItems(i, t.fields[i], v.slots[i])| ==>
              ItemFits(t, FieldItems(i, t.fields[i], v.slots[i])[j])
  {
  }

  /** encode_array: numbers are packed behind one tag, everything else gets a tag each. */
  method EncodeArray(s: OStream, t: LType, i: nat, vs: seq<Val>) returns (ok: bool)
    requires s.Valid() && t.PbMessage? && i < |t.fields| && t.fields[i].htype.Repeated?
    requires SlotFits(t.fields[i], Many(vs))
    modifies s
    ensures forall j :: 0 <= j < |FieldItems(i, t.fields[i], Many(vs))| ==>
              ItemFits(t, FieldItems(i, t.fields[i], Many(vs))[j])
    ensures Wrote(s, old(s.bytesWritten), old(s.out), ok, SlotInLimits(t.fields[i], Many(vs)),
                  ItemsBytes(t, FieldItems(i, t.fields[i], Many(vs))))
    decreases t, 0, 2
  {
    var f := t.fields[i];
    if |vs| == 0 {
      return true;
    }
    if |vs| > f.htype.max {
      return false;
    }
    if Packable(f.ltype) {
      ok := EncodePacked(s, t, i, vs);
      OneItem(t, Packed(i, vs));
    } else {
      ok := EncodeUnpacked(s, t, i, vs);
    }
  }

  lemma OneItem(t: LType, x: Item)
    requires ItemFits(t, x)
    ensures ItemsBytes(t, [x]) == ItemBytes(t, x)
  {
    hide ItemFits, ItemBytes;
    assert [x][1..] == [];
  }

  /** Numbers have no limits of their own. */
  lemma NumbersInLimits(t: LType, v: Val)
    requires Fits(t, v) && Packable(t)
    ensures InLimits(t, v)
  {
  }

  method EncodePacked(s: OStream, t: LType, i: nat, vs: seq<Val>) returns (ok: bool)
    requires s.Valid() && t.PbMessage? && i < |t.fields| && vs != []
    requires t.fields[i].htype.Repeated? && Packable(t.fields[i].ltype)
    requires forall j :: 0 <= j < |vs| ==> Fits(t.fields[i].ltype, vs[j])
    modifies s
    ensures ItemFits(t, Packed(i, vs))
    ensures Wrote(s, old(s.bytesWritten), old(s.out), ok, true, ItemBytes(t, Packed(i, vs)))
    decreases t, 0, 0
  {
    hide Fits, InLimits, ValBytes, ValsBytes, Varint;
    var f := t.fields[i];
    ghost var count0, out0, bytes := s.bytesWritten, s.out, ValsBytes(f.ltype, vs);
    ghost var tag := TagBytes(f.tag, WT_STRING);
    ok := s.EncodeTag(WT_STRING, f.tag);
    if !ok {
      NoRoom(s, count0, out0, tag, true, Varint(|bytes|) + bytes);
      return;
    }
    ghost var count1, out1 := s.bytesWritten, s.out;
    var size: nat;
    FixedSizes(f.ltype, vs);
    if f.ltype.PbFixed32? {
      size := 4 * |vs|;
    } else if f.ltype.PbFixed64? {
      size := 8 * |vs|;
    } else {
      var sizestream := new OStream(true, 0);
      ok := EncodeVals(sizestream, f.ltype, vs);
      size := sizestream.bytesWritten;
    }
    ok := s.EncodeVarint(size);
    if !ok {
      NoRoom(s, count1, out1, Varint(size), true, bytes);
      InTurn(s, count0, out0, tag, count1, out1, ok, true, Varint(size) + bytes);
      return;
    }
    ghost var count2, out2 := s.bytesWritten, s.out;
    if s.sizing {
      s.Count(size);
    } else {
      ok := EncodeVals(s, f.ltype, vs);
    }
    InTurn(s, count1, out1, Varint(size), count2, out2, ok, true, bytes);
    InTurn(s, count0, out0, tag, count1, out1, ok, true, Varint(size) + bytes);
  }

  /** The value loop of a packed array. */
  method EncodeVals(s: OStream, t: LType, vs: seq<Val>) returns (ok: bool)
    requires s.Valid() && Packable(t) && forall j :: 0 <= j < |vs| ==> Fits(t, vs[j])
    modifies s
    ensures Wrote(s, old(s.bytesWritten), old(s.out), ok, true, ValsBytes(t, vs))
    decreases t, 4, 0
  {
    hide Fits, InLimits, ValBytes, ValsBytes;
    ghost var count0, out0 := s.bytesWritten, s.out;
    NoVals(t);
    for i := 0 to |vs|
      invariant Wrote(s, count0, out0, true, true, ValsBytes(t, vs[..i]))
    {
      ghost var count1, out1 := s.bytesWritten, s.out;
      ValsBytesAppend(t, vs[..i], vs[i]);
      NumbersInLimits(t, vs[i]);
      assert vs[..i + 1] == vs[..i] + [vs[i]];
      ok := EncodeVal(s, t, vs[i]);
      InTurn(s, count0, out0, ValsBytes(t, vs[..i]), count1, out1, ok, true, ValBytes(t, vs[i]));
      if !ok {
        ShorterVals(t, vs, i + 1);
        return;
      }
    }
    assert vs[..|vs|] == vs;
    ok := true;
  }

  lemma NoVals(t: LType)
    ensures ValsBytes(t, []) == []
  {
  }

  lemma {:induction false} ShorterVals(t: LType, vs: seq<Val>, n: nat)
    requires n <= |vs| && forall j :: 0 <= j < |vs| ==> Fits(t, vs[j])
    ensures |ValsBytes(t, vs[..n])| <= |ValsBytes(t, vs)|
    decreases |vs| - n
  {
    hide Fits, ValBytes, ValsBytes;
    if n == |vs| {
      assert vs[..n] == vs;
    } else {
      ShorterVals(t, vs, n + 1);
      ValsBytesAppend(t, vs[..n], vs[n]);
      assert vs[..n + 1] == vs[..n] + [vs[n]];
    }
  }

  /** A tag and one value. */
  method EncodeSingle(s: OStream, t: LType, i: nat, v: Val) returns (ok: bool)
    requires s.Valid() && t.PbMessage? && i < |t.fields| && Fits(t.fields[i].ltype, v)
    modifies s
    ensures ItemFits(t, Single(i, v))
    ensures Wrote(s, old(s.bytesWritten), old(s.out), ok, InLimits(t.fields[i].ltype, v), ItemBytes(t, Single(i, v)))
    decreases t, 0, 0
  {
    hide Fits, InLimits, ValBytes;
    var f := t.fields[i];
    ghost var count0, out0, tag := s.bytesWritten, s.out, TagBytes(f.tag, WireType(f.ltype));
    ok := s.EncodeTag(WireType(f.ltype), f.tag);
    if !ok {
      NoRoom(s, count0, out0, tag, InLimits(f.ltype, v), ValBytes(f.ltype, v));
      return;
    }
    ghost var count1, out1 := s.bytesWritten, s.out;
    ok := EncodeVal(s, f.ltype, v);
    InTurn(s, count0, out0, tag, count1, out1, ok, InLimits(f.ltype, v), ValBytes(f.ltype, v));
  }

  /** The array as single items, up to the n-th. */
  function Singles(i: nat, vs: seq<Val>): (r: seq<Item>)
    ensures |r| == |vs| && forall j :: 0 <= j < |r| ==> r[j] == Single(i, vs[j])
  {
    seq(|vs|, j requires 0 <= j < |vs| => Single(i, vs[j]))
  }

  method EncodeUnpacked(s: OStream, t: LType, i: nat, vs: seq<Val>) returns (ok: bool)
    requires s.Valid() && t.PbMessage? && i < |t.fields| && forall j :: 0 <= j < |vs| ==> Fits(t.fields[i].ltype, vs[j])
    modifies s
    ensures forall j :: 0 <= j < |vs| ==> ItemFits(t, Single(i, vs[j]))
    ensures Wrote(s, old(s.bytesWritten), old(s.out), ok,
                  forall j :: 0 <= j < |vs| ==> InLimits(t.fields[i].ltype, vs[j]),
                  ItemsBytes(t, Singles(i, vs)))
    decreases t, 0, 1
  {
    hide Fits, InLimits, ItemsBytes, ItemBytes, Singles;
    ghost var count0, out0 := s.bytesWritten, s.out;
    NoItems(t);
    assert Singles(i, vs[..0]) == [];
    for n := 0 to |vs|
      invariant forall j :: 0 <= j < n ==> InLimits(t.fields[i].ltype, vs[j])
      invariant Wrote(s, count0, out0, true, true, ItemsBytes(t, Singles(i, vs[..n])))
    {
      ghost var count1, out1 := s.bytesWritten, s.out;
      SinglesStep(t, i, vs, n);
      ok := EncodeSingle(s, t, i, vs[n]);
      InTurn(s, count0, out0, ItemsBytes(t, Singles(i, vs[..n])), count1, out1, ok,
             InLimits(t.fields[i].ltype, vs[n]), ItemBytes(t, Single(i, vs[n])));
      if !ok {
        return;
      }
    }
    assert vs[..|vs|] == vs;
    ok := true;
  }

  lemma SinglesStep(t: LType, i: nat, vs: seq<Val>, n: nat)
    requires t.PbMessage? && i < |t.fields| && n < |vs| && forall j :: 0 <= j < |vs| ==> Fits(t.fields[i].ltype, vs[j])
    ensures ItemFits(t, Single(i, vs[n])) && forall j :: 0 <= j < |vs| ==> ItemFits(t, Single(i, vs[j]))
    ensures ItemsBytes(t, Singles(i, vs[..n + 1])) ==
              ItemsBytes(t, Singles(i, vs[..n])) + ItemBytes(t, Single(i, vs[n]))
    ensures |ItemsBytes(t, Singles(i, vs[..n + 1]))| <= |ItemsBytes(t, Singles(i, vs))|
  {
    hide Fits, ItemsBytes, ItemBytes;
    var x := Single(i, vs[n]);
    assert Singles(i, vs[..n + 1]) == Singles(i, vs[..n]) + [x];
    OneItem(t, x);
    ItemsBytesAppend(t, Singles(i, vs[..n]), [x]);
    assert Singles(i, vs) == Singles(i, vs[..n + 1]) + Singles(i, vs[n + 1..]);
    ItemsBytesAppend(t, Singles(i, vs[..n + 1]), Singles(i, vs[n + 1..]));
  }

  lemma NoItems(t: LType)
    ensures ItemsBytes(t, []) == []
  {
  }

  /** encode_basic_field for the field that holds slot `slot`. */
  method EncodeBasicField(s: OStream, t: LType, i: nat, slot: Slot) returns (ok: bool)
    requires s.Valid() && t.PbMessage? && i < |t.fields| && SlotFits(t.fields[i], slot)
    modifies s
    ensures forall j :: 0 <= j < |FieldItems(i, t.fields[i], slot)| ==> ItemFits(t, FieldItems(i, t.fields[i], slot)[j])
    ensures Wrote(s, old(s.bytesWritten), old(s.out), ok, SlotInLimits(t.fields[i], slot),
                  ItemsBytes(t, FieldItems(i, t.fields[i], slot)))
    decreases t, 0, 3
  {
    hide ItemsBytes, ItemBytes, IsZero;
    NoItems(t);
    var f := t.fields[i];
    if f.htype.Repeated? {
      ok := EncodeArray(s, t, i, slot.values);
      return;
    }
    // The has_ flag, the which_ tag or, for a singular field, the value itself says whether it is there.
    if slot.Absent? {
      return true;
    }
    if f.htype.Singular? {
      if IsZero(f.ltype, slot.value) {
        ZeroInLimits(f.ltype, slot.value);
        return true;
      }
    }
    OneItem(t, Single(i, slot.value));
    ok := EncodeSingle(s, t, i, slot.value);
  }

  /** What the encoder leaves out exceeds no limit. */
  lemma {:induction false} ZeroInLimits(t: LType, v: Val)
    requires Fits(t, v) && IsZero(t, v)
    ensures InLimits(t, v)
    decreases t
  {
    if t.PbMessage? {
      forall i | 0 <= i < |t.fields| ensures SlotInLimits(t.fields[i], v.slots[i]) {
        assert IsZeroSlot(t.fields[i], v.slots[i]) && SlotFits(t.fields[i], v.slots[i]);
        if t.fields[i].htype.Singular? {
          ZeroInLimits(t.fields[i].ltype, v.slots[i].value);
        }
      }
    }
  }

  /** pb_encode: every field in the order of the descriptor. */
  method Encode(s: OStream, t: LType, v: Val) returns (ok: bool)
    requires s.Valid() && t.PbMessage? && Fits(t, v)
    modifies s
    ensures Wrote(s, old(s.bytesWritten), old(s.out), ok, InLimits(t, v), MessageBytes(t, v))
    decreases t, 1, 0
  {
    hide ItemsBytes, ItemFits, SlotFits, SlotInLimits, FieldItems, Fits, InLimits, MessageBytes, Items;
    ghost var count0, out0 := s.bytesWritten, s.out;
    MessageParts(t, v);
    for i := 0 to |t.fields|
      invariant forall j :: 0 <= j < i ==> SlotInLimits(t.fields[j], v.slots[j])
      invariant forall j :: 0 <= j < |Items(t, v, i)| ==> ItemFits(t, Items(t, v, i)[j])
      invariant Wrote(s, count0, out0, true, true, ItemsBytes(t, Items(t, v, i)))
    {
      ghost var count1, out1 := s.bytesWritten, s.out;
      FieldItemsFit(t, v, i);
      ghost var xs := FieldItems(i, t.fields[i], v.slots[i]);
      ItemsMore(t, v, i);
      ok := EncodeBasicField(s, t, i, v.slots[i]);
      InTurn(s, count0, out0, ItemsBytes(t, Items(t, v, i)), count1, out1, ok,
             SlotInLimits(t.fields[i], v.slots[i]), ItemsBytes(t, xs));
      if !ok {
        ShorterItems(t, v, i + 1);
        return;
      }
    }
    ok := true;
  }

  lemma MessageParts(t: LType, v: Val)
    requires t.PbMessage? && Fits(t, v)
    ensures v.Message? && |v.slots| == |t.fields| && Items(t, v, 0) == [] && ItemsBytes(t, []) == []
    ensures forall i :: 0 <= i < |t.fields| ==> SlotFits(t.fields[i], v.slots[i])
    ensures InLimits(t, v) <==> forall i :: 0 <= i < |t.fields| ==> SlotInLimits(t.fields[i], v.slots[i])
    ensures forall j :: 0 <= j < |Items(t, v, |t.fields|)| ==> ItemFits(t, Items(t, v, |t.fields|)[j])
    ensures MessageBytes(t, v) == ItemsBytes(t, Items(t, v, |t.fields|))
  {
    hide ItemFits, OneAtATime, SlotFits, SlotInLimits;
    ItemsFit(t, v, |t.fields|);
    NoItems(t);
  }

  lemma ItemsMore(t: LType, v: Val, i: nat)
    requires t.PbMessage? && Fits(t, v) && i < |t.fields| && SlotFits(t.fields[i], v.slots[i])
    requires forall j :: 0 <= j < |Items(t, v, i)| ==> ItemFits(t, Items(t, v, i)[j])
    requires forall j :: 0 <= j < |FieldItems(i, t.fields[i], v.slots[i])| ==>
               ItemFits(t, FieldItems(i, t.fields[i], v.slots[i])[j])
    ensures var xs := Items(t, v, i + 1); forall j :: 0 <= j < |xs| ==> ItemFits(t, xs[j])
    ensures ItemsBytes(t, Items(t, v, i + 1)) ==
              ItemsBytes(t, Items(t, v, i)) + ItemsBytes(t, FieldItems(i, t.fields[i], v.slots[i]))
  {
    hide ItemsBytes, ItemFits, SlotFits, FieldItems, Fits;
    MessageParts(t, v);
    ItemsBytesAppend(t, Items(t, v, i), FieldItems(i, t.fields[i], v.slots[i]));
  }

  lemma {:induction false} ShorterItems(t: LType, v: Val, n: nat)
    requires t.PbMessage? && Fits(t, v) && n <= |t.fields|
    ensures forall j :: 0 <= j < |Items(t, v, n)| ==> ItemFits(t, Items(t, v, n)[j])
    ensures |ItemsBytes(t, Items(t, v, n))| <= |MessageBytes(t, v)|
    decreases |t.fields| - n
  {
    hide ItemsBytes, SlotFits, FieldItems;
    ItemsFit(t, v, n);
    if n < |t.fields| {
      ShorterItems(t, v, n + 1);
      FieldItemsFit(t, v, n);
      ItemsBytesAppend(t, Items(t, v, n), FieldItems(n, t.fields[n], v.slots[n]));
    }
  }

  /** pb_get_encoded_size agrees with what pb_encode writes, and pb_encode into a large enough buffer succeeds. */
  method EncodedSize(t: LType, v: Val) returns (ok: bool, size: nat)
    requires t.PbMessage? && Fits(t, v)
    ensures ok <==> InLimits(t, v)
    ensures ok ==> size == |MessageBytes(t, v)|
  {
    var stream := new OStream(true, 0);
    ok := Encode(stream, t, v);
    size := stream.bytesWritten;
  }

  /** pb_encode into a buffer. */
  method EncodeToBuffer(t: LType, v: Val, bufferSize: nat) returns (ok: bool, bytes: Bytes)
    requires t.PbMessage? && Fits(t, v)
    ensures ok <==> InLimits(t, v) && |MessageBytes(t, v)| <= bufferSize
    ensures ok ==> bytes == MessageBytes(t, v)
  {
    var stream := new OStream(false, bufferSize);
    ok := Encode(stream, t, v);
    bytes := stream.out;
  }
}
