/** Messages, their descriptors and their wire format, as nanopb sees them (pb.h, pb_common.c; section
    "Message Structure" and its siblings of the Protocol Buffers "Encoding" specification). */
module PbFormat {
  import opened DbFormat
  import opened Coding

  datatype Width = W8 | W16 | W32 | W64

  /** PB_LTYPE with data_size. Text has room for `max` characters and the terminating NUL. */
  datatype LType =
    | PbBool
    | PbInt(width: Width)
    | PbUint(width: Width)
    | PbSint(width: Width)
    | PbFixed32
    | PbFixed64
    | PbBytes(max: nat)
    | PbText(max: nat)
    | PbFixedBytes(size: nat)
    | PbMessage(fields: seq<Field>)

  /** PB_HTYPE; Singular is an optional field without a has_ flag. Oneof fields of one union share a group. */
  datatype HType = Required | Optional | Singular | Repeated(max: nat) | Oneof(group: nat)

  datatype Field = Field(tag: nat, ltype: LType, htype: HType)

  datatype Val = Num(n: int) | Blob(bytes: Bytes) | Message(slots: seq<Slot>)

  /** The part of a message struct that belongs to one field: contents without a has_ flag count as absent. */
  datatype Slot = Absent | Present(value: Val) | Many(values: seq<Val>)

  // ---- Which structs a descriptor describes -----------------------------------------------------

  function Modulus(w: Width): nat {
    match w case W8 => 0x100 case W16 => 0x1_0000 case W32 => 0x1_0000_0000 case W64 => 0x1_0000_0000_0000_0000
  }

  predicate Signed(n: int, w: Width) { -(Modulus(w) / 2) <= n < Modulus(w) / 2 }

  predicate Unsigned(n: int, w: Width) { 0 <= n < Modulus(w) }

  /** The value has the C type the field type says. */
  predicate Fits(t: LType, v: Val)
    decreases t, 0
  {
    match t
    case PbBool => v.Num? && 0 <= v.n <= 1
    case PbInt(w) => v.Num? && Signed(v.n, w)
    case PbUint(w) => v.Num? && Unsigned(v.n, w)
    case PbSint(w) => v.Num? && Signed(v.n, w)
    case PbFixed32 => v.Num? && Unsigned(v.n, W32)
    case PbFixed64 => v.Num? && Unsigned(v.n, W64)
    case PbBytes(_) => v.Blob?
    case PbText(max) => v.Blob? && |v.bytes| <= max && 0 !in v.bytes
    case PbFixedBytes(size) => v.Blob? && |v.bytes| == size
    case PbMessage(fields) =>
      && v.Message? && |v.slots| == |fields|
      && (forall i :: 0 <= i < |fields| ==> SlotFits(fields[i], v.slots[i]))
      && OneAtATime(fields, v.slots)
  }

  /** Both fields live in the same union. */
  predicate SameUnion(f: Field, g: Field) { f.htype.Oneof? && g.htype.Oneof? && f.htype.group == g.htype.group }

  /** A union holds one of its fields at most. */
  predicate OneAtATime(fields: seq<Field>, slots: seq<Slot>)
    requires |slots| == |fields|
  {
    forall i, j :: 0 <= i < j < |fields| && SameUnion(fields[i], fields[j]) ==> slots[i].Absent? || slots[j].Absent?
  }

  predicate SlotFits(f: Field, s: Slot)
    decreases f.ltype, 1
  {
    match f.htype
    case Required => s.Present? && Fits(f.ltype, s.value)
    case Singular => s.Present? && Fits(f.ltype, s.value)
    case Optional => s.Absent? || (s.Present? && Fits(f.ltype, s.value))
    case Oneof(_) => s.Absent? || (s.Present? && Fits(f.ltype, s.value))
    case Repeated(_) => s.Many? && forall i :: 0 <= i < |s.values| ==> Fits(f.ltype, s.values[i])
  }

  /** Nothing exceeds its array or buffer. */
  predicate InLimits(t: LType, v: Val)
    requires Fits(t, v)
    decreases t, 0
  {
    match t
    case PbBytes(max) => |v.bytes| <= max
    case PbMessage(fields) => forall i :: 0 <= i < |fields| ==> SlotInLimits(fields[i], v.slots[i])
    case _ => true
  }

  predicate SlotInLimits(f: Field, s: Slot)
    requires SlotFits(f, s)
    decreases f.ltype, 1
  {
    match s
    case Absent => true
    case Present(v) => InLimits(f.ltype, v)
    case Many(vs) =>
      |vs| <= (if f.htype.Repeated? then f.htype.max else 0) && forall i :: 0 <= i < |vs| ==> InLimits(f.ltype, vs[i])
  }

  // ---- Default values --------------------------------------------------------------------------

  /** What pb_message_set_to_defaults writes, for fields without a default of their own. */
  function Default(t: LType): (v: Val)
    ensures Fits(t, v)
    decreases t, 0
  {
    match t
    case PbBytes(_) => Blob([])
    case PbText(_) => Blob([])
    case PbFixedBytes(size) => Blob(seq(size, _ => 0))
    case PbMessage(fields) => Message(seq(|fields|, i requires 0 <= i < |fields| => DefaultSlot(fields[i])))
    case _ => Num(0)
  }

  function DefaultSlot(f: Field): (s: Slot)
    ensures SlotFits(f, s)
    decreases f.ltype, 1
  {
    match f.htype
    case Required => Present(Default(f.ltype))
    case Singular => Present(Default(f.ltype))
    case Repeated(_) => Many([])
    case _ => Absent
  }

  /** The defaults of a message: zeros, no text, no entries, and no value where a has_ flag or a union says so. */
  lemma DefaultsAreZero(fields: seq<Field>, i: nat)
    requires i < |fields|
    ensures var d, f := Default(PbMessage(fields)), fields[i];
            && d.Message? && |d.slots| == |fields|
            && (f.htype.Optional? || f.htype.Oneof? ==> d.slots[i].Absent?)
            && (f.htype.Repeated? ==> d.slots[i] == Many([]))
            && (f.htype.Required? || f.htype.Singular? ==>
                  && d.slots[i].Present?
                  && (d.slots[i].value.Num? ==> d.slots[i].value.n == 0)
                  && (d.slots[i].value.Blob? ==> forall j :: 0 <= j < |d.slots[i].value.bytes| ==>
                        f.ltype.PbFixedBytes? && d.slots[i].value.bytes[j] == 0))
  {
    var f := fields[i];
    var w := Default(f.ltype);
    assert Default(PbMessage(fields)).slots[i] == DefaultSlot(f);
    assert w.Blob? ==> forall j :: 0 <= j < |w.bytes| ==> f.ltype.PbFixedBytes? && w.bytes[j] == 0;
    assert DefaultSlot(f).Present? ==> DefaultSlot(f).value == w;
  }

  /** pb_check_proto3_default_value on a singular field's contents. */
  predicate IsZero(t: LType, v: Val)
    requires Fits(t, v)
    decreases t, 0
  {
    match t
    case PbBytes(_) => v.bytes == []
    case PbText(_) => v.bytes == []
    case PbFixedBytes(size) => size == 0
    case PbMessage(fields) => forall i :: 0 <= i < |fields| ==> IsZeroSlot(fields[i], v.slots[i])
    case _ => v.n == 0
  }

  predicate IsZeroSlot(f: Field, s: Slot)
    requires SlotFits(f, s)
    decreases f.ltype, 1
  {
    match f.htype
    case Required => false
    case Singular => IsZero(f.ltype, s.value)
    case Repeated(_) => s.values == []
    case _ => s.Absent?
  }

  /** A value the encoder leaves out is what the decoder starts from. */
  lemma {:induction false} ZeroIsDefault(t: LType, v: Val)
    requires Fits(t, v) && IsZero(t, v)
    ensures v == Default(t)
    decreases t
  {
    if t.PbMessage? {
      forall i | 0 <= i < |t.fields| ensures v.slots[i] == Default(t).slots[i] {
        assert IsZeroSlot(t.fields[i], v.slots[i]) && SlotFits(t.fields[i], v.slots[i]);
        if t.fields[i].htype.Singular? {
          ZeroIsDefault(t.fields[i].ltype, v.slots[i].value);
        }
      }
      assert v.slots == Default(t).slots;
    }
  }

  /** Values of the type can be left out: no required field inside, and no array of bytes with a fixed length. */
  predicate Omittable(t: LType) {
    match t
    case PbFixedBytes(size) => size == 0
    case PbMessage(fields) =>
      forall i :: 0 <= i < |fields| ==>
        !fields[i].htype.Required? && (fields[i].htype.Singular? ==> Omittable(fields[i].ltype))
    case _ => true
  }

  /** The encoder leaves out exactly the default, if the type allows it. */
  lemma {:induction false} ZeroIff(t: LType, v: Val)
    requires Fits(t, v)
    ensures IsZero(t, v) <==> v == Default(t) && Omittable(t)
    decreases t
  {
    if IsZero(t, v) {
      ZeroIsDefault(t, v);
    }
    if t.PbMessage? {
      forall i | 0 <= i < |t.fields| && t.fields[i].htype.Singular?
        ensures IsZero(t.fields[i].ltype, v.slots[i].value) <==>
                v.slots[i].value == Default(t.fields[i].ltype) && Omittable(t.fields[i].ltype) {
        assert SlotFits(t.fields[i], v.slots[i]);
        ZeroIff(t.fields[i].ltype, v.slots[i].value);
      }
      forall i | 0 <= i < |t.fields| && v == Default(t)
        ensures v.slots[i] == DefaultSlot(t.fields[i]) {
      }
    }
  }

  // ---- The wire format -------------------------------------------------------------------------

  const WT_VARINT := 0
  const WT_64BIT := 1
  const WT_STRING := 2
  const WT_32BIT := 5

  function WireType(t: LType): nat {
    match t
    case PbFixed32 => WT_32BIT
    case PbFixed64 => WT_64BIT
    case PbBool => WT_VARINT
    case PbInt(_) => WT_VARINT
    case PbUint(_) => WT_VARINT
    case PbSint(_) => WT_VARINT
    case _ => WT_STRING
  }

  predicate Packable(t: LType) { WireType(t) != WT_STRING }

  /** The 64-bit pattern of a signed number. */
  function Unsign(n: int): nat
    requires Signed(n, W64)
  {
    if n < 0 then n + 0x1_0000_0000_0000_0000 else n
  }

  /** ZigZag: 0, -1, 1, -2, ... become 0, 1, 2, 3, ... */
  function ZigZag(n: int): nat { if n < 0 then -2 * n - 1 else 2 * n }

  /** One (tag, payload) pair of an encoding: a single value or a packed array of field `index`, or something
      that the descriptor does not know. */
  datatype Item = Single(index: nat, value: Val) | Packed(index: nat, values: seq<Val>) | Unknown(number: nat, raw: Raw)

  datatype Raw = RawVarint(n: nat) | Raw64(bytes: Bytes) | RawString(bytes: Bytes) | Raw32(bytes: Bytes)

  /** What a field contributes to the encoding. */
  function FieldItems(i: nat, f: Field, s: Slot): seq<Item>
    requires SlotFits(f, s)
  {
    match s
    case Absent => []
    case Present(v) => if f.htype.Singular? && IsZero(f.ltype, v) then [] else [Single(i, v)]
    case Many(vs) =>
      if vs == [] then [] else if Packable(f.ltype) then [Packed(i, vs)]
      else seq(|vs|, j requires 0 <= j < |vs| => Single(i, vs[j]))
  }

  /** The field has something to say: a value that is there and, without a has_ flag, is not the default; or entries. */
  predicate Contributes(f: Field, s: Slot)
    requires SlotFits(f, s)
  {
    match s
    case Absent => false
    case Present(v) => !(f.htype.Singular? && v == Default(f.ltype) && Omittable(f.ltype))
    case Many(vs) => vs != []
  }

  /** Only then is anything encoded for it, and a value that is there is encoded once. */
  lemma FieldContributes(i: nat, f: Field, s: Slot)
    requires SlotFits(f, s)
    ensures FieldItems(i, f, s) != [] <==> Contributes(f, s)
    ensures Contributes(f, s) && s.Present? ==> FieldItems(i, f, s) == [Single(i, s.value)]
  {
    if s.Present? {
      ZeroIff(f.ltype, s.value);
    }
  }

  /** The items of the first n fields of a message. */
  function Items(t: LType, v: Val, n: nat): seq<Item>
    requires t.PbMessage? && Fits(t, v) && n <= |t.fields|
  {
    if n == 0 then [] else Items(t, v, n - 1) + FieldItems(n - 1, t.fields[n - 1], v.slots[n - 1])
  }

  predicate RawFits(r: Raw) {
    (r.Raw64? ==> |r.bytes| == 8) && (r.Raw32? ==> |r.bytes| == 4)
  }

  function RawWireType(r: Raw): nat {
    match r
    case RawVarint(_) => WT_VARINT
    case Raw64(_) => WT_64BIT
    case RawString(_) => WT_STRING
    case Raw32(_) => WT_32BIT
  }

  function RawBytes(r: Raw): Bytes {
    match r
    case RawVarint(n) => Varint(n)
    case RawString(b) => Varint(|b|) + b
    case _ => r.bytes
  }

  /** The item has values of its field's type, or a tag that no field has. */
  predicate ItemFits(t: LType, x: Item) {
    && t.PbMessage?
    && match x
       case Single(i, v) => i < |t.fields| && Fits(t.fields[i].ltype, v)
       case Packed(i, vs) =>
         && i < |t.fields| && t.fields[i].htype.Repeated? && Packable(t.fields[i].ltype)
         && forall j :: 0 <= j < |vs| ==> Fits(t.fields[i].ltype, vs[j])
       case Unknown(number, raw) =>
         1 <= number < 0x2000_0000 && RawFits(raw) && forall i :: 0 <= i < |t.fields| ==> t.fields[i].tag != number
  }

  predicate Concerns(x: Item, i: nat) { !x.Unknown? && x.index == i }

  lemma {:induction false} ItemsFit(t: LType, v: Val, n: nat)
    requires t.PbMessage? && Fits(t, v) && n <= |t.fields|
    ensures forall j :: 0 <= j < |Items(t, v, n)| ==> ItemFits(t, Items(t, v, n)[j])
  {
    if n > 0 {
      ItemsFit(t, v, n - 1);
      assert SlotFits(t.fields[n - 1], v.slots[n - 1]);
    }
  }

  function TagBytes(tag: nat, wireType: nat): Bytes { Varint(tag * 8 + wireType) }

  /** The payload of one value. */
  function ValBytes(t: LType, v: Val): Bytes
    requires Fits(t, v)
    decreases t, 3, 0
  {
    match t
    case PbBool => Varint(v.n)
    case PbInt(w) => Varint(Unsign(v.n))
    case PbUint(_) => Varint(v.n)
    case PbSint(_) => Varint(ZigZag(v.n))
    case PbFixed32 => Fixed32(v.n)
    case PbFixed64 => Fixed64(v.n)
    case PbMessage(_) => var b := MessageBytes(t, v); Varint(|b|) + b
    case _ => Varint(|v.bytes|) + v.bytes
  }

  /** The encoding of a message. */
  function MessageBytes(t: LType, v: Val): Bytes
    requires t.PbMessage? && Fits(t, v)
    decreases t, 2, 0
  {
    ItemsFit(t, v, |t.fields|);
    ItemsBytes(t, Items(t, v, |t.fields|))
  }

  function ItemsBytes(t: LType, xs: seq<Item>): Bytes
    requires forall j :: 0 <= j < |xs| ==> ItemFits(t, xs[j])
    decreases t, 1, |xs|
  {
    if xs == [] then [] else ItemBytes(t, xs[0]) + ItemsBytes(t, xs[1..])
  }

  function ItemBytes(t: LType, x: Item): Bytes
    requires ItemFits(t, x)
    decreases t, 0, 1
  {
    TagBytes(ItemTag(t, x), ItemWireType(t, x)) + Payload(t, x)
  }

  function ItemTag(t: LType, x: Item): nat
    requires ItemFits(t, x)
  {
    if x.Unknown? then x.number else t.fields[x.index].tag
  }

  function ItemWireType(t: LType, x: Item): (w: nat)
    requires ItemFits(t, x)
    ensures w < 8
  {
    match x
    case Single(i, _) => WireType(t.fields[i].ltype)
    case Packed(_, _) => WT_STRING
    case Unknown(_, raw) => RawWireType(raw)
  }

  function Payload(t: LType, x: Item): Bytes
    requires ItemFits(t, x)
    decreases t, 0, 0
  {
    match x
    case Single(i, v) => ValBytes(t.fields[i].ltype, v)
    case Packed(i, vs) => var b := ValsBytes(t.fields[i].ltype, vs); Varint(|b|) + b
    case Unknown(_, raw) => RawBytes(raw)
  }

  function ValsBytes(t: LType, vs: seq<Val>): Bytes
    requires forall j :: 0 <= j < |vs| ==> Fits(t, vs[j])
    decreases t, 4, |vs|
  {
    if vs == [] then [] else ValBytes(t, vs[0]) + ValsBytes(t, vs[1..])
  }
}
