/** The decoder (pb_decode.c). Message structs are passed in and given back as values. */
module PbDecode {
  import opened DbFormat
  import opened Coding
  import opened PbFormat
  import opened PbFields
  import opened PbStream
  import opened PbMerge
  import PbEncode

  // ---- Safe values -----------------------------------------------------------------------------

  /** The C types and the array and buffer sizes of the struct are respected. */
  ghost predicate Held(t: LType, v: Val) { Fits(t, v) && InLimits(t, v) }

  ghost predicate SlotHeld(f: Field, s: Slot) { SlotFits(f, s) && SlotInLimits(f, s) }

  lemma HeldFits(t: LType, v: Val)
    requires Held(t, v)
    ensures Fits(t, v)
    ensures t.PbMessage? ==> v.Message? && |v.slots| == |t.fields|
  {
  }

  lemma HeldSlot(t: LType, m: Val, i: nat)
    requires t.PbMessage? && Held(t, m) && i < |t.fields|
    ensures m.Message? && |m.slots| == |t.fields| && SlotHeld(t.fields[i], m.slots[i])
    ensures SlotFits(t.fields[i], m.slots[i])
  {
    assert SlotInLimits(t.fields[i], m.slots[i]);
  }

  lemma HeldPut(t: LType, m: Val, i: nat, s: Slot)
    requires t.PbMessage? && Held(t, m) && i < |t.fields| && SlotHeld(t.fields[i], s)
    ensures Fits(t, m) && SlotFits(t.fields[i], s) && Held(t, Put(t, m, i, s))
  {
    forall j | 0 <= j < |t.fields| ensures SlotHeld(t.fields[j], m.slots[j]) {
      HeldSlot(t, m, j);
    }
    assert forall j :: 0 <= j < |t.fields| ==> SlotInLimits(t.fields[j], Put(t, m, i, s).slots[j]);
  }

  lemma {:induction false} HeldDefault(t: LType)
    ensures Held(t, Default(t))
    decreases t
  {
    if t.PbMessage? {
      forall i | 0 <= i < |t.fields| ensures SlotInLimits(t.fields[i], Default(t).slots[i]) {
        HeldDefault(t.fields[i].ltype);
      }
    }
  }

  lemma HeldContents(f: Field, s: Slot)
    requires SlotHeld(f, s)
    ensures SlotFits(f, s) && Held(f.ltype, Contents(f, s))
  {
    HeldDefault(f.ltype);
  }

  // ---- Single values ---------------------------------------------------------------------------

  /** A bit pattern read as two's complement. */
  function AsSigned(bits: nat, w: Width): (n: int)
    requires bits < Modulus(w)
    ensures Signed(n, w)
  {
    if bits >= Modulus(w) / 2 then bits - Modulus(w) else bits
  }

  /** Casting to a signed type of the width. */
  function CastSigned(n: int, w: Width): (r: int)
    ensures Signed(r, w)
    ensures Signed(n, w) ==> r == n
  {
    AsSigned(n % Modulus(w), w)
  }

  lemma NarrowFitsWide(n: int, w: Width)
    requires Signed(n, w)
    ensures Signed(n, W64) && (w != W64 ==> Signed(n, W32))
  {
  }

  /** pb_dec_varint: small fields go through int32_t first. */
  method DecodeInt(s: IStream, w: Width, ghost n: int, ghost rest: Bytes) returns (ok: bool, r: int)
    modifies s
    ensures |s.left| <= |old(s.left)| && (ok ==> Signed(r, w))
    ensures Signed(n, w) && Signed(n, W64) && old(s.left) == Varint(Unsign(n)) + rest ==> ok && r == n && s.left == rest
    ensures match DecodeVarint64(old(s.left))
            case Bad => !ok
            case Parsed(v, left) =>
              var wide := if w == W64 then v else v % 0x1_0000_0000;
              var size := if w == W64 then 0x1_0000_0000_0000_0000 else 0x1_0000_0000;
              var svalue := if wide >= size / 2 then wide - size else wide;
              (ok <==> Signed(svalue, w)) && (ok ==> r == svalue && s.left == left)
  {
    hide Varint, DecodeVarint64, CastSigned, Unsign;
    if Signed(n, W64) {
      UnsignFits(n);
      Varint64RoundTrip(Unsign(n), rest);
    }
    var value;
    ok, value := s.DecodeVarint();
    if !ok {
      return false, 0;
    }
    var svalue := if w == W64 then CastSigned(value, W64) else CastSigned(value, W32);
    WideCast(value, w);
    if Signed(n, w) {
      NarrowFitsWide(n, w);
      CastOfUnsign(n, w);
    }
    r := CastSigned(svalue, w);
    ok := r == svalue;
  }

  lemma UnsignFits(n: int)
    requires Signed(n, W64)
    ensures Unsign(n) < 0x1_0000_0000_0000_0000
  {
  }

  lemma WideCast(v: U64, w: Width)
    ensures var wide := if w == W64 then v else v % 0x1_0000_0000;
            var size := if w == W64 then 0x1_0000_0000_0000_0000 else 0x1_0000_0000;
            CastSigned(v, if w == W64 then W64 else W32) == if wide >= size / 2 then wide - size else wide
  {
  }

  lemma CastOfUnsign(n: int, w: Width)
    requires Signed(n, w) && Signed(n, W64)
    ensures CastSigned(Unsign(n), if w == W64 then W64 else W32) == n
  {
    NarrowFitsWide(n, w);
    if w == W64 {
      assert Unsign(n) % 0x1_0000_0000_0000_0000 == Unsign(n);
    } else if n < 0 {
      assert Unsign(n) == 0xffff_ffff * 0x1_0000_0000 + (n + 0x1_0000_0000);
      assert Unsign(n) % 0x1_0000_0000 == n + 0x1_0000_0000;
    } else {
      assert Unsign(n) % 0x1_0000_0000 == n;
    }
  }

  /** pb_dec_uvarint. */
  method DecodeUint(s: IStream, w: Width, ghost n: int, ghost rest: Bytes) returns (ok: bool, r: int)
    modifies s
    ensures |s.left| <= |old(s.left)| && (ok ==> Unsigned(r, w))
    ensures Unsigned(n, w) && old(s.left) == Varint(n) + rest ==> ok && r == n && s.left == rest
    ensures match DecodeVarint64(old(s.left))
            case Bad => !ok
            case Parsed(v, left) => (ok <==> v < Modulus(w)) && (ok ==> r == v && s.left == left)
  {
    hide Varint, DecodeVarint64;
    if Unsigned(n, w) {
      Varint64RoundTrip(n, rest);
    }
    var value;
    ok, value := s.DecodeVarint();
    if !ok {
      return false, 0;
    }
    r := value % Modulus(w);
    ok := r == value;
  }

  /** pb_dec_svarint: zigzag. */
  method DecodeSint(s: IStream, w: Width, ghost n: int, ghost rest: Bytes) returns (ok: bool, r: int)
    modifies s
    ensures |s.left| <= |old(s.left)| && (ok ==> Signed(r, w))
    ensures Signed(n, w) && old(s.left) == Varint(ZigZag(n)) + rest ==> ok && r == n && s.left == rest
    ensures match DecodeVarint64(old(s.left))
            case Bad => !ok
            case Parsed(v, left) =>
              && (ok ==> v == ZigZag(r) && s.left == left)
              && (!ok ==> forall x :: Signed(x, w) ==> v != ZigZag(x))
  {
    hide Varint, DecodeVarint64, ZigZag;
    if Signed(n, w) {
      NarrowFitsWide(n, w);
      ZigZagFits(n);
      Varint64RoundTrip(ZigZag(n), rest);
    }
    var value;
    ok, value := s.DecodeVarint();
    if !ok {
      return false, 0;
    }
    // ~(value >> 1) or value >> 1
    var half: int := value / 2;
    var svalue := if value % 2 == 1 then -half - 1 else half;
    UnZigZag(value);
    r := CastSigned(svalue, w);
    ok := r == svalue;
  }

  lemma ZigZagFits(n: int)
    requires Signed(n, W64)
    ensures ZigZag(n) < 0x1_0000_0000_0000_0000
  {
  }

  lemma UnZigZag(v: nat)
    ensures var x := if v % 2 == 1 then -(v / 2) - 1 else v / 2;
            ZigZag(x) == v && forall y :: ZigZag(y) == v ==> y == x
  {
  }

  /** pb_dec_bool. */
  method DecodeBool(s: IStream, ghost n: int, ghost rest: Bytes) returns (ok: bool, r: int)
    modifies s
    ensures |s.left| <= |old(s.left)| && 0 <= r <= 1
    ensures 0 <= n <= 1 && old(s.left) == Varint(n) + rest ==> ok && r == n && s.left == rest
    ensures ok <==> IsVarint32(old(s.left))
    ensures ok ==> (r == 0 <==> Varint32Value(old(s.left)) == 0) && s.left == BehindVarint(old(s.left))
  {
    hide IsVarint32, Varint32Value, BehindVarint;
    var value, eof;
    ok, value, eof := s.DecodeVarint32(if n >= 0 then n else 0, rest);
    r := if ok && value != 0 then 1 else 0;
  }

  lemma FixedInvertsDecode32(b: Bytes)
    requires |b| == 4
    ensures Fixed32(DecodeFixed32(b)) == b
  {
    var v := DecodeFixed32(b);
    var high := b[1] as int + b[2] as int * 0x100 + b[3] as int * 0x1_0000;
    var top := b[2] as int + b[3] as int * 0x100;
    assert v == b[0] as int + 0x100 * high && high == b[1] as int + 0x100 * top;
    assert v / 0x100 == high && v / 0x1_0000 == top && v / 0x100_0000 == b[3] as int;
    assert top % 0x100 == b[2] as int && high % 0x100 == b[1] as int;
  }

  lemma FixedInvertsDecode64(b: Bytes)
    requires |b| == 8
    ensures Fixed64(DecodeFixed64(b)) == b
  {
    hide Fixed32, DecodeFixed32;
    DecodePrefix32(b);
    FixedInvertsDecode32(b[..4]);
    FixedInvertsDecode32(b[4..]);
    assert b == b[..4] + b[4..];
  }

  lemma DecodePrefix32(b: Bytes)
    requires |b| >= 4
    ensures DecodeFixed32(b) == DecodeFixed32(b[..4])
  {
  }

  /** pb_dec_fixed32. */
  method DecodeFixed32Field(s: IStream, ghost n: int, ghost rest: Bytes) returns (ok: bool, r: int)
    modifies s
    ensures |s.left| <= |old(s.left)| && Unsigned(r, W32)
    ensures Unsigned(n, W32) && old(s.left) == Fixed32(n) + rest ==> ok && r == n && s.left == rest
    ensures ok <==> |old(s.left)| >= 4
    ensures ok ==> Fixed32(r) + s.left == old(s.left)
  {
    hide Fixed32, DecodeFixed32;
    var bytes;
    ok, bytes := s.Read(4);
    r := if ok then DecodeFixed32(bytes) else 0;
    if ok {
      FixedInvertsDecode32(bytes);
    }
    if Unsigned(n, W32) && old(s.left) == Fixed32(n) + rest {
      assert bytes == Fixed32(n) + [];
      DecodeInvertsFixed32(n, []);
    }
  }

  /** pb_dec_fixed64. */
  method DecodeFixed64Field(s: IStream, ghost n: int, ghost rest: Bytes) returns (ok: bool, r: int)
    modifies s
    ensures |s.left| <= |old(s.left)| && Unsigned(r, W64)
    ensures Unsigned(n, W64) && old(s.left) == Fixed64(n) + rest ==> ok && r == n && s.left == rest
    ensures ok <==> |old(s.left)| >= 8
    ensures ok ==> Fixed64(r) + s.left == old(s.left)
  {
    hide Fixed64, DecodeFixed64;
    var bytes;
    ok, bytes := s.Read(8);
    r := if ok then DecodeFixed64(bytes) else 0;
    if ok {
      FixedInvertsDecode64(bytes);
    }
    if Unsigned(n, W64) && old(s.left) == Fixed64(n) + rest {
      assert bytes == Fixed64(n) + [];
      DecodeInvertsFixed64(n, []);
    }
  }

  /** The size of a byte field and then its bytes, if the size is acceptable. */
  method DecodeSized(s: IStream, max: nat, ghost b: Bytes, ghost rest: Bytes) returns (ok: bool, r: Bytes)
    modifies s
    ensures |s.left| <= |old(s.left)| && (ok ==> |r| <= max)
    ensures old(s.left) == Varint(|b|) + b + rest && |b| < 0x1_0000_0000 ==>
              (ok <==> |b| <= max) && (ok ==> r == b && s.left == rest)
    ensures ok <==> IsSized(old(s.left)) && Varint32Value(old(s.left)) <= max
    ensures ok ==>
              var size, all := Varint32Value(old(s.left)), BehindVarint(old(s.left));
              r == all[..size] && s.left == all[size..]
  {
    hide Varint, IsVarint32, Varint32Value, BehindVarint;
    assert Varint(|b|) + b + rest == Varint(|b|) + (b + rest);
    r := [];
    var size, eof;
    ok, size, eof := s.DecodeVarint32(|b|, b + rest);
    if ok {
      if size > max {
        return false, [];
      }
      ok, r := s.Read(size);
    }
  }

  /** What a C string holds: the bytes before the first NUL. */
  function UpToNul(b: Bytes): (r: Bytes)
    ensures |r| <= |b| && 0 !in r && (0 !in b ==> r == b)
    ensures r <= b && (|r| < |b| ==> b[|r|] == 0)
  {
    if b == [] || b[0] == 0 then [] else [b[0]] + UpToNul(b[1..])
  }

  /** pb_dec_fixed_length_bytes: an empty string stands for zeros. */
  method DecodeFixedBytes(s: IStream, size: nat, ghost b: Bytes, ghost rest: Bytes) returns (ok: bool, r: Bytes)
    modifies s
    ensures |s.left| <= |old(s.left)| && (ok ==> |r| == size)
    ensures old(s.left) == Varint(|b|) + b + rest && |b| < 0x1_0000_0000 && |b| == size ==>
              ok && r == b && s.left == rest
    ensures var left := old(s.left);
            && (ok <==>
                  IsVarint32(left) && (Varint32Value(left) == 0 || (IsSized(left) && Varint32Value(left) == size)))
            && (ok ==>
                  if Varint32Value(left) == 0 then
                    (forall i :: 0 <= i < size ==> r[i] == 0) && s.left == BehindVarint(left)
                  else r == BehindVarint(left)[..size] && s.left == BehindVarint(left)[size..])
  {
    hide Varint, IsVarint32, Varint32Value, BehindVarint;
    assert Varint(|b|) + b + rest == Varint(|b|) + (b + rest);
    r := [];
    var n, eof;
    ok, n, eof := s.DecodeVarint32(|b|, b + rest);
    if ok {
      if n == 0 {
        return true, seq(size, _ => 0);
      }
      if n != size {
        return false, [];
      }
      ok, r := s.Read(size);
    }
  }

  // ---- Values, fields, messages ----------------------------------------------------------------

  /** The stream starts with the encoding of v. */
  ghost predicate Here(t: LType, v: Val, rest: Bytes, left: Bytes)
    ensures Here(t, v, rest, left) ==> Fits(t, v)
  {
    Fits(t, v) && left == ValBytes(t, v) + rest && |left| < 0x1_0000_0000
  }

  /** What is promised about the decoder of a value: anything accepted fits the struct, and an encoded value is
      merged into what was there, exactly if there is room. */
  ghost predicate Decoded(t: LType, v0: Val, v: Val, rest: Bytes, before: Bytes, left: Bytes, ok: bool, r: Val)
    requires Held(t, v0)
  {
    HeldFits(t, v0);
    && |left| <= |before|
    && (ok ==> Held(t, r))
    && (Here(t, v, rest, before) ==> (ok <==> AcceptsVal(t, v0, v)) && (ok ==> r == Merge(t, v0, v) && left == rest))
  }

  /** The field decoders (PB_DECODERS). */
  method DecodeVal(s: IStream, t: LType, v0: Val, ghost v: Val, ghost rest: Bytes) returns (ok: bool, r: Val)
    requires Tagged(t) && Held(t, v0)
    modifies s
    ensures Decoded(t, v0, v, rest, old(s.left), s.left, ok, r)
    decreases t, 3
  {
    if t.PbMessage? {
      ok, r := DecodeSubmessage(s, t, v0, v, rest);
    } else if WireType(t) == WT_STRING {
      ok, r := DecodeBlob(s, t, v0, v, rest);
    } else {
      ok, r := DecodeNumber(s, t, v0, v, rest);
    }
  }

  method DecodeNumber(s: IStream, t: LType, v0: Val, ghost v: Val, ghost rest: Bytes) returns (ok: bool, r: Val)
    requires Held(t, v0) && Packable(t)
    modifies s
    ensures Decoded(t, v0, v, rest, old(s.left), s.left, ok, r)
  {
    hide Varint, Fixed32, Fixed64, Unsign, ZigZag, DecodeVarint64, IsVarint32, Varint32Value, BehindVarint;
    ghost var n := if v.Num? then v.n else 0;
    var x;
    match t {
      case PbBool => ok, x := DecodeBool(s, n, rest);
      case PbInt(w) => ok, x := DecodeInt(s, w, n, rest);
      case PbUint(w) => ok, x := DecodeUint(s, w, n, rest);
      case PbSint(w) => ok, x := DecodeSint(s, w, n, rest);
      case PbFixed32 => ok, x := DecodeFixed32Field(s, n, rest);
      case PbFixed64 => ok, x := DecodeFixed64Field(s, n, rest);
    }
    r := Num(x);
  }

  method DecodeBlob(s: IStream, t: LType, v0: Val, ghost v: Val, ghost rest: Bytes) returns (ok: bool, r: Val)
    requires Held(t, v0) && WireType(t) == WT_STRING && !t.PbMessage?
    modifies s
    ensures Decoded(t, v0, v, rest, old(s.left), s.left, ok, r)
  {
    hide Varint, IsSized, IsVarint32, Varint32Value, BehindVarint;
    ghost var b := if v.Blob? then v.bytes else [];
    var x;
    match t {
      case PbBytes(max) =>
        ok, x := DecodeSized(s, max, b, rest);
      case PbText(max) =>
        ok, x := DecodeSized(s, max, b, rest);
        x := UpToNul(x);
      case PbFixedBytes(size) =>
        ok, x := DecodeFixedBytes(s, size, b, rest);
    }
    r := Blob(x);
  }

  /** pb_dec_submessage. A new array entry starts from the defaults, anything else from what is there; the
      caller passes which. */
  method DecodeSubmessage(s: IStream, t: LType, v0: Val, ghost v: Val, ghost rest: Bytes) returns (ok: bool, r: Val)
    requires t.PbMessage? && Tagged(t) && Held(t, v0)
    modifies s
    ensures Decoded(t, v0, v, rest, old(s.left), s.left, ok, r)
    decreases t, 2
  {
    hide Varint, Held, Fits, InLimits, ItemsBytes, ApplyAll, AcceptsAll, Tagged;
    HeldFits(t, v0);
    ghost var isHere := Here(t, v, rest, s.left);
    ghost var xs: seq<Item>, b: Bytes := [], [];
    if isHere {
      ItemsFit(t, v, |t.fields|);
      xs, b := Items(t, v, |t.fields|), MessageBytes(t, v);
      MessageHasRequired(t, v);
    }
    var sub;
    ok, sub := s.MakeSubstream(b, rest);
    r := v0;
    if ok {
      ok, r := DecodeNoinit(sub, t, v0, xs);
    }
  }

  ghost predicate HereAll(t: LType, xs: seq<Item>, left: Bytes)
    ensures HereAll(t, xs, left) ==> forall j :: 0 <= j < |xs| ==> ItemFits(t, xs[j])
  {
    (forall j :: 0 <= j < |xs| ==> ItemFits(t, xs[j])) && left == ItemsBytes(t, xs) && |left| < 0x1_0000_0000
  }

  /** The stream starts with the payload of an item of field i. */
  ghost predicate HereItem(t: LType, x: Item, i: nat, wireType: nat, rest: Bytes, left: Bytes)
    ensures HereItem(t, x, i, wireType, rest, left) ==> ItemFits(t, x)
  {
    && ItemFits(t, x) && Concerns(x, i) && wireType == ItemWireType(t, x)
    && left == Payload(t, x) + rest && |left| < 0x1_0000_0000
  }

  /** The same promise for one item. */
  ghost predicate DecodedItem(t: LType, m: Val, x: Item, i: nat, wireType: nat, rest: Bytes, before: Bytes, left: Bytes,
                              ok: bool, r: Val)
    requires t.PbMessage? && Held(t, m)
  {
    HeldFits(t, m);
    && |left| <= |before|
    && (ok ==> Held(t, r))
    && (HereItem(t, x, i, wireType, rest, before) ==>
          (ok <==> Accepts(t, m, x)) && (ok ==> r == Apply(t, m, x) && left == rest))
  }

  /** decode_static_field: the has_ flag, the which_ tag and the count are set through the new slot. */
  method DecodeField(s: IStream, t: LType, i: nat, wireType: nat, m: Val, ghost x: Item, ghost rest: Bytes)
    returns (ok: bool, r: Val)
    requires t.PbMessage? && Tagged(t) && Held(t, m) && i < |t.fields|
    modifies s
    ensures DecodedItem(t, m, x, i, wireType, rest, old(s.left), s.left, ok, r)
    ensures ok && HereItem(t, x, i, wireType, rest, old(s.left)) ==> Fits(t, m) && Fits(t, r) && ItemEffect(t, m, x, r)
    decreases t, 0, 2
  {
    if HereItem(t, x, i, wireType, rest, s.left) {
      HeldFits(t, m);
      ApplyLaw(t, m, x);
    }
    hide ItemEffect, Varint, Held, Fits, InLimits, Put, Merge, AcceptsVal, Default, ValBytes, Tagged, Contents,
      SlotFits, SlotInLimits, Accepts, Apply, HereItem, Here;
    var f := t.fields[i];
    HeldSlot(t, m, i);
    HeldFits(t, m);
    if f.htype.Repeated? {
      if wireType == WT_STRING && Packable(f.ltype) {
        ok, r := DecodePacked(s, t, i, m, x, rest);
      } else {
        ok, r := DecodeEntry(s, t, i, wireType, m, x, rest);
      }
    } else {
      HeldContents(f, m.slots[i]);
      TaggedField(t, i);
      if HereItem(t, x, i, wireType, rest, s.left) {
        ItemIsSingle(t, m, x, i, wireType, rest, s.left);
      }
      var v;
      ok, v := DecodeVal(s, f.ltype, Contents(f, m.slots[i]), if x.Single? then x.value else Num(0), rest);
      r := m;
      if ok {
        HeldPresent(f, v);
        HeldPut(t, m, i, Present(v));
        r := Put(t, m, i, Present(v));
      }
    }
  }

  lemma ItemIsSingle(t: LType, m: Val, x: Item, i: nat, wireType: nat, rest: Bytes, left: Bytes)
    requires t.PbMessage? && Held(t, m) && i < |t.fields| && HereItem(t, x, i, wireType, rest, left)
    requires !t.fields[i].htype.Repeated?
    ensures x.Single? && Here(t.fields[i].ltype, x.value, rest, left)
    ensures Fits(t, m) && SlotFits(t.fields[i], m.slots[i])
    ensures Accepts(t, m, x) <==> AcceptsVal(t.fields[i].ltype, Contents(t.fields[i], m.slots[i]), x.value)
    ensures SlotFits(t.fields[i], Present(Merge(t.fields[i].ltype, Contents(t.fields[i], m.slots[i]), x.value)))
    ensures Apply(t, m, x) ==
              Put(t, m, i, Present(Merge(t.fields[i].ltype, Contents(t.fields[i], m.slots[i]), x.value)))
  {
    hide Put, Merge, AcceptsVal, ValBytes, Contents;
    HeldSlot(t, m, i);
  }

  lemma TaggedField(t: LType, i: nat)
    requires t.PbMessage? && Tagged(t) && i < |t.fields|
    ensures Tagged(t.fields[i].ltype)
  {
  }

  lemma HeldPresent(f: Field, v: Val)
    requires Held(f.ltype, v) && !f.htype.Repeated?
    ensures SlotHeld(f, Present(v))
  {
  }

  lemma HeldAppend(f: Field, vs: seq<Val>, v: Val)
    requires SlotHeld(f, Many(vs)) && f.htype.Repeated? && |vs| < f.htype.max && Held(f.ltype, v)
    ensures SlotHeld(f, Many(vs + [v]))
  {
    hide Fits, InLimits;
  }

  lemma ItemIsEntry(t: LType, m: Val, x: Item, i: nat, wireType: nat, rest: Bytes, left: Bytes)
    requires t.PbMessage? && Held(t, m) && i < |t.fields| && HereItem(t, x, i, wireType, rest, left)
    requires t.fields[i].htype.Repeated? && !(wireType == WT_STRING && Packable(t.fields[i].ltype))
    ensures x.Single? && Here(t.fields[i].ltype, x.value, rest, left)
    ensures Fits(t, m) && SlotFits(t.fields[i], m.slots[i])
    ensures Accepts(t, m, x) <==>
              |m.slots[i].values| < t.fields[i].htype.max
                && AcceptsVal(t.fields[i].ltype, Default(t.fields[i].ltype), x.value)
    ensures var s := Many(m.slots[i].values + [Merge(t.fields[i].ltype, Default(t.fields[i].ltype), x.value)]);
            SlotFits(t.fields[i], s) && Apply(t, m, x) == Put(t, m, i, s)
  {
    hide Put, Merge, AcceptsVal, ValBytes, Default;
    HeldSlot(t, m, i);
  }

  /** One more entry of an array, behind a tag of its own. */
  method DecodeEntry(s: IStream, t: LType, i: nat, wireType: nat, m: Val, ghost x: Item, ghost rest: Bytes)
    returns (ok: bool, r: Val)
    requires t.PbMessage? && Tagged(t) && Held(t, m) && i < |t.fields|
    requires t.fields[i].htype.Repeated? && !(wireType == WT_STRING && Packable(t.fields[i].ltype))
    modifies s
    ensures DecodedItem(t, m, x, i, wireType, rest, old(s.left), s.left, ok, r)
    decreases t, 0, 0
  {
    hide Held, Fits, InLimits, Put, Merge, AcceptsVal, Default, ValBytes, Tagged, SlotFits, SlotInLimits, Accepts,
      Apply, HereItem, Here, SlotHeld;
    var f := t.fields[i];
    HeldSlot(t, m, i);
    HeldFits(t, m);
    RepeatedIsMany(f, m.slots[i]);
    if HereItem(t, x, i, wireType, rest, s.left) {
      ItemIsEntry(t, m, x, i, wireType, rest, s.left);
    }
    r := m;
    if |m.slots[i].values| >= f.htype.max {
      return false, r;
    }
    HeldDefault(f.ltype);
    TaggedField(t, i);
    var v;
    ok, v := DecodeVal(s, f.ltype, Default(f.ltype), if x.Single? then x.value else Num(0), rest);
    if ok {
      HeldAppend(f, m.slots[i].values, v);
      HeldPut(t, m, i, Many(m.slots[i].values + [v]));
      r := Put(t, m, i, Many(m.slots[i].values + [v]));
    }
  }

  lemma RepeatedIsMany(f: Field, s: Slot)
    requires SlotFits(f, s) && f.htype.Repeated?
    ensures s.Many?
  {
  }

  lemma ItemIsPacked(t: LType, m: Val, x: Item, i: nat, rest: Bytes, left: Bytes)
    requires t.PbMessage? && Held(t, m) && i < |t.fields| && HereItem(t, x, i, WT_STRING, rest, left)
    requires t.fields[i].htype.Repeated? && Packable(t.fields[i].ltype)
    ensures x.Packed? && forall j :: 0 <= j < |x.values| ==> Fits(t.fields[i].ltype, x.values[j])
    ensures var b := ValsBytes(t.fields[i].ltype, x.values); left == Varint(|b|) + b + rest && |b| < 0x1_0000_0000
    ensures Fits(t, m) && SlotFits(t.fields[i], m.slots[i])
    ensures Accepts(t, m, x) <==> |m.slots[i].values| + |x.values| <= t.fields[i].htype.max
    ensures var s := Many(m.slots[i].values + x.values); SlotFits(t.fields[i], s) && Apply(t, m, x) == Put(t, m, i, s)
  {
    hide Put, ValsBytes, Varint;
    HeldSlot(t, m, i);
  }

  lemma ValBytesNonEmpty(t: LType, v: Val)
    requires Fits(t, v) && Packable(t)
    ensures ValBytes(t, v) != []
  {
    hide Varint, Fixed32, Fixed64;
  }

  /** The k-th number of a packed array is next. */
  lemma NextNumber(t: LType, vs: seq<Val>, k: nat)
    requires Packable(t) && k <= |vs| && forall j :: 0 <= j < |vs| ==> Fits(t, vs[j])
    ensures k == |vs| ==> ValsBytes(t, vs[k..]) == []
    ensures k < |vs| ==>
              && ValsBytes(t, vs[k..]) == ValBytes(t, vs[k]) + ValsBytes(t, vs[k + 1..]) && ValsBytes(t, vs[k..]) != []
              && AcceptsVal(t, Default(t), vs[k]) && Merge(t, Default(t), vs[k]) == vs[k]
  {
    hide Fits, ValBytes;
    if k < |vs| {
      ValBytesNonEmpty(t, vs[k]);
      assert vs[k..][1..] == vs[k + 1..];
    }
  }

  /** The entries of a packed array, through a substream: it must end where the array is full at the latest. */
  method DecodePacked(s: IStream, t: LType, i: nat, m: Val, ghost x: Item, ghost rest: Bytes) returns (ok: bool, r: Val)
    requires t.PbMessage? && Tagged(t) && Held(t, m) && i < |t.fields|
    requires t.fields[i].htype.Repeated? && Packable(t.fields[i].ltype)
    modifies s
    ensures DecodedItem(t, m, x, i, WT_STRING, rest, old(s.left), s.left, ok, r)
    decreases t, 0, 0
  {
    hide Held, Fits, InLimits, Put, Merge, AcceptsVal, Default, ValBytes, ValsBytes, Tagged, SlotFits, SlotInLimits,
      Accepts, Apply, HereItem, SlotHeld, Varint, IsSized, Varint32Value, BehindVarint;
    var f := t.fields[i];
    HeldSlot(t, m, i);
    HeldFits(t, m);
    RepeatedIsMany(f, m.slots[i]);
    var values := m.slots[i].values;
    ghost var isHere, vs, b: Bytes, k: nat := HereItem(t, x, i, WT_STRING, rest, s.left), [], [], 0;
    if isHere {
      ItemIsPacked(t, m, x, i, rest, s.left);
      vs, b := x.values, ValsBytes(f.ltype, x.values);
      assert vs[0..] == vs;
    }
    r := m;
    var sub;
    ok, sub := s.MakeSubstream(b, rest);
    if !ok {
      return;
    }
    HeldDefault(f.ltype);
    TaggedField(t, i);
    var status := true;
    while status && sub.left != [] && |values| < f.htype.max
      invariant SlotHeld(f, Many(values))
      invariant isHere ==> status && k <= |vs| && values == m.slots[i].values + vs[..k]
      invariant isHere ==> sub.left == ValsBytes(f.ltype, vs[k..]) && |sub.left| < 0x1_0000_0000
      modifies sub
      decreases status, f.htype.max - |values|
    {
      ghost var v0, rest0: Bytes := Num(0), [];
      if isHere {
        NextNumber(f.ltype, vs, k);
        v0, rest0 := vs[k], ValsBytes(f.ltype, vs[k + 1..]);
      }
      var v;
      status, v := DecodeVal(sub, f.ltype, Default(f.ltype), v0, rest0);
      if status {
        HeldAppend(f, values, v);
        values := values + [v];
        k := k + 1;
      }
    }
    if isHere {
      NextNumber(f.ltype, vs, k);
      HeldFull(f, values);
    }
    if sub.left != [] {
      assert isHere ==> k < |vs| && |values| == |m.slots[i].values| + k;
      return false, r;
    }
    ok := status;
    if isHere {
      assert vs[..|vs|] == vs;
    }
    if ok {
      HeldPut(t, m, i, Many(values));
      r := Put(t, m, i, Many(values));
    }
  }

  lemma HeldFull(f: Field, vs: seq<Val>)
    requires SlotHeld(f, Many(vs)) && f.htype.Repeated?
    ensures |vs| <= f.htype.max
  {
  }

  // ---- The loop over the fields ----------------------------------------------------------------

  /** The first of the items is next on the stream. */
  lemma FirstItem(t: LType, xs: seq<Item>, left: Bytes)
    requires HereAll(t, xs, left)
    ensures left == [] <==> xs == []
    ensures xs != [] ==>
              && left ==
                   TagBytes(ItemTag(t, xs[0]), ItemWireType(t, xs[0])) + (Payload(t, xs[0]) + ItemsBytes(t, xs[1..]))
              && HereAll(t, xs[1..], ItemsBytes(t, xs[1..]))
  {
    hide ItemFits, Payload, Varint;
    if xs != [] {
      assert ItemFits(t, xs[0]);
      var tag := TagBytes(ItemTag(t, xs[0]), ItemWireType(t, xs[0]));
      assert left == ItemBytes(t, xs[0]) + ItemsBytes(t, xs[1..]);
      assert tag != [] && left == tag + Payload(t, xs[0]) + ItemsBytes(t, xs[1..]);
      assert left == tag + (Payload(t, xs[0]) + ItemsBytes(t, xs[1..]));
    }
  }

  lemma GoodTag(t: LType, x: Item)
    requires t.PbMessage? && Tagged(t) && ItemFits(t, x)
    ensures 0 < ItemTag(t, x) < 0x2000_0000
    ensures x.Unknown? ==> forall i :: 0 <= i < |t.fields| ==> t.fields[i].tag != ItemTag(t, x)
    ensures !x.Unknown? ==> x.index < |t.fields| && t.fields[x.index].tag == ItemTag(t, x)
    ensures !x.Unknown? ==> forall i :: 0 <= i < |t.fields| && t.fields[i].tag == ItemTag(t, x) ==> i == x.index
  {
  }

  lemma DistinctRequired(fields: seq<Field>, i: nat, j: nat)
    requires i < |fields| && j < |fields| && fields[i].htype.Required? && fields[j].htype.Required?
    requires RequiredBefore(fields, i) == RequiredBefore(fields, j)
    ensures i == j
  {
    if i < j {
      RequiredBeforeMonotone(fields, i, j);
    } else {
      RequiredBeforeMonotone(fields, j, i);
    }
  }

  /** The bits of the required fields that have been decoded, and no others. */
  ghost predicate Bits(fields: seq<Field>, seen: SeenBits, done: seq<Item>)
    requires seen.Valid()
    reads seen
  {
    forall i :: 0 <= i < |fields| && Checked(fields, i) ==>
      (seen.Has(RequiredBefore(fields, i)) <==> exists j :: 0 <= j < |done| && Concerns(done[j], i))
  }

  ghost predicate BitsInRange(fields: seq<Field>, seen: SeenBits)
    requires seen.Valid()
    reads seen
  {
    forall k: nat :: seen.Has(k) ==> k < RequiredBefore(fields, |fields|)
  }

  /** The bit of the field, if it is required, among the first 64. */
  method MarkSeen(fields: seq<Field>, iter: FieldIter, seen: SeenBits, ghost done: seq<Item>)
    requires iter.Valid() && iter.fields == fields && iter.pos < |fields| && seen.Valid() && BitsInRange(fields, seen)
    modifies seen
    ensures seen.Valid() && BitsInRange(fields, seen)
    ensures forall x: Item :: old(Bits(fields, seen, done)) && Concerns(x, iter.pos) ==> Bits(fields, seen, done + [x])
  {
    hide RequiredBefore;
    if fields[iter.pos].htype.Required? {
      RequiredBeforeMonotone(fields, iter.pos, |fields|);
      seen.Mark(iter.requiredIndex);
    }
    forall x: Item | old(Bits(fields, seen, done)) && Concerns(x, iter.pos) ensures Bits(fields, seen, done + [x]) {
      forall i | 0 <= i < |fields| && Checked(fields, i)
        ensures seen.Has(RequiredBefore(fields, i)) <==>
                  exists j :: 0 <= j < |done + [x]| && Concerns((done + [x])[j], i)
      {
        if fields[iter.pos].htype.Required? && RequiredBefore(fields, iter.pos) == RequiredBefore(fields, i) {
          DistinctRequired(fields, iter.pos, i);
        }
        if i == iter.pos {
          assert Concerns((done + [x])[|done|], i);
        } else if exists j :: 0 <= j < |done| && Concerns(done[j], i) {
          var j :| 0 <= j < |done| && Concerns(done[j], i);
          assert Concerns((done + [x])[j], i);
        }
      }
    }
  }

  lemma BitsUnknown(fields: seq<Field>, seen: SeenBits, done: seq<Item>, x: Item)
    requires seen.Valid() && Bits(fields, seen, done) && x.Unknown?
    ensures Bits(fields, seen, done + [x])
  {
    forall i | 0 <= i < |fields| && Checked(fields, i)
      ensures seen.Has(RequiredBefore(fields, i)) <==> exists j :: 0 <= j < |done + [x]| && Concerns((done + [x])[j], i)
    {
      if exists j :: 0 <= j < |done| && Concerns(done[j], i) {
        var j :| 0 <= j < |done| && Concerns(done[j], i);
        assert Concerns((done + [x])[j], i);
      }
    }
  }

  /** All bits are there if and only if every required field among the first 64 is. */
  lemma AllBits(t: LType, seen: SeenBits, xs: seq<Item>)
    requires t.PbMessage? && seen.Valid() && Bits(t.fields, seen, xs)
    ensures RequiredSeen(t, xs) <==> seen.HasAll(RequiredBefore(t.fields, |t.fields|))
  {
    hide RequiredBefore;
    var fields := t.fields;
    if RequiredSeen(t, xs) {
      forall k: nat | k < RequiredBefore(fields, |fields|) && k < MAX_REQUIRED_FIELDS ensures seen.Has(k) {
        var i := RequiredAt(fields, k, |fields|);
        assert Checked(fields, i);
      }
    } else {
      var i :| 0 <= i < |fields| && Checked(fields, i) && !exists j :: 0 <= j < |xs| && Concerns(xs[j], i);
      RequiredBeforeMonotone(fields, i, |fields|);
      assert !seen.Has(RequiredBefore(fields, i));
    }
  }

  /** One round of the loop: a tag and the field behind it. */
  method DecodeOne(s: IStream, t: LType, iter: FieldIter, seen: SeenBits, m: Val, ghost done: seq<Item>,
                   ghost xs: seq<Item>)
    returns (ok: bool, eof: bool, r: Val)
    requires t.PbMessage? && Tagged(t) && Held(t, m) && s.left != []
    requires iter.Valid() && iter.fields == t.fields && seen.Valid() && BitsInRange(t.fields, seen)
    modifies s, iter, seen
    ensures iter.Valid() && seen.Valid() && BitsInRange(t.fields, seen)
    ensures |s.left| <= |old(s.left)| && (ok ==> |s.left| < |old(s.left)|)
    ensures ok ==> Held(t, r) && !eof
    ensures Fits(t, m)
    ensures HereAll(t, xs, old(s.left)) && old(Bits(t.fields, seen, done)) ==>
              && xs != []
              && (!ok ==> !eof) && (ok <==> Accepts(t, m, xs[0]))
              && (ok ==> r == Apply(t, m, xs[0]) && HereAll(t, xs[1..], s.left) && Bits(t.fields, seen, done + [xs[0]]))
    decreases t, 0, 3
  {
    hide Held, Fits, ItemFits, InLimits, Tagged, Varint, Payload, Bits, BitsInRange, ItemsBytes, Accepts, Apply,
      ItemEffect, IsVarint32, Varint32Value, IsSized, BehindVarint, VarintEnd;
    HeldFits(t, m);
    r := m;
    ghost var isHere := HereAll(t, xs, s.left) && Bits(t.fields, seen, done);
    ghost var x, rest: Bytes := Unknown(0, RawVarint(0)), [];
    if isHere {
      FirstItem(t, xs, s.left);
      x, rest := xs[0], ItemsBytes(t, xs[1..]);
      GoodTag(t, x);
    }
    var wireType, tag;
    ok, wireType, tag, eof := s.DecodeTag(if isHere then ItemTag(t, x) else 0, if isHere then ItemWireType(t, x) else 0,
                                          if isHere then Payload(t, x) + rest else []);
    if !ok {
      return;
    }
    eof := false;
    var found := iter.Find(tag);
    if !found {
      ghost var raw := RawVarint(0);
      if isHere {
        UnknownItem(t, m, x);
        BitsUnknown(t.fields, seen, done, x);
        raw := x.raw;
      }
      ok := s.SkipField(wireType, raw, rest);
      return;
    }
    MarkSeen(t.fields, iter, seen, done);
    ok, r := DecodeField(s, t, iter.pos, wireType, m, x, rest);
  }

  lemma UnknownItem(t: LType, m: Val, x: Item)
    requires t.PbMessage? && Held(t, m) && ItemFits(t, x) && x.Unknown?
    ensures Fits(t, m) && Accepts(t, m, x) && Apply(t, m, x) == m
    ensures RawFits(x.raw) && ItemWireType(t, x) == RawWireType(x.raw) && Payload(t, x) == RawBytes(x.raw)
  {
  }

  /** pb_decode_noinit: on the encoding of any items, in any order and with repetitions, it succeeds exactly if
      there is room for each and the required fields are there, and then the message has the items applied in
      turn. */
  method DecodeNoinit(s: IStream, t: LType, m0: Val, ghost xs: seq<Item>) returns (ok: bool, m: Val)
    requires t.PbMessage? && Tagged(t) && Held(t, m0)
    modifies s
    ensures ok ==> Held(t, m)
    ensures Fits(t, m0)
    ensures HereAll(t, xs, old(s.left)) ==>
              (ok <==> AcceptsAll(t, m0, xs) && RequiredSeen(t, xs)) && (ok ==> m == ApplyAll(t, m0, xs))
    decreases t, 1
  {
    hide Held, Fits, HereAll, InLimits, Tagged, Bits, BitsInRange, Accepts, Apply, RequiredSeen, RequiredBefore;
    HeldFits(t, m0);
    m := m0;
    var iter := new FieldIter(t.fields);
    var seen := new SeenBits();
    NoBits(t.fields, seen);
    ghost var isHere, k: nat := HereAll(t, xs, s.left), 0;
    assert xs[0..] == xs;
    var eof := false;
    while s.left != [] && !eof
      invariant iter.Valid() && iter.fields == t.fields && seen.Valid() && BitsInRange(t.fields, seen)
      invariant Held(t, m) && Fits(t, m)
      invariant k <= |xs|
      invariant isHere ==> !eof && HereAll(t, xs[k..], s.left) && Bits(t.fields, seen, xs[..k])
      invariant isHere ==> ApplyAll(t, m, xs[k..]) == ApplyAll(t, m0, xs)
      invariant isHere ==> (AcceptsAll(t, m, xs[k..]) <==> AcceptsAll(t, m0, xs))
      decreases |s.left|, !eof
    {
      var r;
      ok, eof, r := DecodeOne(s, t, iter, seen, m, xs[..k], xs[k..]);
      if !ok && !eof {
        return false, m;
      }
      if ok {
        HeldFits(t, r);
        m := r;
        if isHere {
          assert xs[k..][1..] == xs[k + 1..] && xs[..k] + [xs[k]] == xs[..k + 1];
          k := k + 1;
        }
      }
    }
    if isHere {
      FirstItem(t, xs[k..], s.left);
      assert xs[k..] == [] && xs[..k] == xs;
      NothingToApply(t, m);
    }
    RangeMeans(t.fields, seen);
    var count := CountRequired(iter);
    if isHere {
      AllBits(t, seen, xs);
    }
    ok := seen.AllSeen(count);
  }

  lemma NoBits(fields: seq<Field>, seen: SeenBits)
    requires seen.Valid() && forall k: nat :: !seen.Has(k)
    ensures BitsInRange(fields, seen) && Bits(fields, seen, [])
  {
  }

  lemma RangeMeans(fields: seq<Field>, seen: SeenBits)
    requires seen.Valid() && BitsInRange(fields, seen)
    ensures forall k: nat :: seen.Has(k) ==> k < RequiredBefore(fields, |fields|)
  {
  }

  /** pb_decode: defaults first. */
  method Decode(bytes: Bytes, t: LType, ghost xs: seq<Item>) returns (ok: bool, m: Val)
    requires t.PbMessage? && Tagged(t)
    ensures ok ==> Held(t, m)
    ensures HereAll(t, xs, bytes) ==>
              (ok <==> AcceptsAll(t, Default(t), xs) && RequiredSeen(t, xs))
                && (ok ==> m == ApplyAll(t, Default(t), xs))
  {
    HeldDefault(t);
    var s := new IStream(bytes);
    ok, m := DecodeNoinit(s, t, Default(t), xs);
  }

  // ---- Round trips -----------------------------------------------------------------------------

  /** Encoding a message and decoding the bytes gives the message back. */
  method RoundTrip(t: LType, v: Val) returns (ok: bool, r: Val)
    requires t.PbMessage? && Tagged(t) && Fits(t, v) && |MessageBytes(t, v)| < 0x1_0000_0000
    ensures ok <==> InLimits(t, v)
    ensures ok ==> r == v
  {
    hide Fits, InLimits, MessageBytes, Tagged;
    var size, bytes;
    r := Default(t);
    ok, size := PbEncode.EncodedSize(t, v);
    if ok {
      ok, bytes := PbEncode.EncodeToBuffer(t, v, size);
      ghost var xs := Items(t, v, |t.fields|);
      EncodingHere(t, v);
      ok, r := Decode(bytes, t, xs);
    }
  }

  /** Decoding the encodings of two messages one after the other merges the second into the first. */
  method DecodeConcatenation(t: LType, a: Val, b: Val) returns (ok: bool, r: Val)
    requires t.PbMessage? && Tagged(t) && Fits(t, a) && Fits(t, b) && InLimits(t, a)
    requires |MessageBytes(t, a)| + |MessageBytes(t, b)| < 0x1_0000_0000
    ensures ok <==> InLimits(t, Merge(t, a, b))
    ensures ok ==> r == Merge(t, a, b)
    ensures ok ==> forall i :: 0 <= i < |t.fields| ==> r.slots[i] == MergedSlot(t, a, b, |t.fields|, i)
  {
    hide Fits, InLimits, MessageBytes, Tagged, AcceptsAll, AcceptsVal, ApplyAll, Merge, MergedSlot;
    MergeLaw(t, a, b);
    if InLimits(t, Merge(t, a, b)) {
      MergeLimits(t, a, b);
    }
    var first, second;
    r := Default(t);
    ok, first := PbEncode.EncodeToBuffer(t, a, 0xffff_ffff);
    ok, second := PbEncode.EncodeToBuffer(t, b, 0xffff_ffff);
    if ok {
      BothHere(t, a, b);
      ok, r := Decode(first + second, t, Items(t, a, |t.fields|) + Items(t, b, |t.fields|));
    }
  }

  lemma BothHere(t: LType, a: Val, b: Val)
    requires t.PbMessage? && Fits(t, a) && Fits(t, b) && InLimits(t, a)
    requires |MessageBytes(t, a)| + |MessageBytes(t, b)| < 0x1_0000_0000
    ensures var xs := Items(t, a, |t.fields|) + Items(t, b, |t.fields|);
            && HereAll(t, xs, MessageBytes(t, a) + MessageBytes(t, b)) && RequiredSeen(t, xs)
            && (AcceptsAll(t, Default(t), xs) <==> AcceptsVal(t, a, b))
            && ApplyAll(t, Default(t), xs) == Merge(t, a, b)
  {
    hide Fits, InLimits, ApplyAll, AcceptsAll, ItemsBytes, Checked;
    var n := |t.fields|;
    var xs, ys := Items(t, a, n), Items(t, b, n);
    EncodingHere(t, a);
    ItemsFit(t, b, n);
    PbEncode.ItemsBytesAppend(t, xs, ys);
    ApplyAllAppend(t, Default(t), xs, ys);
    forall i | 0 <= i < n && Checked(t.fields, i) ensures exists j :: 0 <= j < |xs + ys| && Concerns((xs + ys)[j], i) {
      var j :| 0 <= j < |xs| && Concerns(xs[j], i);
      assert Concerns((xs + ys)[j], i);
    }
  }

  lemma EncodingHere(t: LType, v: Val)
    requires t.PbMessage? && Fits(t, v) && InLimits(t, v) && |MessageBytes(t, v)| < 0x1_0000_0000
    ensures HereAll(t, Items(t, v, |t.fields|), MessageBytes(t, v)) && RequiredSeen(t, Items(t, v, |t.fields|))
    ensures AcceptsAll(t, Default(t), Items(t, v, |t.fields|))
    ensures ApplyAll(t, Default(t), Items(t, v, |t.fields|)) == v
  {
    hide Fits, InLimits, ApplyAll, AcceptsAll, ItemsBytes, RequiredSeen;
    ItemsFit(t, v, |t.fields|);
    MergeIntoDefault(t, v);
    MessageHasRequired(t, v);
  }
}
