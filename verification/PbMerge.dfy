/** What a decoder makes of a sequence of items: the last value of a field wins, arrays grow, submessages
    merge (section "Last One Wins" of the Protocol Buffers "Encoding" specification). */
module PbMerge {
  import opened DbFormat
  import opened Coding
  import opened PbFormat
  import opened PbFields
  import opened PbEncode

  /** Tags are distinct and leave room for the wire type in 32 bits, in nested messages too. */
  predicate Tagged(t: LType) {
    t.PbMessage? ==>
      && (forall i :: 0 <= i < |t.fields| ==> 1 <= t.fields[i].tag < 0x2000_0000 && Tagged(t.fields[i].ltype))
      && (forall i, j :: 0 <= i < j < |t.fields| ==> t.fields[i].tag != t.fields[j].tag)
  }

  /** The contents that a new value of the field is decoded into. */
  function Contents(f: Field, s: Slot): (r: Val)
    requires SlotFits(f, s)
    ensures Fits(f.ltype, r)
  {
    if s.Present? then s.value else Default(f.ltype)
  }

  /** The message with slot i set; the other fields of its union go away. */
  function Put(t: LType, m: Val, i: nat, s: Slot): (r: Val)
    requires t.PbMessage? && Fits(t, m) && i < |t.fields| && SlotFits(t.fields[i], s)
    ensures Fits(t, r)
  {
    var r := Message(seq(|t.fields|, j requires 0 <= j < |t.fields| =>
      if j == i then s else if SameUnion(t.fields[i], t.fields[j]) then Absent else m.slots[j]));
    assert forall j :: 0 <= j < |t.fields| ==> SlotFits(t.fields[j], m.slots[j]);
    assert OneAtATime(t.fields, r.slots);
    r
  }

  /** Decoding v into v0. */
  function Merge(t: LType, v0: Val, v: Val): (r: Val)
    requires Fits(t, v0) && Fits(t, v)
    ensures Fits(t, r)
    decreases t, 2, 0
  {
    if t.PbMessage? then
      ItemsFit(t, v, |t.fields|);
      ApplyAll(t, v0, Items(t, v, |t.fields|))
    else v
  }

  function ApplyAll(t: LType, m: Val, xs: seq<Item>): (r: Val)
    requires t.PbMessage? && Fits(t, m) && forall j :: 0 <= j < |xs| ==> ItemFits(t, xs[j])
    ensures Fits(t, r)
    decreases t, 1, |xs|
  {
    if xs == [] then m else ApplyAll(t, Apply(t, m, xs[0]), xs[1..])
  }

  function Apply(t: LType, m: Val, x: Item): (r: Val)
    requires t.PbMessage? && Fits(t, m) && ItemFits(t, x)
    ensures Fits(t, r)
    decreases t, 0, 1
  {
    if x.Unknown? then m
    else
      var f := t.fields[x.index];
      assert SlotFits(f, m.slots[x.index]);
      Put(t, m, x.index, NewSlot(t, f, m.slots[x.index], x))
  }

  function NewSlot(ghost t: LType, f: Field, s: Slot, x: Item): (r: Slot)
    requires ItemFits(t, x) && !x.Unknown? && f == t.fields[x.index] && SlotFits(f, s)
    ensures SlotFits(f, r)
    decreases t, 0, 0
  {
    match x
    case Packed(_, vs) => Many(s.values + vs)
    case Single(_, v) =>
      if f.htype.Repeated? then Many(s.values + [Merge(f.ltype, Default(f.ltype), v)])
      else Present(Merge(f.ltype, Contents(f, s), v))
  }

  // ---- When there is room ----------------------------------------------------------------------

  predicate AcceptsVal(t: LType, v0: Val, v: Val)
    requires Fits(t, v0) && Fits(t, v)
    decreases t, 2, 0
  {
    match t
    case PbBytes(max) => |v.bytes| <= max
    case PbMessage(_) => ItemsFit(t, v, |t.fields|); AcceptsAll(t, v0, Items(t, v, |t.fields|))
    case _ => true
  }

  predicate AcceptsAll(t: LType, m: Val, xs: seq<Item>)
    requires t.PbMessage? && Fits(t, m) && forall j :: 0 <= j < |xs| ==> ItemFits(t, xs[j])
    decreases t, 1, |xs|
  {
    xs == [] || (Accepts(t, m, xs[0]) && AcceptsAll(t, Apply(t, m, xs[0]), xs[1..]))
  }

  predicate Accepts(t: LType, m: Val, x: Item)
    requires t.PbMessage? && Fits(t, m) && ItemFits(t, x)
    decreases t, 0, 0
  {
    match x
    case Unknown(_, _) => true
    case Packed(i, vs) =>
      assert SlotFits(t.fields[i], m.slots[i]);
      |m.slots[i].values| + |vs| <= t.fields[i].htype.max
    case Single(i, v) =>
      var f, s := t.fields[i], m.slots[i];
      assert SlotFits(f, s);
      if f.htype.Repeated? then |s.values| < f.htype.max && AcceptsVal(f.ltype, Default(f.ltype), v)
      else AcceptsVal(f.ltype, Contents(f, s), v)
  }

  // ---- Items one after the other -----------------------------------------------------------------

  lemma {:induction false} ApplyAllAppend(t: LType, m: Val, a: seq<Item>, b: seq<Item>)
    requires t.PbMessage? && Fits(t, m)
    requires forall j :: 0 <= j < |a| ==> ItemFits(t, a[j])
    requires forall j :: 0 <= j < |b| ==> ItemFits(t, b[j])
    ensures forall j :: 0 <= j < |a + b| ==> ItemFits(t, (a + b)[j])
    ensures ApplyAll(t, m, a + b) == ApplyAll(t, ApplyAll(t, m, a), b)
    ensures AcceptsAll(t, m, a + b) <==> AcceptsAll(t, m, a) && AcceptsAll(t, ApplyAll(t, m, a), b)
    decreases |a|
  {
    hide Fits, ItemFits, Apply, Accepts;
    if a == [] {
      assert [] + b == b;
    } else {
      assert (a + b)[1..] == a[1..] + b;
      ApplyAllAppend(t, Apply(t, m, a[0]), a[1..], b);
    }
  }

  lemma OneApply(t: LType, m: Val, x: Item)
    requires t.PbMessage? && Fits(t, m) && ItemFits(t, x)
    ensures ApplyAll(t, m, [x]) == Apply(t, m, x)
    ensures AcceptsAll(t, m, [x]) <==> Accepts(t, m, x)
  {
    hide Fits, ItemFits, Apply, Accepts;
    assert [x][1..] == [];
  }

  lemma NothingToApply(t: LType, m: Val)
    requires t.PbMessage? && Fits(t, m)
    ensures ApplyAll(t, m, []) == m && AcceptsAll(t, m, [])
  {
  }

  // ---- Merging, field by field -------------------------------------------------------------------

  /** A field that holds x, given y in addition: arrays are concatenated, a submessage merges into the one that is
      there, and any other value replaces what was there. */
  function Combined(f: Field, x: Slot, y: Slot): (r: Slot)
    requires SlotFits(f, x) && SlotFits(f, y)
    ensures SlotFits(f, r)
  {
    if f.htype.Repeated? then Many(x.values + y.values)
    else if x.Present? && y.Present? && f.ltype.PbMessage? then Present(Merge(f.ltype, x.value, y.value))
    else y
  }

  /** Among the first n fields of b, another one of the union of field i contributes. */
  predicate Displaced(t: LType, b: Val, n: nat, i: nat)
    requires t.PbMessage? && Fits(t, b) && n <= |t.fields| && i < |t.fields|
  {
    exists j :: 0 <= j < n && j != i && SameUnion(t.fields[j], t.fields[i]) && Contributes(t.fields[j], b.slots[j])
  }

  /** What field i holds after the first n fields of b. */
  function MergedSlot(t: LType, a: Val, b: Val, n: nat, i: nat): Slot
    requires t.PbMessage? && Fits(t, a) && Fits(t, b) && n <= |t.fields| && i < |t.fields|
  {
    assert SlotFits(t.fields[i], a.slots[i]) && SlotFits(t.fields[i], b.slots[i]);
    if i < n && Contributes(t.fields[i], b.slots[i]) then Combined(t.fields[i], a.slots[i], b.slots[i])
    else if Displaced(t, b, n, i) then Absent
    else a.slots[i]
  }

  /** The law of merging: a field to which b contributes holds what both say; the others keep what a says, except that
      b's field of a union displaces a's. The result is within the limits exactly if there is room at every step. */
  lemma {:induction false} MergeLaw(t: LType, a: Val, b: Val)
    requires Fits(t, a) && Fits(t, b)
    ensures !t.PbMessage? ==> Merge(t, a, b) == b
    ensures t.PbMessage? ==>
              forall i :: 0 <= i < |t.fields| ==> Merge(t, a, b).slots[i] == MergedSlot(t, a, b, |t.fields|, i)
    ensures InLimits(t, a) ==> (AcceptsVal(t, a, b) <==> InLimits(t, Merge(t, a, b)))
    decreases t, 3, 0
  {
    if t.PbMessage? {
      var n := |t.fields|;
      MergeSteps(t, a, b, n);
      if InLimits(t, a) {
        forall i | 0 <= i < n ensures SlotFits(t.fields[i], a.slots[i]) && SlotInLimits(t.fields[i], a.slots[i]) {
        }
      }
    }
  }

  /** Of a union the merged message holds what b holds, and nothing else of it; a union of which b holds nothing stays
      as it is in a. */
  lemma UnionHoldsOne(t: LType, a: Val, b: Val, g: nat, j: nat)
    requires t.PbMessage? && Fits(t, a) && Fits(t, b)
    requires j < |t.fields| && t.fields[j].htype == Oneof(g) && b.slots[j].Present?
    ensures Merge(t, a, b).slots[j].Present?
    ensures forall i :: 0 <= i < |t.fields| && i != j && t.fields[i].htype == Oneof(g) ==>
              Merge(t, a, b).slots[i].Absent?
    ensures forall h: nat :: (forall k :: 0 <= k < |t.fields| && t.fields[k].htype == Oneof(h) ==> b.slots[k].Absent?)
              ==> forall i :: 0 <= i < |t.fields| && t.fields[i].htype == Oneof(h) ==>
                    Merge(t, a, b).slots[i] == a.slots[i]
  {
    hide Fits, Merge;
    FitsSlots(t, a);
    FitsSlots(t, b);
    FitsSlots(t, Merge(t, a, b));
    MergeLaw(t, a, b);
    forall i | 0 <= i < |t.fields| && i != j && t.fields[i].htype == Oneof(g) ensures Merge(t, a, b).slots[i].Absent? {
      OneContributes(t, b, i, j);
    }
  }

  lemma {:induction false} MergeSteps(t: LType, a: Val, b: Val, n: nat)
    requires t.PbMessage? && Fits(t, a) && Fits(t, b) && n <= |t.fields|
    ensures forall j :: 0 <= j < |Items(t, b, n)| ==> ItemFits(t, Items(t, b, n)[j])
    ensures forall i :: 0 <= i < |t.fields| ==>
              ApplyAll(t, a, Items(t, b, n)).slots[i] == MergedSlot(t, a, b, n, i)
    ensures InLimits(t, a) ==>
              (AcceptsAll(t, a, Items(t, b, n)) <==>
                 forall i :: 0 <= i < n && Contributes(t.fields[i], b.slots[i]) ==>
                   SlotInLimits(t.fields[i], Combined(t.fields[i], a.slots[i], b.slots[i])))
    decreases t, 2, n
  {
    hide FieldItems, ItemFits, Apply, ApplyAll, Accepts, AcceptsAll, Fits, InLimits, SlotFits, SlotInLimits, Combined;
    ItemsFit(t, b, n);
    FitsSlots(t, a);
    FitsSlots(t, b);
    if n == 0 {
      NothingToApply(t, a);
    } else {
      var k := n - 1;
      MergeSteps(t, a, b, k);
      var m := ApplyAll(t, a, Items(t, b, k));
      FitsSlots(t, m);
      FieldItemsFit(t, b, k);
      FieldApplied(t, m, k, b.slots[k]);
      ApplyAllAppend(t, a, Items(t, b, k), FieldItems(k, t.fields[k], b.slots[k]));
      SlotsStep(t, a, b, n, m);
    }
  }

  lemma FitsSlots(t: LType, v: Val)
    requires t.PbMessage? && Fits(t, v)
    ensures v.Message? && |v.slots| == |t.fields|
    ensures forall i :: 0 <= i < |t.fields| ==> SlotFits(t.fields[i], v.slots[i])
    ensures InLimits(t, v) ==> forall i :: 0 <= i < |t.fields| ==> SlotInLimits(t.fields[i], v.slots[i])
  {
    hide SlotFits, SlotInLimits;
  }

  /** A union in which one field of b contributes has no other one that does. */
  lemma OneContributes(t: LType, b: Val, i: nat, j: nat)
    requires t.PbMessage? && Fits(t, b) && i < |t.fields| && j < |t.fields| && i != j
    requires SameUnion(t.fields[i], t.fields[j])
    ensures SlotFits(t.fields[i], b.slots[i]) && SlotFits(t.fields[j], b.slots[j])
    ensures !(Contributes(t.fields[i], b.slots[i]) && Contributes(t.fields[j], b.slots[j]))
  {
    assert SameUnion(t.fields[j], t.fields[i]);
  }

  lemma SlotsStep(t: LType, a: Val, b: Val, n: nat, m: Val)
    requires t.PbMessage? && Fits(t, a) && Fits(t, b) && 0 < n <= |t.fields| && Fits(t, m)
    requires forall i :: 0 <= i < |t.fields| ==> m.slots[i] == MergedSlot(t, a, b, n - 1, i)
    ensures var f, k := t.fields[n - 1], n - 1;
            && SlotFits(f, m.slots[k]) && SlotFits(f, b.slots[k])
            && (Contributes(f, b.slots[k]) ==> m.slots[k] == a.slots[k])
            && var r := if Contributes(f, b.slots[k]) then Put(t, m, k, Combined(f, m.slots[k], b.slots[k])) else m;
               forall i :: 0 <= i < |t.fields| ==> r.slots[i] == MergedSlot(t, a, b, n, i)
  {
    hide Fits, Combined, Contributes, SlotFits, SameUnion;
    var f, k := t.fields[n - 1], n - 1;
    FitsSlots(t, m);
    FitsSlots(t, b);
    forall i, j | 0 <= i < |t.fields| && 0 <= j < |t.fields| && i != j && SameUnion(t.fields[i], t.fields[j])
      ensures !(Contributes(t.fields[i], b.slots[i]) && Contributes(t.fields[j], b.slots[j]))
      ensures SameUnion(t.fields[j], t.fields[i])
    {
      OneContributes(t, b, i, j);
      UnionIsMutual(t.fields[i], t.fields[j]);
    }
  }

  lemma UnionIsMutual(f: Field, g: Field)
    ensures SameUnion(f, g) <==> SameUnion(g, f)
  {
  }

  /** The items of one field, applied one after the other. */
  lemma {:induction false} FieldApplied(t: LType, m: Val, k: nat, s: Slot)
    requires t.PbMessage? && Fits(t, m) && k < |t.fields| && SlotFits(t.fields[k], s)
    requires SlotFits(t.fields[k], m.slots[k])
    requires forall j :: 0 <= j < |FieldItems(k, t.fields[k], s)| ==> ItemFits(t, FieldItems(k, t.fields[k], s)[j])
    ensures ApplyAll(t, m, FieldItems(k, t.fields[k], s)) ==
              if Contributes(t.fields[k], s) then Put(t, m, k, Combined(t.fields[k], m.slots[k], s)) else m
    ensures !Contributes(t.fields[k], s) ==> AcceptsAll(t, m, FieldItems(k, t.fields[k], s))
    ensures Contributes(t.fields[k], s) && SlotInLimits(t.fields[k], m.slots[k]) ==>
              (AcceptsAll(t, m, FieldItems(k, t.fields[k], s)) <==>
                 SlotInLimits(t.fields[k], Combined(t.fields[k], m.slots[k], s)))
    decreases t, 1, 0
  {
    hide Fits, InLimits, Merge, AcceptsVal, Default, Put, ApplyAll, AcceptsAll, Omittable;
    FitsSlots(t, m);
    var f := t.fields[k];
    FieldContributes(k, f, s);
    if !Contributes(f, s) {
      NothingToApply(t, m);
    } else if s.Present? {
      OneApply(t, m, Single(k, s.value));
      MergeLaw(f.ltype, Contents(f, m.slots[k]), s.value);
      MergeIntoDefault(f.ltype, s.value);
      if SlotInLimits(f, m.slots[k]) {
        ValueInLimits(f, m.slots[k]);
      }
    } else if Packable(f.ltype) {
      OneApply(t, m, Packed(k, s.values));
      NumbersInLimits(f, s.values);
    } else {
      SinglesApplied(t, m, k, s.values);
    }
  }

  lemma ValueInLimits(f: Field, s: Slot)
    requires SlotFits(f, s) && SlotInLimits(f, s) && !f.htype.Repeated?
    ensures InLimits(f.ltype, Contents(f, s))
  {
    DefaultInLimits(f.ltype);
  }

  lemma {:induction false} DefaultInLimits(t: LType)
    ensures InLimits(t, Default(t))
    decreases t
  {
    if t.PbMessage? {
      forall i | 0 <= i < |t.fields| ensures SlotInLimits(t.fields[i], Default(t).slots[i]) {
        DefaultInLimits(t.fields[i].ltype);
      }
    }
  }

  lemma NumbersInLimits(f: Field, vs: seq<Val>)
    requires Packable(f.ltype) && forall j :: 0 <= j < |vs| ==> Fits(f.ltype, vs[j])
    ensures forall j :: 0 <= j < |vs| ==> InLimits(f.ltype, vs[j])
  {
  }

  /** One more entry behind an array. */
  lemma EntryApplied(t: LType, m: Val, i: nat, vs: seq<Val>, v: Val)
    requires t.PbMessage? && Fits(t, m) && i < |t.fields| && t.fields[i].htype.Repeated?
    requires SlotFits(t.fields[i], Many(vs)) && Fits(t.fields[i].ltype, v)
    requires Merge(t.fields[i].ltype, Default(t.fields[i].ltype), v) == v
    ensures SlotFits(t.fields[i], Many(vs + [v])) && ItemFits(t, Single(i, v))
    ensures Apply(t, Put(t, m, i, Many(vs)), Single(i, v)) == Put(t, m, i, Many(vs + [v]))
    ensures Accepts(t, Put(t, m, i, Many(vs)), Single(i, v)) <==>
              |vs| < t.fields[i].htype.max && AcceptsVal(t.fields[i].ltype, Default(t.fields[i].ltype), v)
  {
    hide Fits, Merge, AcceptsVal, Default;
    assert Put(t, Put(t, m, i, Many(vs)), i, Many(vs + [v])).slots == Put(t, m, i, Many(vs + [v])).slots;
  }

  lemma FirstEntriesFit(f: Field, vs: seq<Val>, n: nat)
    requires SlotFits(f, Many(vs)) && n < |vs|
    ensures SlotFits(f, Many(vs[..n])) && Fits(f.ltype, vs[n])
  {
  }

  lemma LimitsMore(f: Field, vs: seq<Val>, v: Val)
    requires f.htype.Repeated? && SlotFits(f, Many(vs)) && Fits(f.ltype, v)
    ensures SlotFits(f, Many(vs + [v]))
    ensures SlotInLimits(f, Many(vs + [v])) <==>
              SlotInLimits(f, Many(vs)) && |vs| < f.htype.max && InLimits(f.ltype, v)
  {
    hide Fits, InLimits;
    forall j | 0 <= j < |vs| ensures vs[j] == (vs + [v])[j] {
    }
    assert (vs + [v])[|vs|] == v;
  }

  lemma PutSame(t: LType, m: Val, i: nat)
    requires t.PbMessage? && Fits(t, m) && i < |t.fields| && t.fields[i].htype.Repeated?
    requires SlotFits(t.fields[i], m.slots[i])
    ensures Put(t, m, i, m.slots[i]) == m
  {
    assert Put(t, m, i, m.slots[i]).slots == m.slots;
  }

  lemma SinglesFit(t: LType, i: nat, vs: seq<Val>)
    requires t.PbMessage? && i < |t.fields| && t.fields[i].htype.Repeated? && SlotFits(t.fields[i], Many(vs))
    ensures forall j :: 0 <= j < |vs| ==> ItemFits(t, Single(i, vs[j]))
  {
  }

  lemma {:induction false} SinglesApplied(t: LType, m: Val, i: nat, vs: seq<Val>)
    requires t.PbMessage? && Fits(t, m) && i < |t.fields| && t.fields[i].htype.Repeated?
    requires SlotFits(t.fields[i], m.slots[i]) && SlotFits(t.fields[i], Many(vs))
    ensures forall j :: 0 <= j < |vs| ==> ItemFits(t, Single(i, vs[j]))
    ensures SlotFits(t.fields[i], Many(m.slots[i].values + vs))
    ensures ApplyAll(t, m, Singles(i, vs)) == Put(t, m, i, Many(m.slots[i].values + vs))
    ensures SlotInLimits(t.fields[i], m.slots[i]) ==>
              (AcceptsAll(t, m, Singles(i, vs)) <==> SlotInLimits(t.fields[i], Many(m.slots[i].values + vs)))
    decreases t, 0, |vs|
  {
    assert m.slots[i].Many?;
    SinglesFit(t, i, vs);
    hide Fits, Merge, AcceptsVal, Default, InLimits, Put, Apply, ApplyAll, Accepts, AcceptsAll, SlotInLimits, SlotFits,
      ItemFits;
    FitsSlots(t, m);
    var filled := m.slots[i].values;
    if vs == [] {
      PutSame(t, m, i);
      NothingToApply(t, m);
      assert filled + vs == filled;
    } else {
      var n := |vs| - 1;
      FirstEntriesFit(t.fields[i], vs, n);
      SinglesApplied(t, m, i, vs[..n]);
      LimitsMore(t.fields[i], filled + vs[..n], vs[n]);
      MergeIntoDefault(t.fields[i].ltype, vs[n]);
      EntryApplied(t, m, i, filled + vs[..n], vs[n]);
      assert vs == vs[..n] + [vs[n]] && Singles(i, vs) == Singles(i, vs[..n]) + [Single(i, vs[n])];
      assert filled + vs[..n] + [vs[n]] == filled + vs;
      ApplyAllAppend(t, m, Singles(i, vs[..n]), [Single(i, vs[n])]);
      OneApply(t, Put(t, m, i, Many(filled + vs[..n])), Single(i, vs[n]));
    }
  }

  /** Decoding what a message holds into the defaults gives the message; there is room exactly if it is within its
      limits. */
  lemma {:induction false} MergeIntoDefault(t: LType, v: Val)
    requires Fits(t, v)
    ensures Merge(t, Default(t), v) == v && (AcceptsVal(t, Default(t), v) <==> InLimits(t, v))
    decreases t, 4, 0
  {
    MergeLaw(t, Default(t), v);
    DefaultInLimits(t);
    if t.PbMessage? {
      var r := Merge(t, Default(t), v);
      forall i | 0 <= i < |t.fields| ensures r.slots[i] == v.slots[i] {
        SlotIntoDefault(t, v, i);
      }
      assert r.slots == v.slots;
    }
  }

  lemma {:induction false} SlotIntoDefault(t: LType, v: Val, i: nat)
    requires t.PbMessage? && Fits(t, v) && i < |t.fields|
    ensures MergedSlot(t, Default(t), v, |t.fields|, i) == v.slots[i]
    decreases t, 0, 0
  {
    var f, s := t.fields[i], v.slots[i];
    assert SlotFits(f, s) && Default(t).slots[i] == DefaultSlot(f);
    if Contributes(f, s) {
      if s.Present? {
        MergeIntoDefault(f.ltype, s.value);
      } else {
        assert [] + s.values == s.values;
      }
    } else if Displaced(t, v, |t.fields|, i) {
      var j :| 0 <= j < |t.fields| && j != i && SameUnion(t.fields[j], f) && Contributes(t.fields[j], v.slots[j]);
      OneContributes(t, v, j, i);
      UnionIsMutual(t.fields[j], f);
    }
  }

  /** What an item says of its field. */
  function SlotOf(f: Field, x: Item): Slot
    requires !x.Unknown?
  {
    match x
    case Packed(_, vs) => Many(vs)
    case Single(_, v) => if f.htype.Repeated? then Many([v]) else Present(v)
  }

  /** The item is combined with what its field held; the other fields of its union go, and nothing else changes. */
  ghost predicate ItemEffect(t: LType, m: Val, x: Item, r: Val)
    requires t.PbMessage? && Fits(t, m) && ItemFits(t, x) && Fits(t, r)
  {
    if x.Unknown? then r == m
    else
      var i := x.index;
      var f := t.fields[i];
      && SlotFits(f, m.slots[i]) && SlotFits(f, SlotOf(f, x)) && r.slots[i] == Combined(f, m.slots[i], SlotOf(f, x))
      && forall j :: 0 <= j < |t.fields| && j != i ==>
           r.slots[j] == if SameUnion(f, t.fields[j]) then Absent else m.slots[j]
  }

  lemma ApplyLaw(t: LType, m: Val, x: Item)
    requires t.PbMessage? && Fits(t, m) && ItemFits(t, x)
    ensures ItemEffect(t, m, x, Apply(t, m, x))
    ensures InLimits(t, m) && !x.Unknown? ==>
              (Accepts(t, m, x) <==> SlotInLimits(t.fields[x.index], Apply(t, m, x).slots[x.index]))
  {
    hide Fits, InLimits, Merge, AcceptsVal, Default;
    FitsSlots(t, m);
    if x.Single? {
      var f := t.fields[x.index];
      MergeIntoDefault(f.ltype, x.value);
      if f.htype.Repeated? {
        LimitsMore(f, m.slots[x.index].values, x.value);
      } else {
        MergeLaw(f.ltype, Contents(f, m.slots[x.index]), x.value);
        if InLimits(t, m) {
          ValueInLimits(f, m.slots[x.index]);
        }
      }
    } else if x.Packed? {
      NumbersInLimits(t.fields[x.index], x.values);
      NumbersInLimits(t.fields[x.index], m.slots[x.index].values);
    }
  }

  /** What is within the limits after a merge was so before. */
  lemma {:induction false} MergeLimits(t: LType, a: Val, b: Val)
    requires Fits(t, a) && Fits(t, b) && InLimits(t, Merge(t, a, b))
    ensures InLimits(t, b)
    decreases t
  {
    hide Merge;
    MergeLaw(t, a, b);
    if t.PbMessage? {
      var r := Merge(t, a, b);
      FitsSlots(t, r);
      FitsSlots(t, a);
      FitsSlots(t, b);
      forall i | 0 <= i < |t.fields| ensures SlotInLimits(t.fields[i], b.slots[i]) {
        SlotLimits(t, a, b, i);
      }
    }
  }

  lemma {:induction false} SlotLimits(t: LType, a: Val, b: Val, i: nat)
    requires t.PbMessage? && Fits(t, a) && Fits(t, b) && i < |t.fields|
    requires SlotFits(t.fields[i], MergedSlot(t, a, b, |t.fields|, i))
    requires SlotInLimits(t.fields[i], MergedSlot(t, a, b, |t.fields|, i))
    ensures SlotFits(t.fields[i], b.slots[i]) && SlotInLimits(t.fields[i], b.slots[i])
    decreases t, 0
  {
    hide Merge, Fits, InLimits;
    FitsSlots(t, a);
    FitsSlots(t, b);
    var f, x, y := t.fields[i], a.slots[i], b.slots[i];
    if !Contributes(f, y) {
      DefaultInLimits(f.ltype);
    } else if f.htype.Repeated? {
      forall j | 0 <= j < |y.values| ensures InLimits(f.ltype, y.values[j]) {
        assert (x.values + y.values)[|x.values| + j] == y.values[j];
      }
    } else if x.Present? && f.ltype.PbMessage? {
      MergeLimits(f.ltype, x.value, y.value);
    }
  }

  // ---- Required fields -------------------------------------------------------------------------

  /** Every required field that is checked occurs among the items. */
  predicate RequiredSeen(t: LType, xs: seq<Item>)
    requires t.PbMessage?
  {
    forall i :: 0 <= i < |t.fields| && Checked(t.fields, i) ==> exists j :: 0 <= j < |xs| && Concerns(xs[j], i)
  }

  lemma {:induction false} ItemsHaveRequired(t: LType, v: Val, n: nat, i: nat)
    requires t.PbMessage? && Fits(t, v) && i < n <= |t.fields| && t.fields[i].htype.Required?
    ensures exists j :: 0 <= j < |Items(t, v, n)| && Concerns(Items(t, v, n)[j], i)
  {
    var before, xs := Items(t, v, n - 1), FieldItems(n - 1, t.fields[n - 1], v.slots[n - 1]);
    assert Items(t, v, n) == before + xs;
    if i == n - 1 {
      assert SlotFits(t.fields[i], v.slots[i]);
      assert Items(t, v, n)[|before|] == xs[0];
    } else {
      ItemsHaveRequired(t, v, n - 1, i);
      var j :| 0 <= j < |before| && Concerns(before[j], i);
      assert Items(t, v, n)[j] == before[j];
    }
  }

  lemma MessageHasRequired(t: LType, v: Val)
    requires t.PbMessage? && Fits(t, v)
    ensures RequiredSeen(t, Items(t, v, |t.fields|))
  {
    forall i | 0 <= i < |t.fields| && Checked(t.fields, i)
      ensures exists j :: 0 <= j < |Items(t, v, |t.fields|)| && Concerns(Items(t, v, |t.fields|)[j], i) {
      ItemsHaveRequired(t, v, |t.fields|, i);
    }
  }
}
