/** Prefix-compressed blocks with restart points: the builder, and the cursor that reads them back
    (table/block_builder.cc, table/block.cc). */
module BlockFormat {
  import opened DbFormat
  import opened Coding
  import opened Comparator

  // ---- The format ------------------------------------------------------------------------------

  /** An entry and how many bytes of the previous key it shares. */
  datatype Item = Item(shared: nat, key: Bytes, value: Bytes)

  function ItemBytes(x: Item): (r: Bytes)
    requires x.shared <= |x.key|
    ensures |r| >= 3
  {
    PutVarint32(x.shared) + (PutVarint32(|x.key| - x.shared) + (PutVarint32(|x.value|) + (x.key[x.shared..] + x.value)))
  }

  /** Every entry shares a prefix with the one before it. */
  ghost predicate Layout(items: seq<Item>) {
    && (forall i :: 0 <= i < |items| ==> items[i].shared <= |items[i].key|)
    && (items != [] ==> items[0].shared == 0)
    && (forall i :: 0 < i < |items| ==>
          items[i].shared <= |items[i - 1].key|
            && items[i].key[..items[i].shared] == items[i - 1].key[..items[i].shared])
  }

  /** The entries' bytes. */
  ghost function Data(items: seq<Item>): Bytes
    requires forall i :: 0 <= i < |items| ==> items[i].shared <= |items[i].key|
  {
    if items == [] then [] else Data(items[..|items| - 1]) + ItemBytes(items[|items| - 1])
  }

  /** Where entry i begins. */
  ghost function Off(items: seq<Item>, i: nat): nat
    requires Layout(items) && i <= |items|
  {
    |Data(items[..i])|
  }

  lemma {:induction false} DataAt(items: seq<Item>, i: nat)
    requires Layout(items) && i < |items|
    ensures Off(items, i + 1) == Off(items, i) + |ItemBytes(items[i])| <= |Data(items)|
    ensures Data(items)[Off(items, i)..Off(items, i + 1)] == ItemBytes(items[i])
  {
    hide ItemBytes;
    var before, x := items[..|items| - 1], items[|items| - 1];
    assert items[..i + 1][..i] == items[..i];
    if i == |items| - 1 {
      assert items[..i + 1] == items;
    } else {
      assert before[..i] == items[..i] && before[..i + 1] == items[..i + 1];
      DataAt(before, i);
    }
  }

  lemma {:induction false} OffGrows(items: seq<Item>, i: nat, j: nat)
    requires Layout(items) && i <= j <= |items|
    ensures Off(items, i) + 3 * (j - i) <= Off(items, j)
  {
    if i < j {
      OffGrows(items, i, j - 1);
      DataAt(items, j - 1);
    }
  }

  lemma OffEnd(items: seq<Item>)
    requires Layout(items)
    ensures Off(items, |items|) == |Data(items)| && Off(items, 0) == 0
  {
    assert items[..|items|] == items;
  }

  /** Offsets order entries. */
  lemma OffOrder(items: seq<Item>, i: nat, j: nat)
    requires Layout(items) && i <= |items| && j <= |items|
    ensures i < j <==> Off(items, i) < Off(items, j)
  {
    if i < j {
      OffGrows(items, i, j);
    } else {
      OffGrows(items, j, i);
    }
  }

  /** Restart points: entries that share nothing; the first entry is one. */
  ghost predicate RestartsOk(items: seq<Item>, restarts: seq<nat>) {
    && restarts != [] && restarts[0] == 0
    && (forall i, j :: 0 <= i < j < |restarts| ==> restarts[i] < restarts[j])
    && (forall i :: 0 <= i < |restarts| ==>
          restarts[i] <= |items| && (restarts[i] < |items| ==> items[restarts[i]].shared == 0))
    && (forall i :: 0 < i < |restarts| ==> restarts[i] < |items|)
  }

  /** How many bytes two keys have in common at the front. */
  function CommonPrefix(a: Bytes, b: Bytes): (n: nat)
    ensures n <= |a| && n <= |b| && a[..n] == b[..n]
    ensures n < |a| && n < |b| ==> a[n] != b[n]
  {
    if a == [] || b == [] || a[0] != b[0] then 0
    else
      var n := CommonPrefix(a[1..], b[1..]);
      assert a[..n + 1] == [a[0]] + a[1..][..n] && b[..n + 1] == [b[0]] + b[1..][..n];
      n + 1
  }

  lemma {:induction false} CommonPrefixIs(a: Bytes, b: Bytes, n: nat)
    requires n <= |a| && n <= |b| && a[..n] == b[..n] && (n < |a| && n < |b| ==> a[n] != b[n])
    ensures CommonPrefix(a, b) == n
  {
    if n > 0 {
      assert a[0] == a[..n][0] && b[0] == b[..n][0];
      assert a[1..][..n - 1] == a[..n][1..] && b[1..][..n - 1] == b[..n][1..];
      CommonPrefixIs(a[1..], b[1..], n - 1);
    }
  }

  /** Every `interval`-th entry is a restart point, and every other entry shares as much as it can. */
  ghost predicate Compressed(items: seq<Item>, points: seq<nat>, interval: nat) {
    && (forall i :: 0 <= i < |points| ==> points[i] == i * interval)
    && (|points| - 1) * interval <= |items| <= |points| * interval
    && (forall i :: 0 < i < |items| && i !in points ==> items[i].shared == CommonPrefix(items[i - 1].key, items[i].key))
  }

  /** `counter` entries have been added from the last restart point on. */
  ghost predicate Counted(items: seq<Item>, points: seq<nat>, interval: nat, counter: nat) {
    |items| == (|points| - 1) * interval + counter
  }

  // ---- The builder -----------------------------------------------------------------------------

  /** The restart array and its length, as Finish appends them. */
  function Fixed32s(vs: seq<nat>): (r: Bytes)
    ensures |r| == 4 * |vs|
  {
    if vs == [] then [] else Fixed32s(vs[..|vs| - 1]) + Fixed32(vs[|vs| - 1] % 0x1_0000_0000)
  }

  lemma {:induction false} Fixed32At(vs: seq<nat>, i: nat, rest: Bytes)
    requires i < |vs| && vs[i] < 0x1_0000_0000
    ensures DecodeFixed32((Fixed32s(vs) + rest)[4 * i..]) == vs[i]
  {
    hide Fixed32, DecodeFixed32;
    var before, v := vs[..|vs| - 1], vs[|vs| - 1];
    var last := Fixed32(v % 0x1_0000_0000);
    assert Fixed32s(vs) + rest == Fixed32s(before) + (last + rest);
    if i == |before| {
      assert (Fixed32s(before) + (last + rest))[4 * i..] == last + rest;
      DecodeInvertsFixed32(v, rest);
    } else {
      Fixed32At(before, i, last + rest);
    }
  }

  ghost function Offsets(items: seq<Item>, restarts: seq<nat>): (r: seq<nat>)
    requires Layout(items) && forall i :: 0 <= i < |restarts| ==> restarts[i] <= |items|
    ensures |r| == |restarts| && forall i :: 0 <= i < |r| ==> r[i] == Off(items, restarts[i])
  {
    seq(|restarts|, i requires 0 <= i < |restarts| => Off(items, restarts[i]))
  }

  /** A finished block with these entries and restart points. */
  ghost predicate IsBlock(contents: Bytes, items: seq<Item>, restarts: seq<nat>) {
    && Layout(items) && RestartsOk(items, restarts)
    && contents == Data(items) + (Fixed32s(Offsets(items, restarts)) + Fixed32(|restarts| % 0x1_0000_0000))
  }

  /** A second restart point is an entry. */
  lemma SecondPoint(items: seq<Item>, points: seq<nat>)
    requires RestartsOk(items, points)
    ensures |points| > 1 ==> items != []
  {
    assert |points| > 1 ==> points[1] < |items|;
  }

  class BlockBuilder {
    const interval: nat // block_restart_interval
    var buffer: Bytes
    var restarts: seq<nat>
    var counter: nat
    var lastKey: Bytes
    ghost var items: seq<Item>
    ghost var points: seq<nat>

    constructor (interval: nat)
      requires interval >= 1
      ensures Valid() && items == [] && this.interval == interval
    {
      this.interval := interval;
      buffer, restarts, counter, lastKey := [], [0], 0, [];
      items, points := [], [0];
    }

    /** `points` are the entries the restart offsets stand for; the restarts come every `interval` entries. */
    ghost predicate Valid()
      reads this
    {
      && Layout(items) && RestartsOk(items, points) && buffer == Data(items)
      && restarts == Offsets(items, points)
      && interval >= 1 && counter <= interval
      && lastKey == (if items == [] then [] else items[|items| - 1].key)
      && (items == [] ==> counter == 0)
      && Compressed(items, points, interval) && Counted(items, points, interval, counter)
    }

    method Reset()
      requires interval >= 1
      modifies this
      ensures Valid() && items == []
    {
      buffer, restarts, counter, lastKey := [], [0], 0, [];
      items, points := [], [0];
    }

    function CurrentSizeEstimate(): nat
      reads this
    {
      |buffer| + |restarts| * 4 + 4
    }

    predicate Empty()
      reads this
    {
      buffer == []
    }

    lemma NothingYet()
      requires Valid() && items == []
      ensures buffer == [] && |restarts| == 1 && lastKey == []
    {
      SecondPoint(items, points);
    }

    /** The buffer is empty only if nothing has been added since the last Reset. */
    lemma EmptyMeans()
      requires Valid()
      ensures Empty() <==> items == []
    {
      hide ItemBytes;
      OffEnd(items);
      OffGrows(items, 0, |items|);
    }

    /** Adds an entry; sharing is lossless, so it is the pair (key, value) that is added. */
    method Add(key: Bytes, value: Bytes)
      requires Valid()
      modifies this
      ensures Valid() && items != [] && items[..|items| - 1] == old(items)
      ensures items[|items| - 1].key == key && items[|items| - 1].value == value
      ensures CurrentSizeEstimate() >= old(CurrentSizeEstimate()) + 3
      ensures old(items) == [] ==> CurrentSizeEstimate() == 8 + |ItemBytes(Item(0, key, value))|
    {
      hide Data, PutVarint32, RestartsOk, Offsets, Layout, Compressed, Counted, ItemBytes, CommonPrefix;
      if items == [] {
        NothingYet();
      }
      ghost var before, isNew := items, counter == interval;
      var shared := 0;
      if counter < interval {
        shared := SharedLength(lastKey, key);
      } else {
        restarts := restarts + [|buffer|];
        points := points + [|items|];
        counter := 0;
      }
      var nonShared := |key| - shared;
      ghost var x := Item(shared, key, value);
      Extended(items, old(points), x, isNew, interval, old(counter));
      KeyRebuilt(lastKey, key, shared);
      EntryParts(x);
      var bytes := PutVarint32(shared) + (PutVarint32(nonShared) + (PutVarint32(|value|) + (key[shared..] + value)));
      buffer := buffer + bytes;
      items := items + [x];
      lastKey := lastKey[..shared] + key[shared..];
      counter := counter + 1;
    }

    /** How much of the previous key can be shared: as much as agrees. */
    static method SharedLength(lastKey: Bytes, key: Bytes) returns (shared: nat)
      ensures shared == CommonPrefix(lastKey, key)
    {
      shared := 0;
      var minLength := if |lastKey| < |key| then |lastKey| else |key|;
      while shared < minLength && lastKey[shared] == key[shared]
        invariant shared <= minLength && lastKey[..shared] == key[..shared]
      {
        shared := shared + 1;
      }
      CommonPrefixIs(lastKey, key, shared);
    }

    method Finish() returns (contents: Bytes)
      requires Valid()
      modifies this`buffer
      ensures IsBlock(contents, items, points) && |contents| == old(CurrentSizeEstimate())
      ensures Compressed(items, points, interval)
    {
      hide Data, Fixed32, RestartsOk, Layout, Compressed, Counted;
      ghost var data := buffer;
      assert restarts[..0] == [];
      for i := 0 to |restarts|
        invariant buffer == data + Fixed32s(restarts[..i])
      {
        assert restarts[..i + 1][..i] == restarts[..i];
        buffer := buffer + Fixed32(restarts[i] % 0x1_0000_0000);
      }
      assert restarts[..|restarts|] == restarts;
      buffer := buffer + Fixed32(|restarts| % 0x1_0000_0000);
      contents := buffer;
    }
  }

  /** A restart point before the item keeps the restarts right. */
  lemma AddPoint(items: seq<Item>, points: seq<nat>, x: Item, isNew: bool)
    requires Layout(items) && RestartsOk(items, points) && Layout(items + [x])
    requires forall i :: 0 <= i <= |items| ==> Off(items + [x], i) == Off(items, i)
    requires isNew ==> items != [] && x.shared == 0
    ensures var after := if isNew then points + [|items|] else points;
            && RestartsOk(items + [x], after)
            && Offsets(items + [x], after) == Offsets(items, points) + if isNew then [|Data(items)|] else []
  {
    hide Data;
    OffEnd(items);
  }

  /** The pieces that Add appends. */
  lemma EntryParts(x: Item)
    requires x.shared <= |x.key|
    ensures ItemBytes(x) == PutVarint32(x.shared) + (PutVarint32(|x.key| - x.shared) + (PutVarint32(|x.value|) +
                              (x.key[x.shared..] + x.value)))
  {
  }

  /** The key that Add remembers is the one it was given. */
  lemma KeyRebuilt(lastKey: Bytes, key: Bytes, shared: nat)
    requires shared == 0 || shared == CommonPrefix(lastKey, key)
    ensures shared <= |lastKey| && shared <= |key| && lastKey[..shared] + key[shared..] == key
  {
    assert shared <= |lastKey| && shared <= |key| && lastKey[..shared] == key[..shared];
    hide CommonPrefix;
    assert key[..shared] + key[shared..] == key;
  }

  /** What one more entry does to a block. */
  lemma Extended(items: seq<Item>, points: seq<nat>, x: Item, isNew: bool, interval: nat, counter: nat)
    requires Layout(items) && RestartsOk(items, points) && Compressed(items, points, interval)
    requires interval >= 1 && counter <= interval && Counted(items, points, interval, counter)
    requires isNew <==> counter == interval
    requires x.shared == if items == [] || isNew then 0 else CommonPrefix(items[|items| - 1].key, x.key)
    ensures Layout(items + [x]) && Data(items + [x]) == Data(items) + ItemBytes(x)
    ensures var after := if isNew then points + [|items|] else points;
            && RestartsOk(items + [x], after) && Compressed(items + [x], after, interval)
            && Counted(items + [x], after, interval, if isNew then 1 else counter + 1)
            && Offsets(items + [x], after) == Offsets(items, points) + if isNew then [|Data(items)|] else []
  {
    hide Data, ItemBytes, Compressed, Layout, Offsets, CommonPrefix;
    assert items == [] ==> !isNew by { SecondPoint(items, points); }
    AddItem(items, x);
    AddPoint(items, points, x, isNew);
    AddCompressed(items, points, x, isNew, interval, counter);
  }

  lemma AddCompressed(items: seq<Item>, points: seq<nat>, x: Item, isNew: bool, interval: nat, counter: nat)
    requires Compressed(items, points, interval) && RestartsOk(items, points) && counter <= interval
    requires interval >= 1 && |items| == (|points| - 1) * interval + counter && (isNew <==> counter == interval)
    requires !isNew && items != [] ==> x.shared == CommonPrefix(items[|items| - 1].key, x.key)
    ensures Compressed(items + [x], if isNew then points + [|items|] else points, interval)
    ensures |items + [x]| ==
              (|if isNew then points + [|items|] else points| - 1) * interval + if isNew then 1 else counter + 1
  {
    Product(|points|, interval);
    var after := if isNew then points + [|items|] else points;
    forall i | 0 < i < |items + [x]| && i !in after
      ensures (items + [x])[i].shared == CommonPrefix((items + [x])[i - 1].key, (items + [x])[i].key)
    {
      assert isNew ==> |items| in after;
      assert i < |items| ==> i !in points;
    }
  }

  lemma Product(n: nat, interval: nat)
    requires n >= 1
    ensures (n - 1) * interval + interval == n * interval && (n + 1) * interval == n * interval + interval
  {
  }

  /** An item that shares a prefix with the last one extends the block. */
  lemma AddItem(items: seq<Item>, x: Item)
    requires Layout(items) && x.shared <= |x.key|
    requires if items == [] then x.shared == 0
             else var last := items[|items| - 1];
                  x.shared <= |last.key| && x.key[..x.shared] == last.key[..x.shared]
    ensures Layout(items + [x]) && Data(items + [x]) == Data(items) + ItemBytes(x)
    ensures forall i :: 0 <= i <= |items| ==> Off(items + [x], i) == Off(items, i)
  {
    hide ItemBytes;
    assert (items + [x])[..|items|] == items;
    forall i | 0 <= i <= |items| ensures Off(items + [x], i) == Off(items, i) {
      assert (items + [x])[..i] == items[..i];
    }
  }

  // ---- Reading one entry -----------------------------------------------------------------------

  datatype Decoded = Decoded(shared: nat, nonShared: nat, valueLength: nat, delta: Bytes) | BadEntry

  predicate Fits(x: Item) {
    x.shared <= |x.key| < 0x1_0000_0000 && |x.value| < 0x1_0000_0000
  }

  lemma ItemRoundTrip(x: Item, rest: Bytes)
    requires Fits(x)
    ensures var tail := x.key[x.shared..] + x.value + rest;
            var lengths := PutVarint32(|x.value|) + tail;
            var more := PutVarint32(|x.key| - x.shared) + lengths;
            && DecodeVarint32(ItemBytes(x) + rest) == Parsed(x.shared, more)
            && DecodeVarint32(more) == Parsed(|x.key| - x.shared, lengths)
            && DecodeVarint32(lengths) == Parsed(|x.value|, tail)
  {
    hide PutVarint32, DecodeVarint32;
    var tail := x.key[x.shared..] + x.value + rest;
    var lengths := PutVarint32(|x.value|) + tail;
    var more := PutVarint32(|x.key| - x.shared) + lengths;
    assert ItemBytes(x) + rest == PutVarint32(x.shared) + more;
    PutVarint32RoundTrip(x.shared, more);
    PutVarint32RoundTrip(|x.key| - x.shared, lengths);
    PutVarint32RoundTrip(|x.value|, tail);
  }

  lemma SmallVarint(input: Bytes)
    requires input != [] && input[0] < 128
    ensures DecodeVarint32(input) == Parsed(input[0], input[1..])
  {
  }

  /** What DecodeEntry makes of the bytes from an entry to the end of the data: the three lengths and what follows
      them. The lengths are added up in 32 bits. */
  function DecodedEntry(input: Bytes): Decoded {
    if |input| < 3 then BadEntry
    else
      match DecodeVarint32(input)
      case Bad => BadEntry
      case Parsed(shared, more) =>
        match DecodeVarint32(more)
        case Bad => BadEntry
        case Parsed(nonShared, lengths) =>
          match DecodeVarint32(lengths)
          case Bad => BadEntry
          case Parsed(valueLength, p) =>
            if |p| % 0x1_0000_0000 < (nonShared + valueLength) % 0x1_0000_0000 then BadEntry
            else Decoded(shared, nonShared, valueLength, p)
  }

  /** DecodeEntry: one byte for each length if all are below 128, varints otherwise. */
  method DecodeEntry(input: Bytes) returns (r: Decoded)
    ensures r == DecodedEntry(input) && (r.Decoded? ==> |r.delta| + 3 <= |input|)
  {
    hide DecodeVarint32;
    if |input| < 3 {
      return BadEntry;
    }
    var shared: nat, nonShared: nat, valueLength: nat := input[0], input[1], input[2];
    var p := input[3..];
    if shared < 128 && nonShared < 128 && valueLength < 128 {
      SmallVarint(input);
      SmallVarint(input[1..]);
      SmallVarint(input[2..]);
    } else {
      var a := GetVarint32(input);
      if a.Bad? {
        return BadEntry;
      }
      var b := GetVarint32(a.rest);
      if b.Bad? {
        return BadEntry;
      }
      var c := GetVarint32(b.rest);
      if c.Bad? {
        return BadEntry;
      }
      shared, nonShared, valueLength, p := a.value, b.value, c.value, c.rest;
    }
    if |p| % 0x1_0000_0000 < (nonShared + valueLength) % 0x1_0000_0000 {
      return BadEntry;
    }
    r := Decoded(shared, nonShared, valueLength, p);
  }

  /** The key and value of the entry lie within the data. */
  predicate Inside(d: Decoded) { d.Decoded? && d.nonShared + d.valueLength <= |d.delta| }

  /** An entry is read back as it was written. */
  lemma EntryRoundTrip(x: Item, rest: Bytes)
    requires Fits(x) && |ItemBytes(x) + rest| < 0x1_0000_0000
    ensures DecodedEntry(ItemBytes(x) + rest) ==
              Decoded(x.shared, |x.key| - x.shared, |x.value|, x.key[x.shared..] + x.value + rest)
    ensures Inside(DecodedEntry(ItemBytes(x) + rest))
  {
    hide ItemBytes, DecodeVarint32;
    ItemRoundTrip(x, rest);
    ItemLength(x);
  }

  lemma Varint32Consumes(input: Bytes)
    ensures DecodeVarint32(input).Parsed? ==> |DecodeVarint32(input).rest| < |input|
  {
    DecodeVarintConsumes(input, 5);
  }

  /** What is accepted in a block of less than 2^32 bytes lies within the data if and only if the lengths do not
      wrap around when they are added up. */
  lemma AcceptedIsInside(input: Bytes)
    requires |input| < 0x1_0000_0000 && DecodedEntry(input).Decoded?
    ensures var d := DecodedEntry(input);
            (Inside(d) <==> d.nonShared + d.valueLength < 0x1_0000_0000) && |d.delta| + 3 <= |input|
  {
    hide DecodeVarint32;
    Varint32Consumes(input);
    var a := DecodeVarint32(input);
    Varint32Consumes(a.rest);
    Varint32Consumes(DecodeVarint32(a.rest).rest);
  }

  /** Lengths 2^32 - 1 and 2 are taken for one byte in all. */
  lemma WrappingEntry()
    ensures var d := DecodedEntry([0, 0xff, 0xff, 0xff, 0xff, 0x0f, 2, 7]);
            d == Decoded(0, 0xffff_ffff, 2, [7]) && !Inside(d)
  {
    var input: Bytes := [0, 0xff, 0xff, 0xff, 0xff, 0x0f, 2, 7];
    hide DecodeVarint32, Varint;
    SmallVarint(input);
    LargestVarint([2, 7]);
    assert input[1..] == [0xff, 0xff, 0xff, 0xff, 0x0f] + [2, 7];
    SmallVarint([2, 7]);
    assert [2, 7][1..] == [7];
  }

  lemma LargestVarint(rest: Bytes)
    ensures DecodeVarint32([0xff, 0xff, 0xff, 0xff, 0x0f] + rest) == Parsed(0xffff_ffff, rest)
  {
    hide DecodeVarint32, Varint;
    VarintStep(0xffff_ffff);
    VarintStep(0x1ff_ffff);
    VarintStep(0x3_ffff);
    VarintStep(0x7ff);
    VarintStep(0xf);
    assert Varint(0xffff_ffff) == [0xff, 0xff, 0xff, 0xff, 0x0f];
    Varint32RoundTrip(0xffff_ffff, rest);
  }

  // ---- The cursor ------------------------------------------------------------------------------

  /** Everything in the block fits 32 bits, and the bytes are those of a finished block. */
  ghost predicate Holds(contents: Bytes, items: seq<Item>, points: seq<nat>) {
    IsBlock(contents, items, points) && |contents| < 0x1_0000_0000
  }

  lemma ItemLength(x: Item)
    requires x.shared <= |x.key|
    ensures |ItemBytes(x)| >= 3 + |x.key| - x.shared + |x.value|
  {
    hide PutVarint32;
  }

  /** No key is longer than the data up to its entry. */
  lemma {:induction false} KeyFits(items: seq<Item>, i: nat)
    requires Layout(items) && i < |items|
    ensures |items[i].key| <= Off(items, i + 1) && |items[i].value| <= Off(items, i + 1)
  {
    hide Data, ItemBytes;
    DataAt(items, i);
    ItemLength(items[i]);
    if i > 0 {
      KeyFits(items, i - 1);
    }
  }

  lemma ItemFits(contents: Bytes, items: seq<Item>, points: seq<nat>, i: nat)
    requires Holds(contents, items, points) && i < |items|
    ensures Fits(items[i]) && |contents| < 0x1_0000_0000
  {
    hide Data, Offsets, RestartsOk;
    KeyFits(items, i);
    DataAt(items, i);
  }

  /** The parts of a block, as the reader finds them. */
  lemma BlockParts(contents: Bytes, items: seq<Item>, points: seq<nat>)
    requires Holds(contents, items, points)
    ensures Layout(items) && RestartsOk(items, points)
    ensures |contents| == |Data(items)| + 4 * |points| + 4 && contents[..|Data(items)|] == Data(items)
    ensures DecodeFixed32(contents[|contents| - 4..]) == |points|
    ensures forall i :: 0 <= i < |points| ==> DecodeFixed32(contents[|Data(items)| + 4 * i..]) == Off(items, points[i])
  {
    hide Data, DecodeFixed32, Off;
    BlockEnd(contents, items, points);
    forall i | 0 <= i < |points| ensures DecodeFixed32(contents[|Data(items)| + 4 * i..]) == Off(items, points[i]) {
      OffsetPart(contents, items, points, i);
    }
  }

  lemma BlockEnd(contents: Bytes, items: seq<Item>, points: seq<nat>)
    requires Holds(contents, items, points)
    ensures |contents| == |Data(items)| + 4 * |points| + 4 && contents[..|Data(items)|] == Data(items)
    ensures DecodeFixed32(contents[|contents| - 4..]) == |points|
  {
    hide Data, Fixed32, DecodeFixed32, Fixed32s, Off;
    var offsets, count := Offsets(items, points), Fixed32(|points| % 0x1_0000_0000);
    Pieces(Data(items), Fixed32s(offsets), count);
    DecodeInvertsFixed32(|points| % 0x1_0000_0000, []);
    assert count + [] == count;
  }

  lemma OffsetPart(contents: Bytes, items: seq<Item>, points: seq<nat>, i: nat)
    requires Holds(contents, items, points) && i < |points|
    ensures DecodeFixed32(contents[|Data(items)| + 4 * i..]) == Off(items, points[i])
  {
    hide Data, Fixed32, DecodeFixed32, Fixed32s, Off;
    var offsets, count := Offsets(items, points), Fixed32(|points| % 0x1_0000_0000);
    Pieces(Data(items), Fixed32s(offsets), count);
    OffBound(items, points[i]);
    Fixed32At(offsets, i, count);
  }

  lemma Pieces(d: Bytes, o: Bytes, c: Bytes)
    requires |c| == 4
    ensures var all := d + (o + c);
            && all[..|d|] == d && all[|all| - 4..] == c
            && forall k :: 0 <= k <= |o| ==> all[|d| + k..] == (o + c)[k..]
  {
  }

  lemma OffBound(items: seq<Item>, i: nat)
    requires Layout(items) && i <= |items|
    ensures Off(items, i) <= |Data(items)|
  {
    hide Data;
    OffGrows(items, i, |items|);
    OffEnd(items);
  }

  /** Block::Block: where the restart array begins, or None for contents that cannot be a block. */
  function RestartOffset(contents: Bytes): Option<nat> {
    if |contents| < 4 then None
    else
      var n := DecodeFixed32(contents[|contents| - 4..]);
      if n > (|contents| - 4) / 4 then None else Some(|contents| - (1 + n) * 4)
  }

  class BlockIter {
    const order: Order
    const data: Bytes
    const restarts: nat
    const numRestarts: nat
    var current: nat
    var restartIndex: nat
    var key: Bytes
    var value: Bytes
    var next: nat // NextEntryOffset: where value_ ends
    var corrupt: bool
    ghost const items: seq<Item>
    ghost const points: seq<nat>

    constructor (order: Order, contents: Bytes, ghost items: seq<Item>, ghost points: seq<nat>)
      requires RestartOffset(contents).Some? && RestartOffset(contents).value + 4 < |contents|
      ensures Wired() && !Valid() && this.order == order && data == contents && this.items == items
      ensures this.points == points
      ensures !corrupt && (Holds(contents, items, points) ==> IsGood())
    {
      hide Data, DecodeFixed32, Layout, RestartsOk, IsBlock;
      this.order, this.data, this.items, this.points := order, contents, items, points;
      this.restarts := RestartOffset(contents).value;
      this.numRestarts := DecodeFixed32(contents[|contents| - 4..]);
      current := RestartOffset(contents).value;
      restartIndex := DecodeFixed32(contents[|contents| - 4..]);
      key, value, next, corrupt := [], [], 0, false;
      new;
      if Holds(contents, items, points) {
        BlockParts(contents, items, points);
      }
    }

    ghost predicate Wired() {
      numRestarts > 0 && restarts + 4 * numRestarts + 4 == |data|
    }

    /** The contents are a finished block with these entries. */
    ghost predicate IsGood() {
      && Wired() && Holds(data, items, points) && restarts == |Data(items)| && numRestarts == |points|
    }

    predicate Valid()
      reads this
    {
      current < restarts
    }

    function GetRestartPoint(index: nat): nat
      requires Wired() && index < numRestarts
    {
      DecodeFixed32(data[restarts + 4 * index..])
    }

    lemma Facts()
      requires IsGood()
      ensures Layout(items) && RestartsOk(items, points) && data[..restarts] == Data(items)
      ensures forall i :: 0 <= i < numRestarts ==> GetRestartPoint(i) == Off(items, points[i])
    {
      hide Data, Layout, RestartsOk, DecodeFixed32;
      BlockParts(data, items, points);
    }

    /** The cursor is about to parse entry i (or to find the end, for i == |items|). */
    ghost predicate Before(i: nat)
      requires Layout(items)
      reads this
    {
      && i <= |items| && next == Off(items, i) && restartIndex < numRestarts == |points| && points[restartIndex] <= i
      && (i < |items| ==>
            items[i].shared <= |key| && items[i].shared <= |items[i].key| &&
            key[..items[i].shared] == items[i].key[..items[i].shared])
    }

    /** The cursor stands at entry i; restartIndex is the last restart point before it, or the one at it. */
    ghost predicate At(i: nat)
      requires Layout(items)
      reads this
    {
      && i < |items| && current == Off(items, i) < restarts && next == Off(items, i + 1)
      && key == items[i].key && value == items[i].value
      && restartIndex < numRestarts == |points| && points[restartIndex] <= i
      && (restartIndex + 1 < numRestarts ==> i <= points[restartIndex + 1])
    }

    method CorruptionError()
      modifies this
      ensures !Valid() && corrupt
    {
      current, restartIndex, corrupt := restarts, numRestarts, true;
      key, value := [], [];
    }

    method SeekToRestartPoint(index: nat)
      requires Wired() && index < numRestarts
      modifies this`key, this`restartIndex, this`value, this`next
      ensures restartIndex == index && next == GetRestartPoint(index)
      ensures IsGood() ==> Layout(items) && RestartsOk(items, points) && index < |points| && Before(points[index])
    {
      hide Data, Holds, DecodeFixed32, Off;
      key := [];
      restartIndex := index;
      value := [];
      next := GetRestartPoint(index);
      if IsGood() {
        Facts();
      }
    }

    /** What stands in the data at entry i, and how it relates to the restart points. */
    lemma EntryAt(i: nat)
      requires IsGood() && Layout(items) && i < |items|
      ensures Off(items, i) < Off(items, i + 1) <= restarts <= |data| < 0x1_0000_0000 && Fits(items[i])
      ensures data[Off(items, i)..restarts] == ItemBytes(items[i]) + data[Off(items, i + 1)..restarts]
      ensures |ItemBytes(items[i])| == Off(items, i + 1) - Off(items, i)
    {
      hide Data, ItemBytes, Holds, Off, DecodeFixed32, RestartsOk;
      Facts();
      ItemFits(data, items, points, i);
      DataAt(items, i);
      OffOrder(items, i, i + 1);
      OffBound(items, i + 1);
      SliceAt(data, restarts, Off(items, i), Off(items, i + 1), ItemBytes(items[i]));
    }

    /** Points and offsets are ordered alike. */
    lemma PointOrder(r: nat, i: nat)
      requires IsGood() && Layout(items) && RestartsOk(items, points) && r < |points| && i <= |items|
      ensures r < numRestarts && points[r] <= |items| && GetRestartPoint(r) == Off(items, points[r])
      ensures GetRestartPoint(r) < Off(items, i) <==> points[r] < i
      ensures i < |items| <==> Off(items, i) < restarts
    {
      hide Data, DecodeFixed32;
      Facts();
      OffOrder(items, points[r], i);
      OffOrder(items, i, |items|);
      OffEnd(items);
    }

    /** Advances to the next entry; false at the end of the data or on a corrupted entry. */
    method ParseNextKey(ghost i: nat) returns (ok: bool)
      requires Wired() && restartIndex < numRestarts
      modifies this
      ensures ok <==> Valid()
      ensures ok ==> current == old(next) < next <= restarts && restartIndex < numRestarts
      ensures IsGood() && Layout(items) && old(Before(i)) ==>
                corrupt == old(corrupt) && if i < |items| then ok && At(i) else !ok
    {
      hide Data, ItemBytes, Holds, Off, DecodeFixed32, RestartsOk, Layout, DecodedEntry, Fits;
      ghost var isHere := IsGood() && Layout(items) && Before(i);
      current := next;
      if isHere {
        Facts();
        PointOrder(restartIndex, i);
      }
      if current >= restarts {
        current := restarts;
        restartIndex := numRestarts;
        return false;
      }
      if isHere {
        EntryAt(i);
      }
      if isHere {
        EntryRoundTrip(items[i], data[Off(items, i + 1)..restarts]);
      }
      var d := DecodeEntry(data[current..restarts]);
      // What lies behind the data is not part of this model; an entry that reaches there ends the iteration.
      if !Inside(d) || |key| < d.shared {
        CorruptionError();
        return false;
      }
      key := key[..d.shared] + d.delta[..d.nonShared];
      value := d.delta[d.nonShared..d.nonShared + d.valueLength];
      next := restarts - |d.delta| + d.nonShared + d.valueLength;
      if isHere {
        EntryDecoded(items[i], old(key), data[Off(items, i + 1)..restarts], d);
      }
      while restartIndex + 1 < numRestarts && GetRestartPoint(restartIndex + 1) < current
        invariant restartIndex < numRestarts
        invariant isHere ==> points[restartIndex] <= i
        decreases numRestarts - restartIndex
        modifies this`restartIndex
      {
        if isHere {
          PointOrder(restartIndex + 1, i);
        }
        restartIndex := restartIndex + 1;
      }
      if isHere && restartIndex + 1 < numRestarts {
        PointOrder(restartIndex + 1, i);
      }
      ok := true;
    }

    lemma AtBefore(i: nat)
      requires IsGood() && Layout(items) && At(i)
      ensures i + 1 <= |items| && Before(i + 1) && Valid()
    {
      hide Data, Holds, Off;
    }

    method Next(ghost i: nat)
      requires Wired() && Valid() && restartIndex < numRestarts
      modifies this
      ensures Valid() ==> restartIndex < numRestarts && old(next) < next <= restarts
      ensures IsGood() && Layout(items) && old(At(i)) ==>
                corrupt == old(corrupt) && if i + 1 < |items| then At(i + 1) else !Valid()
    {
      hide Data, Holds, Off, DecodeFixed32, RestartsOk, Layout, At, Before;
      if IsGood() && Layout(items) && At(i) {
        AtBefore(i);
      }
      var ok := ParseNextKey(i + 1);
    }

    method Prev(ghost i: nat)
      requires Wired() && Valid() && restartIndex < numRestarts
      modifies this
      ensures Valid() ==> restartIndex < numRestarts && current < old(current)
      ensures IsGood() && Layout(items) && old(At(i)) ==>
                corrupt == old(corrupt) && if i > 0 then At(i - 1) else !Valid()
    {
      hide Data, Holds, Off, DecodeFixed32, RestartsOk, Layout;
      ghost var isHere := IsGood() && Layout(items) && At(i);
      if isHere {
        Facts();
      }
      var original := current;
      if isHere {
        PointOrder(restartIndex, i);
      }
      while GetRestartPoint(restartIndex) >= original
        invariant restartIndex < numRestarts && corrupt == old(corrupt)
        invariant isHere ==> (GetRestartPoint(restartIndex) < original <==> points[restartIndex] < i)
        decreases restartIndex
      {
        if restartIndex == 0 {
          if isHere {
            FirstPoint();
          }
          current := restarts;
          restartIndex := numRestarts;
          return;
        }
        restartIndex := restartIndex - 1;
        if isHere {
          PointOrder(restartIndex, i);
        }
      }
      SeekToRestartPoint(restartIndex);
      ghost var j: nat := if isHere then points[restartIndex] else 0;
      var more := true;
      while more
        invariant restartIndex < numRestarts || !more
        invariant Valid() && !more ==> restartIndex < numRestarts && current < original
        invariant more ==> next < original
        invariant isHere ==>
                    corrupt == old(corrupt) && i <= |items| && if more then j < i && Before(j) else i > 0 && At(i - 1)
        decreases if more then 1 + (if next <= restarts then restarts - next else 0) else 0
      {
        if isHere {
          OffOrder(items, j + 1, i);
        }
        var ok := ParseNextKey(j);
        more := ok && next < original;
        if isHere && more {
          AtBefore(j);
          j := j + 1;
        }
      }
    }

    lemma FirstPoint()
      requires IsGood() && RestartsOk(items, points)
      ensures points[0] == 0
    {
    }

    lemma LastPoint()
      requires IsGood() && RestartsOk(items, points)
      ensures items != [] ==> points[|points| - 1] < |items|
    {
      hide Holds;
    }

    method SeekToFirst()
      requires Wired()
      modifies this
      ensures Valid() ==> restartIndex < numRestarts && next <= restarts
      ensures IsGood() && Layout(items) ==> corrupt == old(corrupt) && if items != [] then At(0) else !Valid()
    {
      hide Data, Holds, Off, DecodeFixed32, Layout, At;
      SeekToRestartPoint(0);
      var ok := ParseNextKey(0);
    }

    method SeekToLast()
      requires Wired()
      modifies this
      ensures Valid() ==> restartIndex < numRestarts
      ensures IsGood() && Layout(items) ==>
                corrupt == old(corrupt) && if items != [] then At(|items| - 1) else !Valid()
    {
      hide Data, Holds, Off, DecodeFixed32, RestartsOk, Layout, ItemBytes, Offsets;
      ghost var isHere := IsGood() && Layout(items);
      SeekToRestartPoint(numRestarts - 1);
      if isHere {
        LastPoint();
      }
      ghost var j: nat := if isHere then points[restartIndex] else 0;
      var more := true;
      while more
        invariant restartIndex < numRestarts || !more
        invariant Valid() && !more ==> restartIndex < numRestarts
        invariant isHere ==> corrupt == old(corrupt)
        invariant isHere ==> if more then Before(j) && (items != [] ==> j < |items|)
                             else if items != [] then At(|items| - 1) else !Valid()
        decreases if more then 1 + (if next <= restarts then restarts - next else 0) else 0
      {
        var ok := ParseNextKey(j);
        if isHere && ok {
          EntryAt(j);
          PointOrder(0, j + 1);
          AtBefore(j);
        }
        more := ok && next < restarts;
        if isHere && more {
          j := j + 1;
        }
      }
    }

    lemma AtKey(i: nat)
      requires Layout(items) && At(i)
      ensures Valid() && key == items[i].key && value == items[i].value && restartIndex < numRestarts
    {
      hide Off;
    }

    /** What the binary search reads at a restart point other than the first. */
    lemma RestartKey(r: nat)
      requires IsGood() && Layout(items) && RestartsOk(items, points) && 0 < r < |points|
      ensures r < numRestarts && points[r] < |items| && GetRestartPoint(r) <= restarts <= |data|
      ensures var d := DecodedEntry(data[GetRestartPoint(r)..restarts]);
              Inside(d) && d.shared == 0 && d.delta[..d.nonShared] == items[points[r]].key
    {
      hide Data, ItemBytes, Holds, Off, DecodeFixed32, Layout, DecodedEntry, Fits;
      var i := points[r];
      PointOrder(r, |items|);
      EntryAt(i);
      var tail := data[Off(items, i + 1)..restarts];
      EntryRoundTrip(items[i], tail);
      EntryDecoded(items[i], [], tail, DecodedEntry(data[GetRestartPoint(r)..restarts]));
    }

    /** The binary search of Seek: a restart point whose key is below the target, or the first one. */
    method FindRestartPoint(target: Bytes) returns (ok: bool, left: nat)
      requires Wired()
      modifies this
      ensures ok ==> left < numRestarts && unchanged(this)
      ensures !ok ==> !Valid()
      ensures IsGood() && Layout(items) && RestartsOk(items, points) ==>
                ok && left < |points|
                  && (left == 0 || (points[left] < |items| && order.Cmp(items[points[left]].key, target) < 0))
                  && (left + 1 < |points| ==>
                        points[left + 1] < |items| && order.Cmp(items[points[left + 1]].key, target) >= 0)
    {
      hide Data, ItemBytes, Holds, Off, DecodeFixed32, Layout, Order.Cmp, DecodedEntry, Fits, At, Before, RestartsOk;
      ghost var isHere := IsGood() && Layout(items) && RestartsOk(items, points);
      left := 0;
      var right: nat := numRestarts - 1;
      while left < right
        invariant left <= right < numRestarts && unchanged(this)
        invariant isHere ==> left == 0 || (points[left] < |items| && order.Cmp(items[points[left]].key, target) < 0)
        invariant isHere && right + 1 < |points| ==>
                    points[right + 1] < |items| && order.Cmp(items[points[right + 1]].key, target) >= 0
      {
        var mid := (left + right + 1) / 2;
        var regionOffset := GetRestartPoint(mid);
        if isHere {
          RestartKey(mid);
        }
        var d := DecodeEntry(if regionOffset <= restarts then data[regionOffset..restarts] else []);
        if !Inside(d) || d.shared != 0 {
          CorruptionError();
          return false, left;
        }
        var midKey := d.delta[..d.nonShared];
        if order.Cmp(midKey, target) < 0 {
          left := mid;
        } else {
          right := mid - 1;
        }
      }
      ok := true;
    }

    /** Positions the cursor at the first entry with a key at or after the target. */
    method Seek(target: Bytes) returns (ghost p: nat)
      requires Wired()
      modifies this
      ensures Valid() ==> restartIndex < numRestarts
      ensures IsGood() && Layout(items) && KeysSorted(order, items) ==>
                && corrupt == old(corrupt) && p <= |items|
                && (forall k :: 0 <= k < p ==> order.Cmp(items[k].key, target) < 0)
                && (if p < |items| then At(p) && order.Cmp(items[p].key, target) >= 0 else !Valid())
    {
      hide Data, Holds, Off, DecodeFixed32, RestartsOk, Layout, KeysSorted, Order.Cmp, At, Before;
      ghost var isHere := IsGood() && Layout(items) && KeysSorted(order, items);
      if isHere {
        Facts();
      }
      p := 0;
      var ok, left := FindRestartPoint(target);
      if !ok {
        return;
      }
      SeekToRestartPoint(left);
      if isHere {
        p := points[left];
        ScanFrom(left, target);
      }
      while true
        invariant restartIndex < numRestarts
        invariant isHere ==> corrupt == old(corrupt) && p <= |items| && Before(p)
        invariant isHere ==> forall k :: 0 <= k < p ==> order.Cmp(items[k].key, target) < 0
        decreases if next <= restarts then restarts - next else 0
      {
        ok := ParseNextKey(p);
        if isHere && ok {
          AtKey(p);
        }
        if !ok || order.Cmp(key, target) >= 0 {
          return;
        }
        if isHere {
          AtBefore(p);
          p := p + 1;
        }
      }
    }

    /** Nothing before the restart point the search found can be the answer. */
    lemma ScanFrom(left: nat, target: Bytes)
      requires IsGood() && Layout(items) && RestartsOk(items, points) && KeysSorted(order, items) && left < |points|
      requires left == 0 || (points[left] < |items| && order.Cmp(items[points[left]].key, target) < 0)
      ensures points[left] <= |items| && forall k :: 0 <= k < points[left] ==> order.Cmp(items[k].key, target) < 0
    {
      hide Data, Layout, KeysSorted, Order.Cmp;
      if left > 0 {
        EarlierBelow(order, items, points[left], target);
      }
    }
  }

  ghost predicate KeysSorted(order: Order, items: seq<Item>) {
    forall i, j :: 0 <= i < j < |items| ==> order.Cmp(items[i].key, items[j].key) < 0
  }

  lemma EarlierBelow(order: Order, items: seq<Item>, i: nat, target: Bytes)
    requires KeysSorted(order, items) && i < |items| && order.Cmp(items[i].key, target) < 0
    ensures forall k :: 0 <= k < i ==> order.Cmp(items[k].key, target) < 0
  {
    hide Order.Cmp;
    forall k | 0 <= k < i ensures order.Cmp(items[k].key, target) < 0 {
      CmpTransitive(order, items[k].key, items[i].key, target);
    }
  }

  lemma SliceAt(data: Bytes, end: nat, o: nat, m: nat, piece: Bytes)
    requires o <= m <= end <= |data| && data[..end][o..m] == piece
    ensures data[o..end] == piece + data[m..end]
  {
  }

  /** Putting the shared prefix and the delta together gives the entry. */
  lemma EntryDecoded(x: Item, before: Bytes, tail: Bytes, d: Decoded)
    requires x.shared <= |before| && x.shared <= |x.key| && before[..x.shared] == x.key[..x.shared]
    requires d == Decoded(x.shared, |x.key| - x.shared, |x.value|, x.key[x.shared..] + x.value + tail)
    ensures before[..d.shared] + d.delta[..d.nonShared] == x.key
    ensures d.delta[d.nonShared..d.nonShared + d.valueLength] == x.value
    ensures |d.delta| == d.nonShared + d.valueLength + |tail|
  {
    assert x.key[..x.shared] + x.key[x.shared..] == x.key;
  }

  // ---- Whole blocks ----------------------------------------------------------------------------

  function Pairs(items: seq<Item>): (r: seq<(Bytes, Bytes)>)
    ensures |r| == |items| && forall i :: 0 <= i < |r| ==> r[i] == (items[i].key, items[i].value)
  {
    seq(|items|, i requires 0 <= i < |items| => (items[i].key, items[i].value))
  }

  lemma BlockOpens(contents: Bytes, items: seq<Item>, points: seq<nat>)
    requires Holds(contents, items, points)
    ensures RestartOffset(contents) == Some(|Data(items)|) && |Data(items)| + 4 < |contents| && Layout(items)
  {
    hide Data, DecodeFixed32;
    BlockParts(contents, items, points);
  }

  /** Block::NewIterator: None for contents that are not a block or have no restart point. */
  method NewIterator(order: Order, contents: Bytes, ghost items: seq<Item>, ghost points: seq<nat>)
    returns (it: BlockIter?)
    ensures it != null ==>
              fresh(it) && it.Wired() && !it.Valid() && !it.corrupt && it.order == order && it.items == items
                && it.points == points
    ensures Holds(contents, items, points) ==> it != null && it.IsGood() && Layout(items)
  {
    hide Data, DecodeFixed32, Holds;
    if Holds(contents, items, points) {
      BlockOpens(contents, items, points);
    }
    var offset := RestartOffset(contents);
    if offset.None? || offset.value + 4 >= |contents| {
      return null;
    }
    it := new BlockIter(order, contents, items, points);
  }

  /** Reading a block from its first entry to its last gives exactly its pairs. */
  method ReadPairs(contents: Bytes, ghost items: seq<Item>, ghost points: seq<nat>) returns (pairs: seq<(Bytes, Bytes)>)
    ensures Holds(contents, items, points) ==> pairs == Pairs(items)
  {
    hide Holds, BlockIter.IsGood, BlockIter.Wired, BlockIter.At, Layout, Data;
    var it := NewIterator(Bytewise, contents, items, points);
    pairs := [];
    if it == null {
      return;
    }
    ghost var isHere := Holds(contents, items, points);
    it.SeekToFirst();
    if isHere && items != [] {
      it.AtKey(0);
    }
    while it.Valid()
      invariant fresh(it) && it.Wired() && it.items == items && (it.Valid() ==> it.restartIndex < it.numRestarts)
      invariant isHere ==> it.IsGood() && Layout(items) && |pairs| <= |items| && pairs == Pairs(items)[..|pairs|]
      invariant isHere ==> (it.Valid() <==> |pairs| < |items|) && (|pairs| < |items| ==> it.At(|pairs|))
      invariant it.Valid() ==> it.next <= it.restarts
      decreases if it.Valid() then 1 + it.restarts - it.next else 0
    {
      ghost var i := |pairs|;
      if isHere {
        it.AtKey(i);
      }
      pairs := pairs + [(it.key, it.value)];
      it.Next(i);
      if isHere && i + 1 < |items| {
        it.AtKey(i + 1);
      }
    }
  }

  /** Building a block of any pairs, with any restart interval, and reading it back gives the pairs. */
  method RoundTrip(pairs: seq<(Bytes, Bytes)>, interval: nat) returns (contents: Bytes, read: seq<(Bytes, Bytes)>)
    requires interval >= 1
    ensures |contents| < 0x1_0000_0000 ==> read == pairs
  {
    hide IsBlock, BlockBuilder.Valid;
    var builder := new BlockBuilder(interval);
    for i := 0 to |pairs|
      invariant fresh(builder) && builder.Valid() && Pairs(builder.items) == pairs[..i]
    {
      ghost var before := builder.items;
      builder.Add(pairs[i].0, pairs[i].1);
      assert builder.items[..i] == before;
      assert forall j :: 0 <= j < i ==> builder.items[j] == before[j];
    }
    contents := builder.Finish();
    read := ReadPairs(contents, builder.items, builder.points);
  }
}
