/** Building a table file from sorted pairs (table/table_builder.cc). */
module TableBuilding {
  import opened DbFormat
  import opened Coding
  import opened Comparator
  import opened Bloom
  import opened BlockFormat
  import opened LogFormat
  import opened FilterBlock
  import opened TableFormat
  import opened Tables

  // ---- What has been written so far --------------------------------------------------------------

  /** All written blocks are in the file; sizes are not limited yet. */
  ghost predicate AllStored(crc: Checksum, file: Bytes, blocks: seq<TableBlock>) {
    forall i :: 0 <= i < |blocks| ==>
      && blocks[i].items != []
      && StoredAt(crc, file, blocks[i].handle, blocks[i].contents)
      && IsBlock(blocks[i].contents, blocks[i].items, blocks[i].points)
  }

  /** Every index entry stands between its block and the next entry, which is there already. */
  ghost predicate IndexSoFar(o: Order, entries: seq<Pair>, blocks: seq<TableBlock>, index: seq<Item>) {
    && |index| <= |blocks|
    && forall i :: 0 <= i < |index| ==>
         && index[i].value == HandleBytes(blocks[i].handle)
         && 0 < blocks[i].Last() < |entries|
         && Separates(o, entries[blocks[i].Last() - 1].0, index[i].key, entries[blocks[i].Last()].0)
  }

  /** The state of a builder: `data` are the entries of the unfinished block. If the index entry of the last
      block is pending, there are none. */
  ghost predicate Built(o: Order, crc: Checksum, file: Bytes, entries: seq<Pair>, blocks: seq<TableBlock>,
                        data: seq<Item>, index: seq<Item>, pending: bool) {
    && Increasing(o, entries) && (forall g :: 0 <= g < |entries| ==> o.IsKey(entries[g].0))
    && |data| <= |entries| && Pairs(data) == entries[|entries| - |data|..]
    && BlocksCover(entries[..|entries| - |data|], blocks) && AllStored(crc, file, blocks)
    && IndexSoFar(o, entries, blocks, index)
    && |index| + (if pending then 1 else 0) == |blocks|
    && (pending ==> data == [])
  }

  lemma NothingBuilt(o: Order, crc: Checksum)
    ensures Built(o, crc, [], [], [], [], [], false)
  {
  }

  lemma IncreasingMore(o: Order, entries: seq<Pair>, e: Pair)
    requires Increasing(o, entries) && (entries != [] ==> o.Cmp(entries[|entries| - 1].0, e.0) < 0)
    ensures Increasing(o, entries + [e])
  {
    hide Order.Cmp;
    var all := entries + [e];
    forall i, j | 0 <= i < j < |all| ensures o.Cmp(all[i].0, all[j].0) < 0 {
      if j == |entries| && i < |entries| - 1 {
        CmpTransitive(o, entries[i].0, entries[|entries| - 1].0, e.0);
      }
    }
  }

  /** The data block with one entry more. */
  lemma PairsMore(entries: seq<Pair>, data: seq<Item>, e: Pair, data': seq<Item>)
    requires |data| <= |entries| && Pairs(data) == entries[|entries| - |data|..]
    requires data' != [] && data'[..|data'| - 1] == data && (data'[|data|].key, data'[|data|].value) == e
    ensures |data'| == |data| + 1 && Pairs(data') == (entries + [e])[|entries| - |data|..]
  {
    var n := |entries| - |data|;
    assert (entries + [e])[n..] == entries[n..] + [e];
    assert forall j :: 0 <= j < |data| ==> data'[j] == data[j];
    assert Pairs(data') == Pairs(data) + [e];
  }

  /** More entries leave the index entries that are there right. */
  lemma IndexStays(o: Order, entries: seq<Pair>, blocks: seq<TableBlock>, index: seq<Item>, e: Pair)
    requires IndexSoFar(o, entries, blocks, index)
    ensures IndexSoFar(o, entries + [e], blocks, index)
  {
    hide HandleBytes, Separates;
  }

  /** The pending index entry, once the entry behind the block is known. */
  lemma IndexMore(o: Order, entries: seq<Pair>, blocks: seq<TableBlock>, index: seq<Item>, x: Item)
    requires IndexSoFar(o, entries, blocks, index) && |index| < |blocks|
    requires x.value == HandleBytes(blocks[|index|].handle)
    requires 0 < blocks[|index|].Last() < |entries|
    requires Separates(o, entries[blocks[|index|].Last() - 1].0, x.key, entries[blocks[|index|].Last()].0)
    ensures IndexSoFar(o, entries, blocks, index + [x])
  {
    hide HandleBytes, Separates;
  }

  lemma KeysMore(o: Order, entries: seq<Pair>, e: Pair)
    requires (forall g :: 0 <= g < |entries| ==> o.IsKey(entries[g].0)) && o.IsKey(e.0)
    ensures forall g :: 0 <= g < |entries + [e]| ==> o.IsKey((entries + [e])[g].0)
  {
  }

  /** The pending index entry and the entry behind its block, added together. */
  lemma PendingAdded(o: Order, entries: seq<Pair>, blocks: seq<TableBlock>, index: seq<Item>, e: Pair, x: Item)
    requires IndexSoFar(o, entries, blocks, index) && BlocksCover(entries, blocks) && |index| + 1 == |blocks|
    requires entries != []
    requires x.value == HandleBytes(blocks[|index|].handle) && Separates(o, entries[|entries| - 1].0, x.key, e.0)
    ensures IndexSoFar(o, entries + [e], blocks, index + [x])
  {
    hide HandleBytes, Separates, BlocksCover, IndexSoFar;
    LastBlock(entries, blocks);
    IndexStays(o, entries, blocks, index, e);
    IndexMore(o, entries + [e], blocks, index, x);
  }

  /** One entry more, and with it the index entry that was pending. */
  lemma BuiltAdd(o: Order, crc: Checksum, file: Bytes, entries: seq<Pair>, blocks: seq<TableBlock>, data: seq<Item>,
                 index: seq<Item>, pending: bool, e: Pair, data': seq<Item>, index': seq<Item>)
    requires Built(o, crc, file, entries, blocks, data, index, pending)
    requires o.IsKey(e.0) && (entries != [] ==> o.Cmp(entries[|entries| - 1].0, e.0) < 0)
    requires data' != [] && data'[..|data'| - 1] == data && (data'[|data|].key, data'[|data|].value) == e
    requires !pending ==> index' == index
    requires pending ==>
               && entries != [] && index' != [] && index'[..|index'| - 1] == index && blocks != []
               && index'[|index|].value == HandleBytes(blocks[|blocks| - 1].handle)
               && Separates(o, entries[|entries| - 1].0, index'[|index|].key, e.0)
    ensures Built(o, crc, file, entries + [e], blocks, data', index', false)
  {
    hide Order.Cmp, HandleBytes, Separates, AllStored, Pairs, BlocksCover, Increasing, IndexSoFar, Order.IsKey;
    IncreasingMore(o, entries, e);
    KeysMore(o, entries, e);
    PairsMore(entries, data, e, data');
    assert (entries + [e])[..|entries| - |data|] == entries[..|entries| - |data|];
    if pending {
      assert entries[..|entries|] == entries;
      PendingAdded(o, entries, blocks, index, e, index'[|index|]);
      assert index' == index + [index'[|index|]];
    } else {
      IndexStays(o, entries, blocks, index, e);
    }
  }

  /** The last block ends with the entries it covers, and if it is not empty there are some. */
  lemma LastBlock(entries: seq<Pair>, blocks: seq<TableBlock>)
    requires BlocksCover(entries, blocks) && blocks != []
    ensures blocks[|blocks| - 1].Last() == |entries|
  {
  }

  lemma {:induction false} BlocksAscend(entries: seq<Pair>, blocks: seq<TableBlock>, i: nat, j: nat)
    requires BlocksCover(entries, blocks) && i < j < |blocks|
    ensures blocks[i].Last() <= blocks[j].first <= blocks[j].Last() <= |entries|
    decreases j
  {
    if i < j - 1 {
      BlocksAscend(entries, blocks, i, j - 1);
    }
  }

  lemma StoredMore(crc: Checksum, file: Bytes, blocks: seq<TableBlock>, b: TableBlock)
    requires AllStored(crc, file, blocks) && b.items != [] && IsBlock(b.contents, b.items, b.points)
    requires b.handle == BlockHandle(|file|, |b.contents|)
    ensures AllStored(crc, file + StoredBytes(crc, b.contents), blocks + [b])
  {
    hide StoredBytes, IsBlock, StoredAt;
    AllStayStored(crc, file, StoredBytes(crc, b.contents), blocks);
    NowStored(crc, file, b.contents);
  }

  lemma NowStored(crc: Checksum, file: Bytes, contents: Bytes)
    ensures StoredAt(crc, file + StoredBytes(crc, contents), BlockHandle(|file|, |contents|), contents)
  {
    hide StoredBytes;
    assert (file + StoredBytes(crc, contents))[|file|..] == StoredBytes(crc, contents);
  }

  lemma AllStayStored(crc: Checksum, file: Bytes, more: Bytes, blocks: seq<TableBlock>)
    requires AllStored(crc, file, blocks)
    ensures AllStored(crc, file + more, blocks)
  {
    hide StoredAt, IsBlock;
    forall i | 0 <= i < |blocks| ensures StoredAt(crc, file + more, blocks[i].handle, blocks[i].contents) {
      StaysStored(crc, file, more, blocks[i].handle, blocks[i].contents);
    }
  }

  lemma OffsetsBelow(crc: Checksum, file: Bytes, blocks: seq<TableBlock>)
    requires AllStored(crc, file, blocks)
    ensures forall i :: 0 <= i < |blocks| ==> blocks[i].handle.offset < |file|
  {
    hide StoredBytes, IsBlock;
  }

  /** Pairs of blocks that cover the first entries are pairs of all entries. */
  lemma SamePairs(entries: seq<Pair>, n: nat, b: TableBlock)
    requires n <= |entries| && b.Last() <= n && Pairs(b.items) == entries[..n][b.first..b.Last()]
    ensures Pairs(b.items) == entries[b.first..b.Last()]
  {
    hide Pairs;
    assert entries[..n][b.first..b.Last()] == entries[b.first..b.Last()];
  }

  lemma CoverMore(crc: Checksum, file: Bytes, entries: seq<Pair>, blocks: seq<TableBlock>, b: TableBlock)
    requires b.Last() == |entries| && b.handle.offset == |file| && Pairs(b.items) == entries[b.first..]
    requires BlocksCover(entries[..b.first], blocks) && AllStored(crc, file, blocks)
    ensures BlocksCover(entries, blocks + [b])
  {
    hide AllStored, Pairs;
    var before, all := entries[..b.first], blocks + [b];
    OffsetsBelow(crc, file, blocks);
    assert entries[b.first..|entries|] == entries[b.first..];
    forall i | 0 <= i < |blocks| ensures Pairs(blocks[i].items) == entries[blocks[i].first..blocks[i].Last()] {
      SamePairs(entries, b.first, blocks[i]);
    }
  }

  lemma IndexKeeps(o: Order, entries: seq<Pair>, blocks: seq<TableBlock>, index: seq<Item>, b: TableBlock)
    requires IndexSoFar(o, entries, blocks, index)
    ensures IndexSoFar(o, entries, blocks + [b], index)
  {
    hide HandleBytes, Separates;
  }

  /** A finished block is appended to the file; its index entry is pending. */
  lemma BuiltFlush(o: Order, crc: Checksum, file: Bytes, entries: seq<Pair>, blocks: seq<TableBlock>, data: seq<Item>,
                   index: seq<Item>, contents: Bytes, points: seq<nat>)
    requires Built(o, crc, file, entries, blocks, data, index, false) && data != [] && IsBlock(contents, data, points)
    ensures var b := TableBlock(BlockHandle(|file|, |contents|), contents, data, points, |entries| - |data|);
            Built(o, crc, file + StoredBytes(crc, contents), entries, blocks + [b], [], index, true)
  {
    hide Order.Cmp, HandleBytes, IsBlock, Separates, StoredBytes, AllStored, BlocksCover, Increasing, IndexSoFar;
    var b := TableBlock(BlockHandle(|file|, |contents|), contents, data, points, |entries| - |data|);
    StoredMore(crc, file, blocks, b);
    CoverMore(crc, file, entries, blocks, b);
    IndexKeeps(o, entries, blocks, index, b);
    assert entries[..|entries|] == entries && entries[|entries|..] == [];
  }

  // ---- What the finished file is -----------------------------------------------------------------

  lemma SoughtDecides(o: Order, a: Bytes, b: Bytes)
    requires Compare(o.Sought(a), o.Sought(b)) < 0
    ensures o.Cmp(a, b) < 0
  {
    hide Compare, UserPart;
  }

  /** Between the last key of a block and the next key there is nothing else: a key that separates the two separates
      all that comes before from all that comes after. */
  lemma SeparatorIsIndexKey(o: Order, entries: seq<Pair>, last: nat, key: Bytes)
    requires Increasing(o, entries) && 0 < last <= |entries|
    requires last < |entries| ==> Separates(o, entries[last - 1].0, key, entries[last].0)
    requires last == |entries| ==>
               key == entries[last - 1].0 || Compare(o.Sought(entries[last - 1].0), o.Sought(key)) < 0
    ensures IndexKeyOk(o, entries, last, key)
  {
    hide Order.Cmp, Order.Sought, Compare, Order.IsKey;
    var end := entries[last - 1].0;
    CmpOpposite(o, end, end);
    if key != end {
      SoughtDecides(o, end, key);
    }
    forall g | 0 <= g < last ensures o.Cmp(entries[g].0, key) <= 0 {
      if g < last - 1 {
        CmpTransitive(o, entries[g].0, end, key);
      }
    }
    forall g | last <= g < |entries|
      ensures o.Cmp(key, entries[g].0) < 0
      ensures key == end || Compare(o.Sought(key), o.Sought(entries[g].0)) < 0
    {
      BeyondSeparator(o, entries, last, key, g);
    }
  }

  lemma BeyondSeparator(o: Order, entries: seq<Pair>, last: nat, key: Bytes, g: nat)
    requires Increasing(o, entries) && 0 < last <= g < |entries|
    requires Separates(o, entries[last - 1].0, key, entries[last].0)
    ensures o.Cmp(key, entries[g].0) < 0
    ensures key == entries[last - 1].0 || Compare(o.Sought(key), o.Sought(entries[g].0)) < 0
  {
    hide Order.Cmp, Order.Sought, Compare, Order.IsKey;
    if key != entries[last - 1].0 {
      var x, y, z := o.Sought(key), o.Sought(entries[last].0), o.Sought(entries[g].0);
      if g > last {
        CmpSought(o, entries[last].0, entries[g].0);
        CompareIsOrder(y, z);
        if y != z {
          CompareTransitive(x, y, z);
        }
      }
      SoughtDecides(o, key, entries[g].0);
    }
  }

  /** The index entries of all blocks, the last one under a key at or after the last key. */
  ghost predicate IndexComplete(o: Order, entries: seq<Pair>, blocks: seq<TableBlock>, index: seq<Item>) {
    && |index| == |blocks|
    && (index != [] ==>
          && entries != []
          && IndexSoFar(o, entries, blocks, index[..|index| - 1])
          && index[|index| - 1].value == HandleBytes(blocks[|blocks| - 1].handle)
          && var end, key := entries[|entries| - 1].0, index[|index| - 1].key;
             key == end || Compare(o.Sought(end), o.Sought(key)) < 0)
  }

  lemma IndexEntryOk(o: Order, crc: Checksum, file: Bytes, entries: seq<Pair>, blocks: seq<TableBlock>,
                     index: seq<Item>, i: nat)
    requires Increasing(o, entries) && BlocksCover(entries, blocks) && AllStored(crc, file, blocks)
    requires IndexComplete(o, entries, blocks, index) && i < |index|
    ensures index[i].value == HandleBytes(blocks[i].handle) && 0 < blocks[i].Last() <= |entries|
    ensures IndexKeyOk(o, entries, blocks[i].Last(), index[i].key)
  {
    hide Order.Cmp, Order.Sought, Compare, HandleBytes, Separates, IndexKeyOk, StoredAt, IsBlock, Increasing;
    LastBlock(entries, blocks);
    if i < |index| - 1 {
      assert index[..|index| - 1][i] == index[i];
    }
    SeparatorIsIndexKey(o, entries, blocks[i].Last(), index[i].key);
  }

  lemma CompleteIsIndex(o: Order, crc: Checksum, file: Bytes, entries: seq<Pair>, blocks: seq<TableBlock>,
                        index: seq<Item>)
    requires Increasing(o, entries) && BlocksCover(entries, blocks) && AllStored(crc, file, blocks)
    requires IndexComplete(o, entries, blocks, index)
    ensures IsIndex(o, entries, blocks, index)
  {
    hide Order.Cmp, HandleBytes, IndexKeyOk, StoredAt, IsBlock, Increasing, IndexComplete, BlocksCover;
    assert |index| == |blocks| by { CompleteLength(o, entries, blocks, index); }
    forall i | 0 <= i < |index|
      ensures index[i].value == HandleBytes(blocks[i].handle) && 0 < blocks[i].Last() <= |entries|
      ensures IndexKeyOk(o, entries, blocks[i].Last(), index[i].key)
    {
      IndexEntryOk(o, crc, file, entries, blocks, index, i);
    }
    forall i, j | 0 <= i < j < |index| ensures o.Cmp(index[i].key, index[j].key) < 0 {
      BlocksAscend(entries, blocks, i, j);
      KeysAscend(o, entries, blocks[i].Last(), index[i].key, blocks[j].Last(), index[j].key);
    }
  }

  lemma CompleteLength(o: Order, entries: seq<Pair>, blocks: seq<TableBlock>, index: seq<Item>)
    requires IndexComplete(o, entries, blocks, index)
    ensures |index| == |blocks|
  {
  }

  /** There is an entry between two index keys. */
  lemma KeysAscend(o: Order, entries: seq<Pair>, a: nat, keyA: Bytes, b: nat, keyB: Bytes)
    requires a < b <= |entries| && IndexKeyOk(o, entries, a, keyA) && IndexKeyOk(o, entries, b, keyB)
    ensures o.Cmp(keyA, keyB) < 0
  {
    hide Order.Cmp, Order.Sought, Compare;
    CmpTransitive(o, keyA, entries[a].0, keyB);
  }

  lemma AllInRange(crc: Checksum, file: Bytes, blocks: seq<TableBlock>)
    requires AllStored(crc, file, blocks) && |file| < 0x1_0000_0000
    ensures forall i :: 0 <= i < |blocks| ==> BlockStored(crc, file, blocks[i])
  {
    hide StoredBytes, IsBlock;
  }

  /** Contents written in the middle of a file are stored in it. */
  lemma StoredWithin(crc: Checksum, before: Bytes, contents: Bytes, after: Bytes)
    ensures StoredAt(crc, before + StoredBytes(crc, contents) + after, BlockHandle(|before|, |contents|), contents)
  {
    hide StoredBytes, StoredAt;
    NowStored(crc, before, contents);
    StaysStored(crc, before + StoredBytes(crc, contents), after, BlockHandle(|before|, |contents|), contents);
  }

  /** The bytes of the filter block, if there is one. */
  ghost function FilterBytes(crc: Checksum, filter: Option<FilterPart>): Bytes {
    if filter.None? then [] else StoredBytes(crc, filter.value.contents)
  }

  /** What the builder knows about its filter: it matches, and has every key under its block's offset. */
  ghost predicate FilterBuilt(opt: TableOptions, base: Bytes, entries: seq<Pair>, blocks: seq<TableBlock>,
                              filter: Option<FilterPart>)
    requires BlocksCover(entries, blocks)
  {
    filter.Some? ==>
      && opt.policy.Some? && filter.value.handle == BlockHandle(|base|, |filter.value.contents|)
      && IsFilterBlock(filter.value.contents, filter.value.data, filter.value.offsets)
      && FiltersMatch(opt.policy.value, opt.order, filter.value.data, filter.value.offsets, filter.value.groups)
      && FilterCovers(entries, blocks, filter.value.groups)
  }

  /** The pieces of the file in their order: data blocks, filter block, metaindex, index, footer. */
  lemma PiecesMakeTable(opt: TableOptions, base: Bytes, p: TableParts, file: Bytes)
    requires Increasing(opt.order, p.entries) && BlocksCover(p.entries, p.blocks) && AllStored(opt.crc, base, p.blocks)
    requires IndexComplete(opt.order, p.entries, p.blocks, p.index.items)
    requires FilterBuilt(opt, base, p.entries, p.blocks, p.filter) && MetaOk(opt.policyName, p.meta.items, p.filter)
    requires IsBlock(p.meta.contents, p.meta.items, p.meta.points)
    requires IsBlock(p.index.contents, p.index.items, p.index.points)
    requires p.meta.handle == BlockHandle(|base| + |FilterBytes(opt.crc, p.filter)|, |p.meta.contents|)
    requires p.index.handle ==
               BlockHandle(p.meta.handle.offset + |StoredBytes(opt.crc, p.meta.contents)|, |p.index.contents|)
    requires file == base + FilterBytes(opt.crc, p.filter) + StoredBytes(opt.crc, p.meta.contents)
                     + StoredBytes(opt.crc, p.index.contents) + FooterBytes(p.meta.handle, p.index.handle)
    ensures |file| < 0x1_0000_0000 ==> IsTable(opt, file, p)
  {
    hide StoredBytes, StoredAt, FooterBytes, Increasing, BlocksCover, IsIndex, IndexComplete, AllStored, MetaOk,
      IsBlock, FilterBytes, IsFilterBlock, FiltersMatch, FilterCovers;
    if |file| < 0x1_0000_0000 {
      var filterBytes, metaBytes := FilterBytes(opt.crc, p.filter), StoredBytes(opt.crc, p.meta.contents);
      var indexBytes, footer := StoredBytes(opt.crc, p.index.contents), FooterBytes(p.meta.handle, p.index.handle);
      assert file == base + (filterBytes + metaBytes + indexBytes + footer);
      AllStayStored(opt.crc, base, filterBytes + metaBytes + indexBytes + footer, p.blocks);
      AllInRange(opt.crc, file, p.blocks);
      CompleteIsIndex(opt.order, opt.crc, file, p.entries, p.blocks, p.index.items);
      assert file == base + filterBytes + metaBytes + (indexBytes + footer);
      StoredWithin(opt.crc, base + filterBytes, p.meta.contents, indexBytes + footer);
      assert file == base + filterBytes + metaBytes + indexBytes + footer;
      StoredWithin(opt.crc, base + filterBytes + metaBytes, p.index.contents, footer);
      SmallHolds(opt.crc, file, p.meta);
      SmallHolds(opt.crc, file, p.index);
      if p.filter.Some? {
        assert file == base + filterBytes + (metaBytes + indexBytes + footer);
        FilterStored(opt, base, p.filter, metaBytes + indexBytes + footer);
      }
      assert file[|file| - FOOTER_SIZE..] == footer;
    }
  }

  lemma SmallHolds(crc: Checksum, file: Bytes, b: TableBlock)
    requires StoredAt(crc, file, b.handle, b.contents) && IsBlock(b.contents, b.items, b.points)
    requires |file| < 0x1_0000_0000
    ensures BlockStored(crc, file, b)
  {
    hide StoredBytes, IsBlock;
  }

  lemma FilterStored(opt: TableOptions, base: Bytes, filter: Option<FilterPart>, after: Bytes)
    requires filter.Some? && filter.value.handle == BlockHandle(|base|, |filter.value.contents|)
    ensures var file := base + FilterBytes(opt.crc, filter) + after;
            StoredAt(opt.crc, file, filter.value.handle, filter.value.contents) && |filter.value.contents| <= |file|
  {
    hide StoredAt, StoredBytes;
    StoredWithin(opt.crc, base, filter.value.contents, after);
  }

  // ---- The filter while building -----------------------------------------------------------------

  /** The filter has, or will have, every key under the offset of its block; the keys from `flushed` on belong to
      the block that will begin at `offset`. */
  ghost predicate FilterSoFar(fb: FilterBlockBuilder, entries: seq<Pair>, blocks: seq<TableBlock>, flushed: nat,
                              offset: nat)
    reads fb
  {
    && fb.Valid() && |fb.groups| == offset / FILTER_BASE
    && (forall i :: 0 <= i < |blocks| ==> blocks[i].Last() <= |entries|)
    && (forall i, g :: 0 <= i < |blocks| && blocks[i].first <= g < blocks[i].Last() ==>
          fb.Covers(blocks[i].handle.offset, entries[g].0))
    && (forall g :: flushed <= g < |entries| ==> fb.Covers(offset, entries[g].0))
  }

  method StartFilter(fb: FilterBlockBuilder)
    requires fb.Valid() && fb.groups == []
    modifies fb
    ensures FilterSoFar(fb, [], [], 0, 0)
  {
    hide FilterBlockBuilder.Valid, FilterBlockBuilder.Covers;
    fb.StartBlock(0);
  }

  method FilterAdd(fb: FilterBlockBuilder, ghost entries: seq<Pair>, ghost blocks: seq<TableBlock>, ghost flushed: nat,
                   ghost offset: nat, key: Bytes, ghost value: Bytes)
    requires FilterSoFar(fb, entries, blocks, flushed, offset)
    modifies fb
    ensures FilterSoFar(fb, entries + [(key, value)], blocks, flushed, offset)
  {
    hide FilterBlockBuilder.Valid, FilterBlockBuilder.Covers;
    fb.AddKey(key);
  }

  method FilterFlush(fb: FilterBlockBuilder, ghost entries: seq<Pair>, ghost blocks: seq<TableBlock>,
                     ghost b: TableBlock, offset: nat)
    requires FilterSoFar(fb, entries, blocks, b.first, b.handle.offset)
    requires b.Last() == |entries| && b.handle.offset <= offset
    modifies fb
    ensures FilterSoFar(fb, entries, blocks + [b], |entries|, offset)
  {
    hide FilterBlockBuilder.Valid, FilterBlockBuilder.Covers;
    GroupsGrow(b.handle.offset, offset);
    fb.StartBlock(offset);
  }

  lemma GroupsGrow(a: nat, b: nat)
    requires a <= b
    ensures a / FILTER_BASE <= b / FILTER_BASE
  {
  }

  // ---- The builder -------------------------------------------------------------------------------

  class TableBuilder {
    const options: TableOptions
    const blockSize: nat
    const blockRestartInterval: nat
    const dataBlock: BlockBuilder
    const indexBlock: BlockBuilder
    const filterBlock: FilterBlockBuilder?
    var file: Bytes
    var offset: nat
    var lastKey: Bytes
    var closed: bool
    var pendingIndexEntry: bool
    var pendingHandle: BlockHandle
    ghost var entries: seq<Pair>
    ghost var blocks: seq<TableBlock>

    ghost predicate Wired()
      reads this, dataBlock, indexBlock
    {
      && dataBlock != indexBlock && dataBlock.Valid() && indexBlock.Valid()
      && dataBlock.interval == blockRestartInterval >= 1 && indexBlock.interval == 1
      && (filterBlock == null <==> options.policy.None?)
      && (filterBlock != null ==> filterBlock.policy == options.policy.value && filterBlock.order == options.order)
    }

    /** The file holds the blocks so far; `entries` are all pairs that were added. */
    ghost predicate Valid()
      reads this, dataBlock, indexBlock, filterBlock
    {
      && Wired() && offset == |file|
      && (forall i :: 0 <= i < |blocks| ==> Compressed(blocks[i].items, blocks[i].points, blockRestartInterval))
      && Built(options.order, options.crc, file, entries, blocks, dataBlock.items, indexBlock.items, pendingIndexEntry)
      && (entries != [] ==> lastKey == entries[|entries| - 1].0)
      && (pendingIndexEntry ==> blocks != [] && pendingHandle == blocks[|blocks| - 1].handle && entries != [])
      && (filterBlock != null ==> FilterSoFar(filterBlock, entries, blocks, |entries| - |dataBlock.items|, offset))
    }

    constructor (options: TableOptions, blockSize: nat, blockRestartInterval: nat)
      requires blockRestartInterval >= 1 && (options.policy.Some? ==> options.policy.value.Valid())
      ensures Valid() && entries == [] && !closed && this.options == options && this.blockSize == blockSize
      ensures dataBlock.items == [] && offset == 0
      ensures fresh(dataBlock) && fresh(indexBlock) && (filterBlock != null ==> fresh(filterBlock))
    {
      hide Built, Compressed, BlockBuilder.Valid, FilterBlockBuilder.Valid, FilterBlockBuilder.Covers, FilterSoFar,
        BloomPolicy.Valid;
      this.options, this.blockSize, this.blockRestartInterval := options, blockSize, blockRestartInterval;
      dataBlock := new BlockBuilder(blockRestartInterval);
      indexBlock := new BlockBuilder(1);
      if options.policy.Some? {
        filterBlock := new FilterBlockBuilder(options.policy.value, options.order);
      } else {
        filterBlock := null;
      }
      file, offset, lastKey, closed := [], 0, [], false;
      pendingIndexEntry, pendingHandle := false, BlockHandle(0, 0);
      entries, blocks := [], [];
      new;
      NothingBuilt(options.order, options.crc);
      if filterBlock != null {
        StartFilter(filterBlock);
      }
    }

    /** TableBuilder::FileSize: finished blocks only. */
    function FileSize(): nat
      reads this
    {
      offset
    }

    /** Appends contents, type and checksum. */
    method WriteRawBlock(contents: Bytes) returns (handle: BlockHandle)
      modifies this`file, this`offset
      ensures handle == BlockHandle(old(offset), |contents|)
      ensures file == old(file) + StoredBytes(options.crc, contents)
      ensures offset == old(offset) + |StoredBytes(options.crc, contents)|
    {
      hide Fixed32, Mask;
      handle := BlockHandle(offset, |contents|);
      file := file + contents;
      var trailer := [NO_COMPRESSION];
      trailer := trailer + Fixed32(Mask(options.crc(contents + [NO_COMPRESSION])));
      file := file + trailer;
      assert file == old(file) + StoredBytes(options.crc, contents);
      offset := offset + |contents| + BLOCK_TRAILER_SIZE;
    }

    /** TableBuilder::Add; keys must be added in increasing order. `estimate` is the size of the block with the new
        pair: from blockSize on the block goes to the file. */
    method Add(key: Bytes, value: Bytes) returns (ghost estimate: nat)
      requires Valid() && !closed && options.order.IsKey(key)
      requires entries != [] ==> options.order.Cmp(entries[|entries| - 1].0, key) < 0
      modifies this, dataBlock, indexBlock, filterBlock
      ensures Valid() && !closed && entries == old(entries) + [(key, value)]
      ensures estimate >= old(dataBlock.CurrentSizeEstimate()) + 3
      ensures old(dataBlock.items) == [] ==> estimate == 8 + |ItemBytes(Item(0, key, value))|
      ensures estimate < blockSize ==> offset == old(offset) && dataBlock.CurrentSizeEstimate() == estimate
      ensures estimate >= blockSize ==> offset == old(offset) + estimate + BLOCK_TRAILER_SIZE
    {
      hide Built, BlockBuilder.Valid, BlockBuilder.CurrentSizeEstimate, Order.Cmp, Separates, HandleBytes, FilterSoFar,
        ItemBytes, Compressed;
      ghost var data, index := dataBlock.items, indexBlock.items;
      ghost var pending := pendingIndexEntry;
      BuiltFacts(options.order, options.crc, file, entries, blocks, data, index, pending);
      if pendingIndexEntry {
        AddIndexEntry(key);
      }
      if filterBlock != null {
        FilterAdd(filterBlock, entries, blocks, |entries| - |data|, offset, key, value);
      }
      lastKey := key;
      dataBlock.Add(key, value);
      BuiltAdd(options.order, options.crc, file, entries, blocks, data, index, pending, (key, value), dataBlock.items,
               indexBlock.items);
      entries := entries + [(key, value)];
      var estimatedBlockSize := dataBlock.CurrentSizeEstimate();
      estimate := estimatedBlockSize;
      if estimatedBlockSize >= blockSize {
        Flush();
      }
    }

    /** The index entry of the last block, now that the next key is known. */
    method AddIndexEntry(key: Bytes)
      requires indexBlock.Valid() && options.order.IsKey(lastKey) && options.order.IsKey(key)
      modifies this`lastKey, this`pendingIndexEntry, indexBlock
      ensures indexBlock.Valid() && !pendingIndexEntry
      ensures var items := indexBlock.items;
              && items != [] && items[..|items| - 1] == old(indexBlock.items)
              && items[|items| - 1].value == HandleBytes(pendingHandle)
              && Separates(options.order, old(lastKey), items[|items| - 1].key, key)
              && IsShortestSeparator(options.order, old(lastKey), items[|items| - 1].key, key)
    {
      hide BlockBuilder.Valid, Separates, HandleBytes, Order.IsKey, IsShortestSeparator;
      lastKey := FindShortestSeparator(options.order, lastKey, key);
      var handleEncoding := EncodeHandle(pendingHandle);
      indexBlock.Add(lastKey, handleEncoding);
      pendingIndexEntry := false;
    }

    /** TableBuilder::Flush: the block under construction, unless it is empty, goes to the file. */
    method Flush()
      requires Valid()
      modifies this, dataBlock, filterBlock
      ensures Valid() && entries == old(entries) && closed == old(closed)
      ensures dataBlock.items == [] && indexBlock.items == old(indexBlock.items)
      ensures offset ==
                old(offset) +
                  if old(dataBlock.items) == [] then 0 else old(dataBlock.CurrentSizeEstimate()) + BLOCK_TRAILER_SIZE
    {
      hide Built, BlockBuilder.Valid, BlockFormat.Layout, RestartsOk, Offsets, Data, Order.Cmp, StoredBytes,
        FilterSoFar, IsBlock, BlockBuilder.CurrentSizeEstimate, Compressed;
      dataBlock.EmptyMeans();
      if dataBlock.Empty() {
        return;
      }
      ghost var data, points := dataBlock.items, dataBlock.points;
      BuiltFacts(options.order, options.crc, file, entries, blocks, data, indexBlock.items, pendingIndexEntry);
      ghost var raw := WriteDataBlock();
      ghost var b := TableBlock(pendingHandle, raw, data, points, |entries| - |data|);
      BuiltFlush(options.order, options.crc, old(file), entries, blocks, data, indexBlock.items, raw, points);
      pendingIndexEntry := true;
      if filterBlock != null {
        FilterFlush(filterBlock, entries, blocks, b, offset);
      }
      blocks := blocks + [b];
    }

    /** WriteBlock for the data block. */
    method WriteDataBlock() returns (ghost raw: Bytes)
      requires dataBlock.Valid() && dataBlock.interval >= 1
      modifies this`file, this`offset, this`pendingHandle, dataBlock
      ensures dataBlock.Valid() && dataBlock.items == []
      ensures IsBlock(raw, old(dataBlock.items), old(dataBlock.points)) && |raw| == old(dataBlock.CurrentSizeEstimate())
      ensures Compressed(old(dataBlock.items), old(dataBlock.points), dataBlock.interval)
      ensures file == old(file) + StoredBytes(options.crc, raw) && offset == old(offset) + |raw| + BLOCK_TRAILER_SIZE
      ensures pendingHandle == BlockHandle(old(offset), |raw|)
    {
      hide BlockBuilder.Valid, BlockBuilder.CurrentSizeEstimate, IsBlock, StoredBytes, Compressed;
      var contents := dataBlock.Finish();
      raw := contents;
      pendingHandle := WriteRawBlock(contents);
      dataBlock.Reset();
    }

    /** TableBuilder::Finish: the file is a table of exactly the pairs that were added. */
    method Finish() returns (ghost parts: TableParts)
      requires Valid() && !closed
      modifies this, dataBlock, indexBlock, filterBlock
      ensures closed && parts.entries == old(entries) && FileSize() == |file|
      ensures |file| < 0x1_0000_0000 ==> IsTable(options, file, parts)
      ensures parts.filter.Some? <==> options.policy.Some?
      ensures Compressed(parts.index.items, parts.index.points, 1)
      ensures forall i :: 0 <= i < |parts.blocks| ==>
                Compressed(parts.blocks[i].items, parts.blocks[i].points, blockRestartInterval)
    {
      hide Built, BlockBuilder.Valid, BlockFormat.Layout, RestartsOk, Offsets, Data, Order.Cmp, StoredBytes,
        FilterSoFar, IsBlock, BlocksCover, AllStored, Increasing, IndexComplete, FilterBuilt, MetaOk, FooterBytes,
        IsTable, HandleBytes, FilterBytes, Compressed;
      Flush();
      closed := true;
      BuiltDone(options.order, options.crc, file, entries, blocks, indexBlock.items, pendingIndexEntry);
      ghost var base := file;
      var filterHandle, metaHandle, indexHandle;
      ghost var filter, meta, index;
      filterHandle, filter := WriteFilterBlock();
      metaHandle, meta := WriteMetaindex(filterHandle, filter);
      indexHandle, index := WriteIndex();
      var footer := EncodeFooter(metaHandle, indexHandle);
      file := file + footer;
      offset := offset + |footer|;
      parts := TableParts(entries, blocks, index, meta, filter);
      PiecesMakeTable(options, base, parts, file);
    }

    method WriteFilterBlock() returns (handle: BlockHandle, ghost filter: Option<FilterPart>)
      requires BlocksCover(entries, blocks) && offset == |file|
      requires filterBlock != null ==>
                 && FilterSoFar(filterBlock, entries, blocks, |entries|, offset)
                 && options.policy == Some(filterBlock.policy) && filterBlock.order == options.order
      modifies this`file, this`offset, filterBlock
      ensures FilterBuilt(options, old(file), entries, blocks, filter) && (filter.None? <==> filterBlock == null)
      ensures file == old(file) + FilterBytes(options.crc, filter) && offset == |file|
      ensures filter.Some? ==> handle == filter.value.handle
    {
      hide StoredBytes, IsFilterBlock, FiltersMatch, BlocksCover, FilterBlockBuilder.Valid, FilterBlockBuilder.Covers;
      handle, filter := BlockHandle(0, 0), None;
      if filterBlock != null {
        var contents;
        ghost var data, offsets;
        contents, data, offsets := filterBlock.Finish();
        handle := WriteRawBlock(contents);
        ghost var groups := filterBlock.groups;
        forall i, g | 0 <= i < |blocks| && blocks[i].first <= g < blocks[i].Last()
          ensures g < |entries| && InGroup(groups, blocks[i].handle.offset, entries[g].0)
        {
          assert blocks[i].Last() <= |entries| && old(filterBlock.Covers(blocks[i].handle.offset, entries[g].0));
        }
        filter := Some(FilterPart(handle, contents, data, offsets, groups));
        assert FilterCovers(entries, blocks, groups);
      } else {
        assert file + [] == file;
      }
    }

    method WriteMetaindex(filterHandle: BlockHandle, ghost filter: Option<FilterPart>)
      returns (handle: BlockHandle, ghost meta: TableBlock)
      requires filter.None? <==> filterBlock == null
      requires filter.Some? ==> filterHandle == filter.value.handle
      requires blockRestartInterval >= 1
      modifies this`file, this`offset
      ensures MetaOk(options.policyName, meta.items, filter) && IsBlock(meta.contents, meta.items, meta.points)
      ensures handle == meta.handle == BlockHandle(old(offset), |meta.contents|)
      ensures file == old(file) + StoredBytes(options.crc, meta.contents)
      ensures offset == old(offset) + |StoredBytes(options.crc, meta.contents)|
    {
      hide StoredBytes, IsBlock, HandleBytes, BlockBuilder.Valid, FilterKey;
      var metaIndexBlock := new BlockBuilder(blockRestartInterval);
      if filterBlock != null {
        var handleEncoding := EncodeHandle(filterHandle);
        metaIndexBlock.Add(FilterKey(options.policyName), handleEncoding);
      }
      ghost var items, points := metaIndexBlock.items, metaIndexBlock.points;
      var contents := metaIndexBlock.Finish();
      handle := WriteRawBlock(contents);
      meta := TableBlock(handle, contents, items, points, 0);
    }

    method WriteIndex() returns (handle: BlockHandle, ghost index: TableBlock)
      requires indexBlock.Valid()
      requires IndexSoFar(options.order, entries, blocks, indexBlock.items)
      requires |indexBlock.items| + (if pendingIndexEntry then 1 else 0) == |blocks|
      requires blocks != [] ==> pendingIndexEntry
      requires pendingIndexEntry ==>
                 && blocks != [] && pendingHandle == blocks[|blocks| - 1].handle
                 && entries != [] && lastKey == entries[|entries| - 1].0 && options.order.IsKey(lastKey)
      modifies this`file, this`offset, this`lastKey, this`pendingIndexEntry, indexBlock
      ensures IndexComplete(options.order, entries, blocks, index.items)
      ensures IsBlock(index.contents, index.items, index.points)
      ensures Compressed(index.items, index.points, indexBlock.interval)
      ensures old(pendingIndexEntry) ==>
                index.items != [] && IsShortSuccessor(options.order, old(lastKey), index.items[|index.items| - 1].key)
      ensures handle == index.handle == BlockHandle(old(offset), |index.contents|)
      ensures offset == old(offset) + |StoredBytes(options.crc, index.contents)|
      ensures file == old(file) + StoredBytes(options.crc, index.contents)
    {
      hide StoredBytes, IsBlock, HandleBytes, BlockBuilder.Valid, IndexSoFar, Order.Sought, Compare, Order.IsKey,
        Compressed, IsShortSuccessor;
      if pendingIndexEntry {
        lastKey := FindShortSuccessor(options.order, lastKey);
        var handleEncoding := EncodeHandle(pendingHandle);
        indexBlock.Add(lastKey, handleEncoding);
        pendingIndexEntry := false;
      }
      ghost var items, points := indexBlock.items, indexBlock.points;
      var contents := indexBlock.Finish();
      handle := WriteRawBlock(contents);
      index := TableBlock(handle, contents, items, points, 0);
    }
  }

  /** Footer::EncodeTo. */
  method EncodeFooter(meta: BlockHandle, index: BlockHandle) returns (r: Bytes)
    ensures r == FooterBytes(meta, index)
  {
    hide Fixed32, HandleBytes;
    HandleLength(meta);
    HandleLength(index);
    var first := EncodeHandle(meta);
    var second := EncodeHandle(index);
    r := first + second;
    r := r + seq(40 - |r|, _ => 0); // dst->resize: padding
    r := r + Fixed32(MAGIC_LOW);
    r := r + Fixed32(MAGIC_HIGH);
    assert r == first + second + seq(40 - |first + second|, _ => 0) + (Fixed32(MAGIC_LOW) + Fixed32(MAGIC_HIGH));
  }

  lemma BuiltFacts(o: Order, crc: Checksum, file: Bytes, entries: seq<Pair>, blocks: seq<TableBlock>, data: seq<Item>,
                   index: seq<Item>, pending: bool)
    requires Built(o, crc, file, entries, blocks, data, index, pending)
    ensures |data| <= |entries| && (pending ==> data == []) && (data != [] ==> !pending)
    ensures entries != [] ==> o.IsKey(entries[|entries| - 1].0)
  {
  }

  /** When no entry is left in the block under construction, the blocks cover everything and the last one's index
      entry is pending. */
  lemma BuiltDone(o: Order, crc: Checksum, file: Bytes, entries: seq<Pair>, blocks: seq<TableBlock>, index: seq<Item>,
                  pending: bool)
    requires Built(o, crc, file, entries, blocks, [], index, pending)
    ensures Increasing(o, entries) && BlocksCover(entries, blocks) && AllStored(crc, file, blocks)
    ensures IndexSoFar(o, entries, blocks, index) && |index| + (if pending then 1 else 0) == |blocks|
    ensures blocks != [] ==> pending
    ensures entries != [] ==> o.IsKey(entries[|entries| - 1].0)
  {
    hide Order.Cmp, HandleBytes, Separates, StoredAt, IsBlock, Increasing, Pairs;
    assert entries[..|entries|] == entries;
    if blocks != [] {
      LastBlock(entries, blocks);
    }
  }

  /** A table file of the pairs. */
  method BuildTable(options: TableOptions, blockSize: nat, blockRestartInterval: nat, pairs: seq<Pair>)
    returns (file: Bytes, ghost parts: TableParts)
    requires blockRestartInterval >= 1 && (options.policy.Some? ==> options.policy.value.Valid())
    requires Increasing(options.order, pairs) && forall i :: 0 <= i < |pairs| ==> options.order.IsKey(pairs[i].0)
    ensures parts.entries == pairs && (|file| < 0x1_0000_0000 ==> IsTable(options, file, parts))
  {
    hide IsTable, TableBuilder.Valid, Order.Cmp, Order.IsKey;
    var builder := new TableBuilder(options, blockSize, blockRestartInterval);
    for i := 0 to |pairs|
      invariant fresh(builder) && fresh(builder.dataBlock) && fresh(builder.indexBlock)
      invariant builder.filterBlock != null ==> fresh(builder.filterBlock)
      invariant builder.Valid() && !builder.closed && builder.options == options && builder.entries == pairs[..i]
    {
      ghost var estimate := builder.Add(pairs[i].0, pairs[i].1);
    }
    parts := builder.Finish();
    assert pairs[..|pairs|] == pairs;
    file := builder.file;
  }

  /** Building a table of any increasing pairs, opening it and looking up any key finds what a linear scan finds. */
  method BuildAndGet(options: TableOptions, blockSize: nat, blockRestartInterval: nat, pairs: seq<Pair>,
                     paranoidChecks: bool, verifyChecksums: bool, k: Bytes)
    returns (size: nat, isOpen: bool, hit: Option<Pair>)
    requires blockRestartInterval >= 1 && (options.policy.Some? ==> options.policy.value.Valid())
    requires Increasing(options.order, pairs) && forall i :: 0 <= i < |pairs| ==> options.order.IsKey(pairs[i].0)
    ensures size < 0x1_0000_0000 ==> isOpen && Answers(options.order, pairs, k, hit)
  {
    hide Answers, IsTable, Increasing, Order.IsKey;
    var file;
    ghost var parts;
    file, parts := BuildTable(options, blockSize, blockRestartInterval, pairs);
    size, hit := |file|, None;
    var table := Table.Open(options, file, paranoidChecks, parts);
    isOpen := table != null;
    if table != null {
      hit := table.InternalGet(verifyChecksums, k);
    }
  }
}
