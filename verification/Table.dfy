/** Table files and reading one key from them: index, filter, block (table/table.cc). */
module Tables {
  import opened DbFormat
  import opened Coding
  import opened Comparator
  import opened Bloom
  import opened BlockFormat
  import opened LogFormat
  import opened FilterBlock
  import opened TableFormat

  type Pair = (Bytes, Bytes)

  datatype TableOptions = TableOptions(order: Order, crc: Checksum, policy: Option<BloomPolicy>, policyName: Bytes)

  /** A block of the file. Its pairs are those of the table from `first` on. */
  datatype TableBlock = TableBlock(handle: BlockHandle, contents: Bytes, items: seq<Item>, points: seq<nat>,
                                   first: nat) {
    function Last(): nat { first + |items| }
  }

  datatype FilterPart = FilterPart(handle: BlockHandle, contents: Bytes, data: Bytes, offsets: seq<nat>,
                                   groups: seq<seq<Bytes>>)

  /** What a table file is made of. */
  datatype TableParts = TableParts(
    entries: seq<Pair>, blocks: seq<TableBlock>, index: TableBlock, meta: TableBlock, filter: Option<FilterPart>)

  // ---- Tables ------------------------------------------------------------------------------------

  ghost predicate Increasing(o: Order, entries: seq<Pair>) {
    forall i, j :: 0 <= i < j < |entries| ==> o.Cmp(entries[i].0, entries[j].0) < 0
  }

  ghost predicate BlockStored(crc: Checksum, file: Bytes, b: TableBlock) {
    StoredAt(crc, file, b.handle, b.contents) && Holds(b.contents, b.items, b.points)
  }

  /** The blocks hold the entries one after the other. Blocks may be empty, but have different offsets. */
  ghost predicate BlocksCover(entries: seq<Pair>, blocks: seq<TableBlock>) {
    && (forall i :: 0 <= i < |blocks| ==>
          blocks[i].Last() <= |entries| && Pairs(blocks[i].items) == entries[blocks[i].first..blocks[i].Last()])
    && (forall i, j :: 0 <= i && j == i + 1 && j < |blocks| ==> blocks[i].Last() == blocks[j].first)
    && (if blocks == [] then entries == [] else blocks[0].first == 0 && blocks[|blocks| - 1].Last() == |entries|)
    && (forall i, j :: 0 <= i < j < |blocks| ==> blocks[i].handle.offset < blocks[j].handle.offset)
  }

  /** The key separates the block from what follows it; and unless it is the block's last key, what follows has
      a different sought part. */
  ghost predicate IndexKeyOk(o: Order, entries: seq<Pair>, last: nat, key: Bytes)
    requires last <= |entries|
  {
    && (forall g :: 0 <= g < last ==> o.Cmp(entries[g].0, key) <= 0)
    && (forall g :: last <= g < |entries| ==> o.Cmp(key, entries[g].0) < 0)
    && ((last > 0 && key == entries[last - 1].0) ||
        forall g :: last <= g < |entries| ==> Compare(o.Sought(key), o.Sought(entries[g].0)) < 0)
  }

  ghost predicate IsIndex(o: Order, entries: seq<Pair>, blocks: seq<TableBlock>, index: seq<Item>)
    requires BlocksCover(entries, blocks)
  {
    && |index| == |blocks| && KeysSorted(o, index)
    && forall i :: 0 <= i < |index| ==>
         index[i].value == HandleBytes(blocks[i].handle) && IndexKeyOk(o, entries, blocks[i].Last(), index[i].key)
  }

  ghost predicate InGroup(groups: seq<seq<Bytes>>, offset: nat, key: Bytes) {
    offset / FILTER_BASE < |groups| && key in groups[offset / FILTER_BASE]
  }

  /** The filter for the offset of a block has all its keys. */
  ghost predicate FilterCovers(entries: seq<Pair>, blocks: seq<TableBlock>, groups: seq<seq<Bytes>>)
    requires BlocksCover(entries, blocks)
  {
    forall i, g :: 0 <= i < |blocks| && blocks[i].first <= g < blocks[i].Last() ==>
      InGroup(groups, blocks[i].handle.offset, entries[g].0)
  }

  /** "filter." and the policy's name. */
  function FilterKey(name: Bytes): Bytes { [102, 105, 108, 116, 101, 114, 46] + name }

  ghost predicate FilterPartOk(opt: TableOptions, file: Bytes, entries: seq<Pair>, blocks: seq<TableBlock>,
                               f: FilterPart)
    requires BlocksCover(entries, blocks)
  {
    && opt.policy.Some?
    && StoredAt(opt.crc, file, f.handle, f.contents) && |f.contents| < 0x1_0000_0000
    && IsFilterBlock(f.contents, f.data, f.offsets)
    && FiltersMatch(opt.policy.value, opt.order, f.data, f.offsets, f.groups)
    && FilterCovers(entries, blocks, f.groups)
  }

  /** The metaindex names the filter block, if there is one, and nothing else. */
  ghost predicate MetaOk(name: Bytes, meta: seq<Item>, filter: Option<FilterPart>) {
    if filter.None? then meta == []
    else |meta| == 1 && meta[0].key == FilterKey(name) && meta[0].value == HandleBytes(filter.value.handle)
  }

  ghost predicate IsTable(opt: TableOptions, file: Bytes, p: TableParts) {
    && Increasing(opt.order, p.entries) && BlocksCover(p.entries, p.blocks)
    && (forall i :: 0 <= i < |p.blocks| ==> BlockStored(opt.crc, file, p.blocks[i]))
    && BlockStored(opt.crc, file, p.index) && IsIndex(opt.order, p.entries, p.blocks, p.index.items)
    && BlockStored(opt.crc, file, p.meta) && MetaOk(opt.policyName, p.meta.items, p.filter)
    && (p.filter.Some? ==> FilterPartOk(opt, file, p.entries, p.blocks, p.filter.value))
    && FOOTER_SIZE <= |file| < 0x1_0000_0000_0000_0000
    && file[|file| - FOOTER_SIZE..] == FooterBytes(p.meta.handle, p.index.handle)
  }

  /** Keys of a block of the table are in order. */
  lemma BlockSorted(o: Order, entries: seq<Pair>, blocks: seq<TableBlock>, i: nat)
    requires Increasing(o, entries) && BlocksCover(entries, blocks) && i < |blocks|
    ensures KeysSorted(o, blocks[i].items)
    ensures forall j :: 0 <= j < |blocks[i].items| ==>
              blocks[i].first + j < |entries|
                && entries[blocks[i].first + j] == (blocks[i].items[j].key, blocks[i].items[j].value)
  {
    hide Order.Cmp;
    var b := blocks[i];
    forall j | 0 <= j < |b.items| ensures entries[b.first + j] == (b.items[j].key, b.items[j].value) {
      assert Pairs(b.items)[j] == entries[b.first..b.Last()][j];
    }
  }

  // ---- Linear search -------------------------------------------------------------------------------

  /** The first entry at or after the key, by looking at one after the other. */
  function Scan(o: Order, entries: seq<Pair>, k: Bytes): (p: nat)
    ensures p <= |entries| && (forall g :: 0 <= g < p ==> o.Cmp(entries[g].0, k) < 0)
    ensures p < |entries| ==> o.Cmp(entries[p].0, k) >= 0
  {
    if entries == [] then 0
    else
      var before := entries[..|entries| - 1];
      var p := Scan(o, before, k);
      assert forall g :: 0 <= g < |before| ==> before[g] == entries[g];
      if p < |entries| - 1 || o.Cmp(entries[|entries| - 1].0, k) >= 0 then p else |entries|
  }

  lemma ScanUnique(o: Order, entries: seq<Pair>, k: Bytes, p: nat)
    requires p <= |entries| && (forall g :: 0 <= g < p ==> o.Cmp(entries[g].0, k) < 0)
    requires p < |entries| ==> o.Cmp(entries[p].0, k) >= 0
    ensures Scan(o, entries, k) == p
  {
    hide Order.Cmp;
    var q := Scan(o, entries, k);
  }

  /** Every entry covered by index entries below the key is below the key. */
  lemma BelowIndexKey(o: Order, entries: seq<Pair>, blocks: seq<TableBlock>, index: seq<Item>, i: nat, k: Bytes)
    requires BlocksCover(entries, blocks) && IsIndex(o, entries, blocks, index) && i <= |index|
    requires i > 0 ==> o.Cmp(index[i - 1].key, k) < 0
    ensures i < |blocks| ==> forall g :: 0 <= g < blocks[i].first ==> g < |entries| && o.Cmp(entries[g].0, k) < 0
    ensures i == |blocks| ==> forall g :: 0 <= g < |entries| ==> o.Cmp(entries[g].0, k) < 0
  {
    hide Order.Cmp, KeysSorted;
    if i > 0 {
      assert IndexKeyOk(o, entries, blocks[i - 1].Last(), index[i - 1].key);
      forall g | 0 <= g < blocks[i - 1].Last() ensures g < |entries| && o.Cmp(entries[g].0, k) < 0 {
        CmpTransitive(o, entries[g].0, index[i - 1].key, k);
      }
    }
  }

  /** What the sought part of an order tells: Cmp is at most 0 only if the sought parts are. */
  lemma CmpSought(o: Order, a: Bytes, b: Bytes)
    requires o.Cmp(a, b) <= 0
    ensures Compare(o.Sought(a), o.Sought(b)) <= 0
  {
    hide Compare;
  }

  /** If everything in the block that the index names is below the key, then no entry of the table is at or after
      the key and has its sought part: shortened index keys hide nothing. */
  lemma NothingInTheGap(o: Order, entries: seq<Pair>, blocks: seq<TableBlock>, index: seq<Item>, i: nat, k: Bytes,
                        g: nat)
    requires BlocksCover(entries, blocks) && IsIndex(o, entries, blocks, index) && i < |index|
    requires o.Cmp(index[i].key, k) >= 0
    requires forall h :: 0 <= h < blocks[i].Last() ==> o.Cmp(entries[h].0, k) < 0
    requires blocks[i].Last() <= g < |entries|
    ensures o.Sought(entries[g].0) != o.Sought(k)
  {
    hide Order.Cmp, KeysSorted, Order.Sought, Compare;
    var key, last := index[i].key, blocks[i].Last();
    assert IndexKeyOk(o, entries, last, key);
    if last > 0 && key == entries[last - 1].0 {
      assert false;
    } else {
      CmpOpposite(o, key, k);
      CmpSought(o, k, key);
      CompareIsOrder(o.Sought(k), o.Sought(entries[g].0));
      CompareIsOrder(o.Sought(k), o.Sought(key));
      CompareIsOrder(o.Sought(key), o.Sought(entries[g].0));
    }
  }

  /** The answer of a lookup: nothing but what linear search finds, and that if it has the sought part. */
  ghost predicate Answers(o: Order, entries: seq<Pair>, k: Bytes, hit: Option<Pair>) {
    var p := Scan(o, entries, k);
    && (hit.Some? ==> p < |entries| && hit.value == entries[p])
    && (p < |entries| && o.Sought(entries[p].0) == o.Sought(k) ==> hit.Some?)
  }

  /** The entry of the metaindex block for the filter of the policy. */
  method FindFilter(name: Bytes, contents: Bytes, ghost meta: TableBlock, ghost filter: Option<FilterPart>)
    returns (found: bool, value: Bytes)
    ensures Holds(contents, meta.items, meta.points) && MetaOk(name, meta.items, filter) ==>
              (found <==> filter.Some?) && (found ==> value == HandleBytes(filter.value.handle))
  {
    hide HandleBytes, FilterKey, BlockIter.IsGood, BlockIter.Wired, BlockFormat.Layout, Order.Cmp, Holds, KeysSorted;
    found, value := false, [];
    ghost var isHere := Holds(contents, meta.items, meta.points) && MetaOk(name, meta.items, filter);
    if isHere {
      MetaSorted(name, meta.items, filter);
    }
    var iter := NewIterator(Bytewise, contents, meta.items, meta.points);
    if iter == null {
      return;
    }
    var key := FilterKey(name);
    ghost var at := iter.Seek(key);
    if isHere {
      SeekInMeta(name, meta.items, filter, at);
      if at < |meta.items| {
        iter.AtKey(at);
      }
    }
    if iter.Valid() && iter.key == key {
      found, value := true, iter.value;
    }
  }

  lemma MetaSorted(name: Bytes, meta: seq<Item>, filter: Option<FilterPart>)
    requires MetaOk(name, meta, filter)
    ensures KeysSorted(Bytewise, meta)
  {
  }

  /** Seeking the key in a list of at most that one. */
  lemma SeekInMeta(name: Bytes, meta: seq<Item>, filter: Option<FilterPart>, p: nat)
    requires MetaOk(name, meta, filter)
    requires p <= |meta| && forall i :: 0 <= i < p ==> Bytewise.Cmp(meta[i].key, FilterKey(name)) < 0
    ensures p < |meta| <==> filter.Some?
  {
    CompareIsOrder(FilterKey(name), FilterKey(name));
  }

  // ---- The reader --------------------------------------------------------------------------------

  class Table {
    const options: TableOptions
    const file: Bytes
    const indexBlock: Bytes
    var filter: FilterBlockReader?
    ghost const parts: TableParts

    constructor (options: TableOptions, file: Bytes, indexBlock: Bytes, ghost parts: TableParts)
      ensures this.options == options && this.file == file && this.indexBlock == indexBlock && this.parts == parts
      ensures filter == null
    {
      this.options, this.file, this.indexBlock, this.parts := options, file, indexBlock, parts;
      filter := null;
    }

    /** The filter reader, if there is one, reads the filter block of the file. */
    ghost predicate FilterWired()
      reads this
    {
      filter != null ==>
        && filter.Valid() && parts.filter.Some? && filter.IsGood() && options.policy.Some?
        && filter.policy == options.policy.value && filter.order == options.order
        && filter.filters == parts.filter.value.data && filter.offsets == parts.filter.value.offsets
    }

    ghost predicate IsGood()
      reads this
    {
      IsTable(options, file, parts) && indexBlock == parts.index.contents && FilterWired()
    }

    ghost predicate Wired()
      reads this
    {
      filter != null ==> filter.Valid()
    }

    /** Table::Open. */
    static method Open(options: TableOptions, file: Bytes, paranoidChecks: bool, ghost parts: TableParts)
      returns (table: Table?)
      ensures table != null ==>
                fresh(table) && table.Wired() && table.options == options && table.file == file && table.parts == parts
      ensures IsTable(options, file, parts) ==> table != null && table.IsGood()
      ensures IsTable(options, file, parts) ==> (table.filter != null <==> options.policy.Some? && parts.filter.Some?)
    {
      hide BlocksCover, IsIndex, MetaOk, FilterPartOk, BlockStored, FooterBytes, Increasing;
      if |file| < FOOTER_SIZE {
        return null;
      }
      if IsTable(options, file, parts) {
        BlockIsStored(options.crc, file, parts.index);
        BlockIsStored(options.crc, file, parts.meta);
      }
      var ok, metaHandle, indexHandle :=
        DecodeFooter(file[|file| - FOOTER_SIZE..], parts.meta.handle, parts.index.handle);
      if !ok {
        return null;
      }
      var contents;
      ok, contents := ReadBlock(options.crc, file, paranoidChecks, indexHandle, parts.index.contents);
      if !ok {
        return null;
      }
      table := new Table(options, file, contents, parts);
      table.ReadMeta(metaHandle, paranoidChecks);
    }

    /** ReadMeta: whatever goes wrong here, the table is read without a filter. */
    method ReadMeta(metaHandle: BlockHandle, paranoidChecks: bool)
      requires filter == null
      modifies this
      ensures Wired()
      ensures IsTable(options, file, parts) && metaHandle == parts.meta.handle ==>
                FilterWired() && (filter != null <==> options.policy.Some? && parts.filter.Some?)
    {
      hide BlocksCover, IsIndex, BlockStored, FooterBytes, Increasing, FilterPartOk, MetaOk;
      if options.policy.None? {
        return;
      }
      if IsTable(options, file, parts) && metaHandle == parts.meta.handle {
        BlockIsStored(options.crc, file, parts.meta);
      }
      var ok, contents := ReadBlock(options.crc, file, paranoidChecks, metaHandle, parts.meta.contents);
      if !ok {
        return;
      }
      var found, value := FindFilter(options.policyName, contents, parts.meta, parts.filter);
      if found {
        ReadFilter(value, paranoidChecks);
      }
    }

    /** ReadFilter. */
    method ReadFilter(handleValue: Bytes, paranoidChecks: bool)
      requires filter == null && options.policy.Some?
      modifies this
      ensures Wired()
      ensures && IsTable(options, file, parts) && parts.filter.Some?
              && handleValue == HandleBytes(parts.filter.value.handle) ==>
                FilterWired() && filter != null
    {
      hide BlocksCover, IsIndex, BlockStored, FooterBytes, Increasing, MetaOk, DecodeHandle, HandleBytes, IsFilterBlock,
        FiltersMatch, FilterCovers;
      if IsTable(options, file, parts) && parts.filter.Some? {
        StoredInRange(options.crc, file, parts.filter.value.handle, parts.filter.value.contents);
        HandleAlone(parts.filter.value.handle);
      }
      var handle := DecodeHandleFrom(handleValue);
      if handle.Bad? {
        return;
      }
      var ok, block := ReadBlock(options.crc, file, paranoidChecks, handle.value,
                                 if parts.filter.Some? then parts.filter.value.contents else []);
      if !ok {
        return;
      }
      filter := new FilterBlockReader(options.policy.value, options.order, block,
                                      if parts.filter.Some? then parts.filter.value.data else [],
                                      if parts.filter.Some? then parts.filter.value.offsets else []);
    }

    /** Table::BlockReader: a cursor over the block that an index value names, or null. */
    method BlockReader(verifyChecksums: bool, indexValue: Bytes, ghost b: TableBlock) returns (it: BlockIter?)
      ensures it != null ==>
                fresh(it) && it.Wired() && !it.Valid() && it.order == options.order && it.items == b.items
                  && it.points == b.points
      ensures && BlockStored(options.crc, file, b) && |file| < 0x1_0000_0000_0000_0000
              && indexValue == HandleBytes(b.handle) ==>
                it != null && it.IsGood() && BlockFormat.Layout(b.items) && !it.corrupt
    {
      hide HandleBytes, DecodeHandle, StoredAt, Holds, BlockFormat.Layout, BlockIter.IsGood, BlockIter.Wired;
      if BlockStored(options.crc, file, b) && |file| < 0x1_0000_0000_0000_0000 {
        BlockIsStored(options.crc, file, b);
      }
      var handle := DecodeHandleFrom(indexValue);
      if handle.Bad? {
        return null;
      }
      var ok, contents := ReadBlock(options.crc, file, verifyChecksums, handle.value, b.contents);
      if !ok {
        return null;
      }
      it := NewIterator(options.order, contents, b.items, b.points);
    }

    /** Table::InternalGet: the pair that is handed to the caller. */
    method InternalGet(verifyChecksums: bool, k: Bytes) returns (hit: Option<Pair>)
      requires Wired()
      ensures IsGood() ==> Answers(options.order, parts.entries, k, hit)
    {
      hide BlocksCover, IsIndex, MetaOk, FilterPartOk, BlockStored, FooterBytes, Increasing, BlockIter.Wired,
        BlockIter.IsGood, BlockFormat.Layout, FilterBlockReader.IsGood, FilterBlockReader.Valid, DecodeHandle,
        HandleBytes, Order.Cmp, Holds, Answers, KeysSorted, BlockIter.At, FilterBlockReader.Passes, FiltersMatch, Has;
      ghost var o, entries, blocks, index := options.order, parts.entries, parts.blocks, parts.index.items;
      hit := None;
      if IsGood() {
        BlockIsStored(options.crc, file, parts.index);
      }
      var iiter := NewIterator(options.order, indexBlock, parts.index.items, parts.index.points);
      if iiter == null {
        return;
      }
      if IsGood() {
        IndexSorted(o, entries, blocks, index);
      }
      ghost var i := iiter.Seek(k);
      if IsGood() {
        IndexSought(o, entries, blocks, index, i, k);
        if i < |index| {
          iiter.AtKey(i);
        }
      }
      if !iiter.Valid() {
        return;
      }
      ghost var b := if i < |blocks| then blocks[i] else parts.index;
      if filter != null {
        var handle := DecodeHandleFrom(iiter.value);
        if IsGood() {
          BlockIsStored(options.crc, file, b);
          FilterFacts(i);
        }
        if handle.Parsed? {
          var mayMatch :=
            filter.KeyMayMatch(handle.value.offset, k, if parts.filter.Some? then parts.filter.value.groups else []);
          if !mayMatch {
            if IsGood() {
              Rejected(o, entries, blocks, index, parts.filter.value.groups, i, k);
            }
            return;
          }
        }
      }
      var blockIter := BlockReader(verifyChecksums, iiter.value, b);
      if blockIter == null {
        return;
      }
      if IsGood() {
        BlockSorted(o, entries, blocks, i);
      }
      ghost var j := blockIter.Seek(k);
      if IsGood() {
        Found(o, entries, blocks, index, i, k, j);
        if j < |b.items| {
          blockIter.AtKey(j);
        }
      }
      if blockIter.Valid() {
        hit := Some((blockIter.key, blockIter.value));
      }
    }

    lemma FilterFacts(i: nat)
      requires IsGood() && filter != null && i < |parts.blocks|
      ensures FiltersMatch(filter.policy, filter.order, filter.filters, filter.offsets, parts.filter.value.groups)
      ensures BlocksCover(parts.entries, parts.blocks)
      ensures FilterCovers(parts.entries, parts.blocks, parts.filter.value.groups)
    {
    }
  }

  lemma BlockIsStored(crc: Checksum, file: Bytes, b: TableBlock)
    requires BlockStored(crc, file, b) && |file| < 0x1_0000_0000_0000_0000
    ensures StoredAt(crc, file, b.handle, b.contents) && Holds(b.contents, b.items, b.points)
    ensures b.handle.InRange() && DecodeHandle(HandleBytes(b.handle)) == Parsed(b.handle, [])
  {
    HandleAlone(b.handle);
  }

  lemma IndexSorted(o: Order, entries: seq<Pair>, blocks: seq<TableBlock>, index: seq<Item>)
    requires BlocksCover(entries, blocks) && IsIndex(o, entries, blocks, index)
    ensures KeysSorted(o, index)
  {
  }

  /** What the index search says about the entries. */
  lemma IndexSought(o: Order, entries: seq<Pair>, blocks: seq<TableBlock>, index: seq<Item>, i: nat, k: Bytes)
    requires BlocksCover(entries, blocks) && IsIndex(o, entries, blocks, index) && i <= |index|
    requires forall h :: 0 <= h < i ==> o.Cmp(index[h].key, k) < 0
    ensures |index| == |blocks|
    ensures i == |index| ==> Answers(o, entries, k, None)
    ensures i < |index| ==> index[i].value == HandleBytes(blocks[i].handle)
  {
    hide Order.Cmp, Order.Sought, KeysSorted, HandleBytes;
    BelowIndexKey(o, entries, blocks, index, i, k);
    if i == |index| {
      ScanUnique(o, entries, k, |entries|);
    }
  }

  /** What the search in the named block says. */
  lemma Found(o: Order, entries: seq<Pair>, blocks: seq<TableBlock>, index: seq<Item>, i: nat, k: Bytes, j: nat)
    requires BlocksCover(entries, blocks) && IsIndex(o, entries, blocks, index) && i < |index| && Increasing(o, entries)
    requires forall h :: 0 <= h < i ==> o.Cmp(index[h].key, k) < 0
    requires o.Cmp(index[i].key, k) >= 0
    requires j <= |blocks[i].items| && forall h :: 0 <= h < j ==> o.Cmp(blocks[i].items[h].key, k) < 0
    requires j < |blocks[i].items| ==> o.Cmp(blocks[i].items[j].key, k) >= 0
    ensures Answers(o, entries, k,
              if j < |blocks[i].items| then Some((blocks[i].items[j].key, blocks[i].items[j].value)) else None)
  {
    hide Order.Cmp, Order.Sought, KeysSorted, HandleBytes, IsIndex;
    hide BlocksCover, Increasing;
    IndexLength(o, entries, blocks, index);
    var b := blocks[i];
    BlockSorted(o, entries, blocks, i);
    BelowInBlock(o, entries, blocks, index, i, k, j);
    if j < |b.items| {
      ScanUnique(o, entries, k, b.first + j);
    } else {
      var p := Scan(o, entries, k);
      if p < |entries| {
        NothingInTheGap(o, entries, blocks, index, i, k, p);
      }
    }
  }

  lemma BelowInBlock(o: Order, entries: seq<Pair>, blocks: seq<TableBlock>, index: seq<Item>, i: nat, k: Bytes, j: nat)
    requires BlocksCover(entries, blocks) && IsIndex(o, entries, blocks, index) && i < |index| && Increasing(o, entries)
    requires forall h :: 0 <= h < i ==> o.Cmp(index[h].key, k) < 0
    requires |index| == |blocks| && j <= |blocks[i].items|
    requires forall h :: 0 <= h < j ==> o.Cmp(blocks[i].items[h].key, k) < 0
    ensures blocks[i].first + j <= |entries|
    ensures forall g :: 0 <= g < blocks[i].first + j ==> o.Cmp(entries[g].0, k) < 0
  {
    hide Order.Cmp, KeysSorted, HandleBytes, IsIndex;
    var b := blocks[i];
    BelowIndexKey(o, entries, blocks, index, i, k);
    BlockSorted(o, entries, blocks, i);
    forall g | 0 <= g < b.first + j ensures o.Cmp(entries[g].0, k) < 0 {
      if g >= b.first {
        assert entries[b.first + (g - b.first)].0 == b.items[g - b.first].key;
      }
    }
  }

  lemma IndexLength(o: Order, entries: seq<Pair>, blocks: seq<TableBlock>, index: seq<Item>)
    requires BlocksCover(entries, blocks) && IsIndex(o, entries, blocks, index)
    ensures |index| == |blocks|
  {
  }

  /** A block that the filter turns away has no entry with the sought part. */
  lemma Rejected(o: Order, entries: seq<Pair>, blocks: seq<TableBlock>, index: seq<Item>, groups: seq<seq<Bytes>>,
                 i: nat, k: Bytes)
    requires BlocksCover(entries, blocks) && IsIndex(o, entries, blocks, index) && i < |index| && Increasing(o, entries)
    requires forall h :: 0 <= h < i ==> o.Cmp(index[h].key, k) < 0
    requires o.Cmp(index[i].key, k) >= 0
    requires |index| == |blocks| && FilterCovers(entries, blocks, groups)
    requires !(blocks[i].handle.offset / FILTER_BASE < |groups|
               && Has(o, groups[blocks[i].handle.offset / FILTER_BASE], k))
    ensures Answers(o, entries, k, None)
  {
    hide Order.Cmp, Order.Sought, KeysSorted, HandleBytes, IsIndex;
    var p, b := Scan(o, entries, k), blocks[i];
    BelowIndexKey(o, entries, blocks, index, i, k);
    if p < |entries| && o.Sought(entries[p].0) == o.Sought(k) {
      if p < b.Last() {
        assert false;
      } else {
        NothingInTheGap(o, entries, blocks, index, i, k, p);
        assert false;
      }
    }
  }
}
