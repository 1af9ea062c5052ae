/** The iterator over a whole table: an index cursor and a cursor over the block it points to
    (table/two_level_iterator.cc, Table::NewIterator). */
module TwoLevel {
  import opened DbFormat
  import opened Coding
  import opened Comparator
  import opened BlockFormat
  import opened LogFormat
  import opened FilterBlock
  import opened TableFormat
  import opened Tables
  import opened TableBuilding

  lemma SameHandle(entries: seq<Pair>, crc: Checksum, file: Bytes, blocks: seq<TableBlock>, i: nat, j: nat)
    requires BlocksCover(entries, blocks) && i < |blocks| && j < |blocks| && |file| < 0x1_0000_0000_0000_0000
    requires BlockStored(crc, file, blocks[i]) && BlockStored(crc, file, blocks[j])
    requires HandleBytes(blocks[i].handle) == HandleBytes(blocks[j].handle)
    ensures i == j
  {
    hide BlockStored, HandleBytes, DecodeHandle;
    BlockIsStored(crc, file, blocks[i]);
    BlockIsStored(crc, file, blocks[j]);
  }

  lemma TableFacts(options: TableOptions, file: Bytes, p: TableParts)
    requires IsTable(options, file, p)
    ensures Increasing(options.order, p.entries) && BlocksCover(p.entries, p.blocks) && |file| < 0x1_0000_0000_0000_0000
    ensures IsIndex(options.order, p.entries, p.blocks, p.index.items) && KeysSorted(options.order, p.index.items)
    ensures |p.index.items| == |p.blocks|
    ensures BlockStored(options.crc, file, p.index)
    ensures Holds(p.index.contents, p.index.items, p.index.points)
    ensures forall i :: 0 <= i < |p.blocks| ==>
              BlockStored(options.crc, file, p.blocks[i]) && p.index.items[i].value == HandleBytes(p.blocks[i].handle)
  {
    hide Increasing, BlocksCover, KeysSorted, IndexKeyOk, HandleBytes, StoredAt, Holds;
  }

  /** Where a block ends and the next one begins. */
  lemma Borders(entries: seq<Pair>, blocks: seq<TableBlock>, i: nat)
    requires BlocksCover(entries, blocks) && i < |blocks|
    ensures blocks[i].Last() <= |entries|
    ensures blocks[i].Last() == if i + 1 < |blocks| then blocks[i + 1].first else |entries|
    ensures i == 0 ==> blocks[i].first == 0
    ensures i > 0 ==> blocks[i - 1].Last() == blocks[i].first
  {
  }

  class TwoLevelIterator {
    const table: Table
    const verifyChecksums: bool
    const index: BlockIter
    var data: BlockIter?
    var dataBlockHandle: Bytes
    ghost var at: nat // where the index cursor stands
    ghost var block: nat // the block that `data` reads
    ghost var entry: nat // where `data` stands in it

    constructor (table: Table, verifyChecksums: bool, index: BlockIter)
      requires index.Wired() && !index.Valid()
      ensures Wired() && !Valid() && this.table == table && this.index == index && data == null
    {
      this.table, this.verifyChecksums, this.index := table, verifyChecksums, index;
      data, dataBlockHandle, at, block, entry := null, [], 0, 0, 0;
    }

    /** Both cursors can be moved. */
    ghost predicate Wired()
      reads this, index, data
    {
      && index.Wired() && (index.Valid() ==> index.restartIndex < index.numRestarts)
      && (data != null ==>
            data != index && data.Wired() && (data.Valid() ==> data.restartIndex < data.numRestarts))
    }

    ghost function Entries(): seq<Pair> { table.parts.entries }

    ghost function Blocks(): seq<TableBlock> { table.parts.blocks }

    /** The index cursor reads the index of a well-formed table. */
    ghost predicate OverTable() {
      && IsTable(table.options, table.file, table.parts) && index.IsGood() && index.order == table.options.order
      && index.items == table.parts.index.items && BlockFormat.Layout(index.items)
    }

    /** If there is a data cursor, it reads the block it is said to read. */
    ghost predicate DataOk()
      reads this
    {
      data != null ==>
        && block < |Blocks()| && data.IsGood() && data.order == table.options.order
        && data.items == Blocks()[block].items && BlockFormat.Layout(data.items)
        && dataBlockHandle == HandleBytes(Blocks()[block].handle)
    }

    predicate Valid()
      reads this, data
    {
      data != null && data.Valid()
    }

    function Key(): Bytes
      requires Valid()
      reads this, data
    {
      data.key
    }

    function Val(): Bytes
      requires Valid()
      reads this, data
    {
      data.value
    }

    /** The iterator stands at the g-th entry of the table. */
    ghost predicate At(g: nat)
      requires OverTable() && DataOk()
      reads this, index, data
    {
      && Valid() && block < |index.items| && index.At(block) && data.At(entry)
      && g == Blocks()[block].first + entry
    }

    lemma AtMeans(g: nat)
      requires OverTable() && DataOk() && At(g)
      ensures Valid() && g < |Entries()| && (Key(), Val()) == Entries()[g]
    {
      hide IsTable, BlockIter.IsGood, BlockFormat.Layout, BlocksCover, HandleBytes;
      TableFacts(table.options, table.file, table.parts);
      data.AtKey(entry);
      BlockSorted(table.options.order, Entries(), Blocks(), block);
      Borders(Entries(), Blocks(), block);
    }

    /** The index cursor stands at block i, or is off the end for i == |Blocks()|. */
    ghost predicate IndexAt(i: nat)
      requires OverTable()
      reads index
    {
      i <= |index.items| && if i < |index.items| then index.At(i) else !index.Valid()
    }

    /** InitDataBlock: the block that the index points to, read only if it is not the one at hand. */
    method InitDataBlock(ghost i: nat)
      requires Wired()
      modifies this
      ensures Wired() && (data == old(data) || data == null || fresh(data))
      ensures data == old(data) || data == null || !data.Valid()
      ensures OverTable() && old(DataOk()) && IndexAt(i) ==>
                DataOk() && IndexAt(i) && if i < |Blocks()| then data != null && block == i else data == null
    {
      hide IsTable, BlockIter.IsGood, BlockIter.Wired, BlockFormat.Layout, BlocksCover, HandleBytes, BlockIter.At,
        KeysSorted, IsIndex, Increasing, BlockStored, Holds;
      ghost var isHere := OverTable() && DataOk() && IndexAt(i);
      if isHere {
        TableFacts(table.options, table.file, table.parts);
        if i < |index.items| {
          index.AtKey(i);
        }
      }
      if !index.Valid() {
        data := null;
        return;
      }
      var handle := index.value;
      if data != null && handle == dataBlockHandle {
        if isHere {
          SameHandle(Entries(), table.options.crc, table.file, Blocks(), i, block);
        }
        return;
      }
      data :=
        table.BlockReader(verifyChecksums, handle, if isHere && i < |Blocks()| then Blocks()[i] else table.parts.index);
      dataBlockHandle := handle;
      block := i;
    }

    /** On the way forward to entry p: nothing before it is left, and if the data cursor stands anywhere, then there. */
    ghost predicate Forward(p: nat)
      requires OverTable()
      reads this, index, data
    {
      && DataOk() && IndexAt(at)
      && (Valid() ==> at == block < |index.items| && data.At(entry) && p == Blocks()[block].first + entry)
      && (!Valid() ==> p == if at < |Blocks()| then Blocks()[at].Last() else |Entries()|)
    }

    /** On the way back to the entry before p. */
    ghost predicate Backward(p: nat)
      requires OverTable()
      reads this, index, data
    {
      && DataOk() && IndexAt(at)
      && (Valid() ==> at == block < |index.items| && data.At(entry) && p == Blocks()[block].first + entry + 1)
      && (!Valid() ==> p == if at < |Blocks()| then Blocks()[at].first else 0)
    }

    lemma IndexValid()
      requires OverTable() && IndexAt(at)
      ensures index.Valid() <==> at < |index.items|
    {
      hide IsTable, BlockIter.IsGood, BlockFormat.Layout;
      if at < |index.items| {
        index.AtKey(at);
      }
    }

    /** With the index cursor at block i, the data cursor goes to the first entry of the block. */
    method EnterAtFirst(ghost i: nat, ghost p: nat)
      requires Wired()
      modifies this, data
      ensures Wired() && (data == old(data) || data == null || fresh(data))
      ensures && OverTable() && old(DataOk() && IndexAt(i))
              && p == (if i < |Blocks()| then Blocks()[i].first else |Entries()|) ==>
                Forward(p)
    {
      hide IsTable, BlockIter.IsGood, BlockIter.Wired, BlockFormat.Layout, BlocksCover, HandleBytes, BlockIter.At,
        KeysSorted, IsIndex, Increasing, BlockStored, Holds;
      ghost var isHere := OverTable() && DataOk() && IndexAt(i);
      if isHere {
        TableFacts(table.options, table.file, table.parts);
      }
      InitDataBlock(i);
      at := i;
      if data != null {
        label Before:
        data.SeekToFirst();
        entry := 0;
        if isHere {
          assert old@Before(IndexAt(i));
          if data.items != [] {
            data.AtKey(0);
          }
        }
      }
    }

    /** The same for the last entry. */
    method EnterAtLast(ghost i: nat, ghost p: nat)
      requires Wired()
      modifies this, data
      ensures Wired() && (data == old(data) || data == null || fresh(data))
      ensures OverTable() && old(DataOk() && IndexAt(i)) && p == (if i < |Blocks()| then Blocks()[i].Last() else 0) ==>
                Backward(p)
    {
      hide IsTable, BlockIter.IsGood, BlockIter.Wired, BlockFormat.Layout, BlocksCover, HandleBytes, BlockIter.At,
        KeysSorted, IsIndex, Increasing, BlockStored, Holds;
      ghost var isHere := OverTable() && DataOk() && IndexAt(i);
      if isHere {
        TableFacts(table.options, table.file, table.parts);
      }
      InitDataBlock(i);
      at := i;
      if data != null {
        label Before:
        data.SeekToLast();
        entry := if data.items == [] then 0 else |data.items| - 1;
        if isHere {
          assert old@Before(IndexAt(i));
          if data.items != [] {
            data.AtKey(entry);
          }
        }
      }
    }

    /** SkipEmptyDataBlocksForward. */
    method SkipForward(ghost p: nat)
      requires Wired()
      modifies this, index, data
      ensures Wired() && (data == old(data) || data == null || fresh(data))
      ensures OverTable() && old(Forward(p)) ==> DataOk() && if p < |Entries()| then At(p) else !Valid()
    {
      hide IsTable, BlockIter.IsGood, BlockIter.Wired, BlockFormat.Layout, BlocksCover, HandleBytes, BlockIter.At,
        KeysSorted, IsIndex, Increasing, BlockStored, Holds;
      hide Forward, DataOk;
      ghost var isHere := OverTable() && Forward(p);
      while data == null || !data.Valid()
        invariant Wired() && (data == old(data) || data == null || fresh(data))
        invariant isHere ==> Forward(p)
        decreases if !index.Valid() then 0
                  else if index.next <= index.restarts then 1 + index.restarts - index.next else index.restarts + 2
      {
        if isHere {
          EndsForward(p);
        }
        if !index.Valid() {
          data := null;
          if isHere {
            NoData();
          }
          return;
        }
        ghost var i := at;
        index.Next(i);
        EnterAtFirst(i + 1, p);
      }
      if isHere {
        ArrivedForward(p);
      }
    }

    lemma NoData()
      requires OverTable() && data == null
      ensures DataOk() && !Valid()
    {
    }

    /** Off the end of the index nothing is left; otherwise entry p begins the next block. */
    lemma EndsForward(p: nat)
      requires OverTable() && Forward(p) && !Valid()
      ensures DataOk()
      ensures index.Valid() <==> at < |Blocks()|
      ensures at < |Blocks()| ==> at < |index.items| && index.At(at)
      ensures p == if at + 1 < |Blocks()| then Blocks()[at + 1].first else |Entries()|
      ensures |index.items| == |Blocks()|
    {
      hide IsTable, BlockIter.IsGood, BlockIter.Wired, BlockFormat.Layout, BlocksCover, HandleBytes, BlockIter.At,
        KeysSorted, IsIndex, Increasing, BlockStored, Holds;
      TableFacts(table.options, table.file, table.parts);
      IndexValid();
      if at < |Blocks()| {
        Borders(Entries(), Blocks(), at);
      }
    }

    lemma ArrivedForward(p: nat)
      requires OverTable() && Forward(p) && Valid()
      ensures DataOk() && At(p) && p < |Entries()|
    {
      hide IsTable, BlockIter.IsGood, BlockIter.Wired, BlockFormat.Layout, BlocksCover, HandleBytes, BlockIter.At,
        KeysSorted, IsIndex, Increasing, BlockStored, Holds;
      AtMeans(p);
    }

    /** SkipEmptyDataBlocksBackward. */
    method SkipBackward(ghost p: nat)
      requires Wired()
      modifies this, index, data
      ensures Wired() && (data == old(data) || data == null || fresh(data))
      ensures OverTable() && old(Backward(p)) ==> DataOk() && if p > 0 then At(p - 1) else !Valid()
    {
      hide IsTable, BlockIter.IsGood, BlockIter.Wired, BlockFormat.Layout, BlocksCover, HandleBytes, BlockIter.At,
        KeysSorted, IsIndex, Increasing, BlockStored, Holds;
      hide Backward, DataOk;
      ghost var isHere := OverTable() && Backward(p);
      while data == null || !data.Valid()
        invariant Wired() && (data == old(data) || data == null || fresh(data))
        invariant isHere ==> Backward(p)
        decreases if index.Valid() then 1 + index.current else 0
      {
        if isHere {
          EndsBackward(p);
        }
        if !index.Valid() {
          data := null;
          if isHere {
            NoData();
          }
          return;
        }
        ghost var i := at;
        index.Prev(i);
        EnterAtLast(if i > 0 then i - 1 else |index.items|, p);
      }
      if isHere {
        ArrivedBackward(p);
      }
    }

    lemma EndsBackward(p: nat)
      requires OverTable() && Backward(p) && !Valid()
      ensures DataOk()
      ensures index.Valid() <==> at < |Blocks()|
      ensures at < |Blocks()| ==> at < |index.items| && index.At(at)
      ensures p == if 0 < at < |Blocks()| then Blocks()[at - 1].Last() else 0
      ensures |index.items| == |Blocks()|
    {
      hide IsTable, BlockIter.IsGood, BlockIter.Wired, BlockFormat.Layout, BlocksCover, HandleBytes, BlockIter.At,
        KeysSorted, IsIndex, Increasing, BlockStored, Holds;
      TableFacts(table.options, table.file, table.parts);
      IndexValid();
      if at < |Blocks()| {
        Borders(Entries(), Blocks(), at);
      }
    }

    lemma ArrivedBackward(p: nat)
      requires OverTable() && Backward(p) && Valid()
      ensures p > 0 && DataOk() && At(p - 1)
    {
      hide IsTable, BlockIter.IsGood, BlockIter.Wired, BlockFormat.Layout, BlocksCover, HandleBytes, BlockIter.At,
        KeysSorted, IsIndex, Increasing, BlockStored, Holds;
    }

    /** The data cursor has stepped on, or off the end of its block. */
    lemma SteppedOn(g: nat)
      requires OverTable() && DataOk() && data != null && block < |index.items| && index.At(block) && at == block
      requires entry > 0 && entry - 1 < |data.items| && g == Blocks()[block].first + entry - 1
      requires if entry < |data.items| then data.At(entry) else !data.Valid()
      ensures Forward(g + 1)
    {
      hide IsTable, BlockIter.IsGood, BlockIter.Wired, BlockFormat.Layout, BlocksCover, HandleBytes, BlockIter.At,
        KeysSorted, IsIndex, Increasing, BlockStored, Holds;
      TableFacts(table.options, table.file, table.parts);
      if entry < |data.items| {
        data.AtKey(entry);
      }
    }

    /** Goes from the g-th entry to the next one, whatever empty blocks are in between. */
    method Next(ghost g: nat)
      requires Wired() && Valid()
      modifies this, index, data
      ensures Wired() && (data == old(data) || data == null || fresh(data))
      ensures OverTable() && old(DataOk() && At(g)) ==> DataOk() && if g + 1 < |Entries()| then At(g + 1) else !Valid()
    {
      hide IsTable, BlockIter.IsGood, BlockIter.Wired, BlockFormat.Layout, BlocksCover, HandleBytes, BlockIter.At,
        KeysSorted, IsIndex, Increasing, BlockStored, Holds;
      hide Forward;
      ghost var isHere := OverTable() && DataOk() && At(g);
      if isHere {
        EntryInBlock(g);
      }
      data.Next(entry);
      entry, at := entry + 1, block;
      if isHere {
        SteppedOn(g);
      }
      SkipForward(g + 1);
    }

    lemma EntryInBlock(g: nat)
      requires OverTable() && DataOk() && At(g)
      ensures data != null && entry < |data.items|
    {
      hide IsTable, BlockIter.IsGood, BlockIter.Wired, BlockFormat.Layout, BlocksCover, HandleBytes, BlockIter.At,
        KeysSorted, IsIndex, Increasing, BlockStored, Holds;
      BlockIterIn(data, entry);
    }

    lemma SteppedBack(g: nat)
      requires OverTable() && DataOk() && data != null && block < |index.items| && index.At(block) && at == block
      requires if g > Blocks()[block].first then data.At(entry) && g == Blocks()[block].first + entry + 1
               else !data.Valid() && g == Blocks()[block].first
      ensures Backward(g)
    {
      hide IsTable, BlockIter.IsGood, BlockIter.Wired, BlockFormat.Layout, BlocksCover, HandleBytes, BlockIter.At,
        KeysSorted, IsIndex, Increasing, BlockStored, Holds;
      TableFacts(table.options, table.file, table.parts);
      if g > Blocks()[block].first {
        data.AtKey(entry);
      }
    }

    /** Goes from the g-th entry to the one before it. */
    method Prev(ghost g: nat)
      requires Wired() && Valid()
      modifies this, index, data
      ensures Wired() && (data == old(data) || data == null || fresh(data))
      ensures OverTable() && old(DataOk() && At(g)) ==> DataOk() && if g > 0 then At(g - 1) else !Valid()
    {
      hide IsTable, BlockIter.IsGood, BlockIter.Wired, BlockFormat.Layout, BlocksCover, HandleBytes, BlockIter.At,
        KeysSorted, IsIndex, Increasing, BlockStored, Holds;
      hide Backward;
      ghost var isHere := OverTable() && DataOk() && At(g);
      data.Prev(entry);
      entry, at := if entry > 0 then entry - 1 else 0, block;
      if isHere {
        SteppedBack(g);
      }
      SkipBackward(g);
    }

    /** The data cursor goes to the first entry of block i at or after the target. */
    method EnterAt(ghost i: nat, target: Bytes, ghost p: nat)
      requires Wired()
      modifies this, data
      ensures Wired() && (data == old(data) || data == null || fresh(data))
      ensures && OverTable() && old(DataOk() && IndexAt(i)) && Sought(i, target)
              && p == Scan(table.options.order, Entries(), target) ==>
                Forward(p)
    {
      hide IsTable, BlockIter.IsGood, BlockIter.Wired, BlockFormat.Layout, BlocksCover, HandleBytes, BlockIter.At,
        KeysSorted, IsIndex, Increasing, BlockStored, Holds;
      hide Order.Cmp;
      ghost var isHere := OverTable() && DataOk() && IndexAt(i);
      if isHere {
        TableFacts(table.options, table.file, table.parts);
      }
      InitDataBlock(i);
      at := i;
      ghost var j := 0;
      if data != null {
        if isHere {
          BlockSorted(table.options.order, Entries(), Blocks(), i);
        }
        label Before:
        j := data.Seek(target);
        entry := j;
        if isHere {
          assert old@Before(IndexAt(i));
          if j < |data.items| {
            data.AtKey(j);
          }
        }
      }
      if isHere && Sought(i, target) {
        SeekLands(table.options.order, Entries(), Blocks(), index.items, i, target, j);
      }
    }

    /** Block i is the first one whose index key is at or after the target. */
    ghost predicate Sought(i: nat, target: Bytes) {
      && i <= |index.items| && (forall h :: 0 <= h < i ==> index.order.Cmp(index.items[h].key, target) < 0)
      && (i < |index.items| ==> index.order.Cmp(index.items[i].key, target) >= 0)
    }

    /** Goes to the first entry at or after the target. */
    method Seek(target: Bytes)
      requires Wired()
      modifies this, index, data
      ensures Wired() && (data == old(data) || data == null || fresh(data))
      ensures OverTable() && old(DataOk()) ==>
                && DataOk()
                && var p := Scan(table.options.order, Entries(), target);
                   if p < |Entries()| then At(p) else !Valid()
    {
      hide IsTable, BlockIter.IsGood, BlockIter.Wired, BlockFormat.Layout, BlocksCover, HandleBytes, BlockIter.At,
        KeysSorted, IsIndex, Increasing, BlockStored, Holds;
      hide Order.Cmp, Forward, DataOk;
      if OverTable() {
        TableFacts(table.options, table.file, table.parts);
      }
      ghost var i := index.Seek(target);
      ghost var p := if OverTable() then Scan(table.options.order, Entries(), target) else 0;
      EnterAt(i, target, p);
      SkipForward(p);
    }

    method SeekToFirst()
      requires Wired()
      modifies this, index, data
      ensures Wired() && (data == old(data) || data == null || fresh(data))
      ensures OverTable() && old(DataOk()) ==> DataOk() && if Entries() != [] then At(0) else !Valid()
    {
      hide IsTable, BlockIter.IsGood, BlockIter.Wired, BlockFormat.Layout, BlocksCover, HandleBytes, BlockIter.At,
        KeysSorted, IsIndex, Increasing, BlockStored, Holds;
      hide Forward, DataOk;
      if OverTable() {
        TableFacts(table.options, table.file, table.parts);
        Ends(Entries(), Blocks());
      }
      index.SeekToFirst();
      EnterAtFirst(0, 0);
      SkipForward(0);
    }

    method SeekToLast()
      requires Wired()
      modifies this, index, data
      ensures Wired() && (data == old(data) || data == null || fresh(data))
      ensures OverTable() && old(DataOk()) ==> DataOk() && if Entries() != [] then At(|Entries()| - 1) else !Valid()
    {
      hide IsTable, BlockIter.IsGood, BlockIter.Wired, BlockFormat.Layout, BlocksCover, HandleBytes, BlockIter.At,
        KeysSorted, IsIndex, Increasing, BlockStored, Holds;
      hide Backward, DataOk;
      if OverTable() {
        TableFacts(table.options, table.file, table.parts);
        Ends(Entries(), Blocks());
      }
      index.SeekToLast();
      EnterAtLast(if index.items == [] then 0 else |index.items| - 1, |Entries()|);
      SkipBackward(|Entries()|);
    }
  }

  lemma BlockIterIn(it: BlockIter, i: nat)
    requires BlockFormat.Layout(it.items) && it.At(i)
    ensures i < |it.items|
  {
    hide Off;
  }

  lemma Ends(entries: seq<Pair>, blocks: seq<TableBlock>)
    requires BlocksCover(entries, blocks)
    ensures blocks == [] ==> entries == []
    ensures blocks != [] ==> blocks[0].first == 0 && blocks[|blocks| - 1].Last() == |entries|
  {
  }

  /** Where the two searches lead. */
  lemma SeekLands(o: Order, entries: seq<Pair>, blocks: seq<TableBlock>, index: seq<Item>, i: nat, k: Bytes, j: nat)
    requires BlocksCover(entries, blocks) && IsIndex(o, entries, blocks, index) && i <= |index| == |blocks|
    requires Increasing(o, entries)
    requires forall h :: 0 <= h < i ==> o.Cmp(index[h].key, k) < 0
    requires i < |index| ==>
               && o.Cmp(index[i].key, k) >= 0
               && j <= |blocks[i].items| && (forall h :: 0 <= h < j ==> o.Cmp(blocks[i].items[h].key, k) < 0)
               && (j < |blocks[i].items| ==> o.Cmp(blocks[i].items[j].key, k) >= 0)
    ensures Scan(o, entries, k) == if i < |index| then blocks[i].first + j else |entries|
  {
    hide Order.Cmp, KeysSorted, HandleBytes, IsIndex, BlocksCover, Increasing;
    if i == |index| {
      BelowIndexKey(o, entries, blocks, index, i, k);
      ScanUnique(o, entries, k, |entries|);
    } else {
      BelowInBlock(o, entries, blocks, index, i, k, j);
      BlockSorted(o, entries, blocks, i);
      if j == |blocks[i].items| && blocks[i].Last() < |entries| {
        BeyondBlock(o, entries, blocks, index, i, k);
      }
      ScanUnique(o, entries, k, blocks[i].first + j);
    }
  }

  lemma BeyondBlock(o: Order, entries: seq<Pair>, blocks: seq<TableBlock>, index: seq<Item>, i: nat, k: Bytes)
    requires BlocksCover(entries, blocks) && IsIndex(o, entries, blocks, index) && i < |index|
    requires o.Cmp(index[i].key, k) >= 0
    requires i < |blocks| && blocks[i].Last() < |entries|
    ensures o.Cmp(entries[blocks[i].Last()].0, k) >= 0
  {
    hide Order.Cmp, KeysSorted;
    var e := entries[blocks[i].Last()].0;
    assert IndexKeyOk(o, entries, blocks[i].Last(), index[i].key);
    CmpOpposite(o, index[i].key, k);
    CmpTransitive(o, k, index[i].key, e);
    CmpOpposite(o, k, e);
  }

  /** Table::NewIterator; null if the index block is not a block. */
  method NewIterator(table: Table, verifyChecksums: bool) returns (it: TwoLevelIterator?)
    ensures it != null ==>
              fresh(it) && fresh(it.index) && it.data == null && it.Wired() && !it.Valid() && it.table == table
    ensures table.IsGood() ==> it != null && it.OverTable() && it.DataOk()
  {
    hide IsTable, BlockIter.IsGood, BlockIter.Wired, BlockFormat.Layout, Holds, BlocksCover, IsIndex, KeysSorted,
      BlockStored;
    if table.IsGood() {
      TableFacts(table.options, table.file, table.parts);
    }
    var index :=
      BlockFormat.NewIterator(table.options.order, table.indexBlock, table.parts.index.items, table.parts.index.points);
    if index == null {
      return null;
    }
    it := new TwoLevelIterator(table, verifyChecksums, index);
  }

  /** Building a table of any increasing pairs and iterating over it, forwards and then backwards, gives the pairs. */
  method BuildAndIterate(options: TableOptions, blockSize: nat, blockRestartInterval: nat, pairs: seq<Pair>,
                         paranoidChecks: bool, verifyChecksums: bool)
    returns (size: nat, forward: seq<Pair>, backward: seq<Pair>)
    requires blockRestartInterval >= 1 && (options.policy.Some? ==> options.policy.value.Valid())
    requires Increasing(options.order, pairs) && forall i :: 0 <= i < |pairs| ==> options.order.IsKey(pairs[i].0)
    ensures size < 0x1_0000_0000 ==> forward == backward == pairs
  {
    hide IsTable, Table.IsGood, Increasing, Order.IsKey, TwoLevelIterator.OverTable, TwoLevelIterator.DataOk,
      TwoLevelIterator.Wired, TwoLevelIterator.At;
    var file;
    ghost var parts;
    file, parts := BuildTable(options, blockSize, blockRestartInterval, pairs);
    size := |file|;
    forward, backward := [], [];
    if size >= 0x1_0000_0000 {
      return;
    }
    var table := Table.Open(options, file, paranoidChecks, parts);
    var it := NewIterator(table, verifyChecksums);
    forward := ReadForward(it);
    backward := ReadBackward(it);
  }

  /** From the first entry to the last. */
  method ReadForward(it: TwoLevelIterator) returns (read: seq<Pair>)
    requires it.Wired() && it.OverTable() && it.DataOk()
    modifies it, it.index, it.data
    ensures it.Wired() && it.DataOk() && (it.data == old(it.data) || it.data == null || fresh(it.data))
    ensures read == it.Entries()
  {
    hide TwoLevelIterator.OverTable, TwoLevelIterator.DataOk, TwoLevelIterator.Wired, TwoLevelIterator.At;
    it.SeekToFirst();
    read := [];
    while it.Valid()
      invariant it.Wired() && it.DataOk() && (it.data == old(it.data) || it.data == null || fresh(it.data))
      invariant |read| <= |it.Entries()| && read == it.Entries()[..|read|]
      invariant if |read| < |it.Entries()| then it.At(|read|) else !it.Valid()
      decreases |it.Entries()| - |read|
    {
      ghost var g := |read|;
      it.AtMeans(g);
      read := read + [(it.Key(), it.Val())];
      it.Next(g);
    }
    if |read| < |it.Entries()| {
      it.AtMeans(|read|);
    }
    assert it.Entries()[..|read|] == it.Entries();
  }

  /** From the last entry to the first. */
  method ReadBackward(it: TwoLevelIterator) returns (read: seq<Pair>)
    requires it.Wired() && it.OverTable() && it.DataOk()
    modifies it, it.index, it.data
    ensures it.Wired() && it.DataOk() && (it.data == old(it.data) || it.data == null || fresh(it.data))
    ensures read == it.Entries()
  {
    hide TwoLevelIterator.OverTable, TwoLevelIterator.DataOk, TwoLevelIterator.Wired, TwoLevelIterator.At;
    it.SeekToLast();
    read := [];
    ghost var n := |it.Entries()|;
    while it.Valid()
      invariant it.Wired() && it.DataOk() && (it.data == old(it.data) || it.data == null || fresh(it.data))
      invariant |read| <= n && read == it.Entries()[n - |read|..]
      invariant if |read| < n then it.At(n - |read| - 1) else !it.Valid()
      decreases n - |read|
    {
      ghost var g := n - |read| - 1;
      it.AtMeans(g);
      read := [(it.Key(), it.Val())] + read;
      it.Prev(g);
    }
    if |read| < n {
      it.AtMeans(n - |read| - 1);
    }
    assert it.Entries()[n - |read|..] == it.Entries();
  }
}
