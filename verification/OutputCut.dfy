/** Where DBImpl::DoCompactionWork cuts its output (db/db_impl.cc): a run of keys for which one table ends with a
    deletion and the next one begins with the value it deletes. */
module OutputCut {
  import opened Coding
  import opened Comparator
  import opened BlockFormat
  import opened TableFormat
  import opened Tables
  import opened TableBuilding
  import DbFormat
  import CrashBytes
  import Exposure

  // The ranges that SanitizeOptions leaves.
  const MIN_FILE_SIZE := 0x10_0000
  const MAX_BLOCK_SIZE := 0x40_0000

  /** The size of a block with one entry. */
  function OneEntry(e: Pair): nat { 8 + |ItemBytes(Item(0, e.0, e.1))| }

  lemma {:induction false} PrefixLength(n: nat)
    ensures 1 <= |PutVarint32(n)| <= 5
  {
  }

  lemma OneEntrySize(e: Pair)
    ensures |e.0| + |e.1| + 11 <= OneEntry(e) <= |e.0| + |e.1| + 23
  {
    hide PutVarint32;
    PrefixLength(0);
    PrefixLength(|e.0|);
    PrefixLength(|e.1|);
  }

  /** The compaction loop on three entries it keeps: a value of a MiB or more, a deletion, and the value it deletes.
      With a block size that the first entry misses by one byte, the block fills with the deletion, the file reaches
      its largest size, and the table is cut between the deletion and the deleted value. */
  method CutBehindDeletion(options: TableOptions, blockRestartInterval: nat, first: Pair, deletion: Pair, deleted: Pair)
    returns (blockSize: nat, maxOutputFileSize: nat, outputs: seq<seq<Pair>>)
    requires blockRestartInterval >= 1 && (options.policy.Some? ==> options.policy.value.Valid())
    requires options.order.IsKey(first.0) && options.order.IsKey(deletion.0) && options.order.IsKey(deleted.0)
    requires options.order.Cmp(first.0, deletion.0) < 0 && options.order.Cmp(deletion.0, deleted.0) < 0
    requires MIN_FILE_SIZE <= |first.1| && |first.0| + |first.1| + 24 <= MAX_BLOCK_SIZE
    ensures MIN_FILE_SIZE <= maxOutputFileSize <= blockSize <= MAX_BLOCK_SIZE
    ensures outputs == [[first, deletion], [deleted]]
  {
    hide TableBuilder.Valid, Order.Cmp, Order.IsKey, ItemBytes, IsTable;
    OneEntrySize(first);
    blockSize, maxOutputFileSize := OneEntry(first) + 1, MIN_FILE_SIZE;
    var input := [first, deletion, deleted];
    outputs := [];
    var builder: TableBuilder? := null;
    var current: seq<Pair> := [];
    for i := 0 to |input|
      invariant builder != null ==>
                  && fresh(builder) && fresh(builder.dataBlock) && fresh(builder.indexBlock)
                  && (builder.filterBlock != null ==> fresh(builder.filterBlock))
                  && builder.Valid() && !builder.closed && builder.options == options && builder.blockSize == blockSize
                  && builder.entries == current
      invariant i == 0 ==> builder == null && outputs == []
      invariant i == 1 ==> builder != null && outputs == [] && current == [first] && builder.offset == 0
                           && builder.dataBlock.CurrentSizeEstimate() == OneEntry(first)
      invariant i == 2 ==> builder == null && outputs == [[first, deletion]]
      invariant i == 3 ==> if builder == null then outputs == [[first, deletion], [deleted]]
                           else outputs == [[first, deletion]] && current == [deleted]
    {
      if builder == null {
        builder := new TableBuilder(options, blockSize, blockRestartInterval);
        current := [];
      }
      ghost var estimate := builder.Add(input[i].0, input[i].1);
      current := current + [input[i]];
      if i == 1 {
        assert current == [first, deletion] && estimate >= blockSize;
      } else {
        assert current == [input[i]];
      }
      if builder.FileSize() >= maxOutputFileSize {
        ghost var parts := builder.Finish();
        assert parts.entries == current;
        outputs := outputs + [current];
        assert i == 1 ==> outputs == [[first, deletion]];
        assert i == 2 ==> outputs == [[first, deletion], [deleted]];
        builder := null;
      }
    }
    if builder != null {
      ghost var parts := builder.Finish();
      assert parts.entries == current;
      outputs := outputs + [current];
    }
  }

  // ---- The run in which a deleted value comes back -------------------------------------------------

  /** How an entry of the engine is spelled in a table: user key, packed sequence number and type; value. */
  function Spell(sp: CrashBytes.Spelling, e: DbFormat.Entry): Pair
    requires e.key.Packed() < 0x1_0000_0000_0000_0000
  {
    (sp.key(e.key.user) + Fixed64(e.key.Packed()), sp.value(e.value))
  }

  lemma SpelledKey(sp: CrashBytes.Spelling, e: DbFormat.Entry)
    requires e.key.Packed() < 0x1_0000_0000_0000_0000
    ensures UserPart(Spell(sp, e).0) == sp.key(e.key.user) && PackedPart(Spell(sp, e).0) == e.key.Packed()
    ensures InternalKeys.IsKey(Spell(sp, e).0)
  {
    hide Fixed64, DecodeFixed64;
    var k := Spell(sp, e).0;
    assert k[..|k| - 8] == sp.key(e.key.user) && k[|k| - 8..] == Fixed64(e.key.Packed()) + [];
    DecodeInvertsFixed64(e.key.Packed(), []);
  }

  /** The spelling keeps the order of the comparator. */
  lemma SpelledOrder(sp: CrashBytes.Spelling, a: DbFormat.Entry, b: DbFormat.Entry)
    requires a.key.Packed() < 0x1_0000_0000_0000_0000 && b.key.Packed() < 0x1_0000_0000_0000_0000
    requires a.key.user != b.key.user ==> Compare(sp.key(a.key.user), sp.key(b.key.user)) < 0
    requires DbFormat.Less(a.key, b.key)
    ensures InternalKeys.Cmp(Spell(sp, a).0, Spell(sp, b).0) < 0
  {
    hide Compare, UserPart, PackedPart, Spell;
    SpelledKey(sp, a);
    SpelledKey(sp, b);
    CompareIsOrder(sp.key(a.key.user), sp.key(b.key.user));
  }

  /** The first compaction of that run, on bytes: for any spelling of its two user keys that keeps their order and any
      first value of a MiB or more, the loop cuts its output into the two tables of the run. */
  method CutOfTheRun(options: TableOptions, blockRestartInterval: nat, sp: CrashBytes.Spelling, v: Exposure.Values)
    returns (blockSize: nat, maxOutputFileSize: nat, outputs: seq<seq<Pair>>)
    requires options.order == InternalKeys && Compare(sp.key(1), sp.key(2)) < 0
    requires blockRestartInterval >= 1 && (options.policy.Some? ==> options.policy.value.Valid())
    requires MIN_FILE_SIZE <= |sp.value(v.first)| && |sp.key(1)| + |sp.value(v.first)| + 32 <= MAX_BLOCK_SIZE
    ensures MIN_FILE_SIZE <= maxOutputFileSize <= blockSize <= MAX_BLOCK_SIZE
    ensures outputs == [[Spell(sp, Exposure.First(v)), Spell(sp, Exposure.GONE)], [Spell(sp, Exposure.Old(v))]]
    ensures Exposure.T8(v).entries == [Exposure.First(v), Exposure.GONE] && Exposure.T9(v).entries == [Exposure.Old(v)]
  {
    hide Compare, Fixed64;
    SpelledKey(sp, Exposure.First(v));
    SpelledKey(sp, Exposure.GONE);
    SpelledKey(sp, Exposure.Old(v));
    SpelledOrder(sp, Exposure.First(v), Exposure.GONE);
    SpelledOrder(sp, Exposure.GONE, Exposure.Old(v));
    hide Order.Cmp, Order.IsKey;
    blockSize, maxOutputFileSize, outputs :=
      CutBehindDeletion(options, blockRestartInterval, Spell(sp, Exposure.First(v)), Spell(sp, Exposure.GONE),
                        Spell(sp, Exposure.Old(v)));
  }
}
