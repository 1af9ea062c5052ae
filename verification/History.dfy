/** Write batches, the history they form, and the memtables built from them
    (db/write_batch.cc, db/memtable.cc). */
module History {
  import opened DbFormat
  import opened Visibility
  import Version

  datatype Op = Put(key: UserKey, value: Value) | Delete(key: UserKey)

  /** A write batch with the sequence number of its first operation. */
  datatype Batch = Batch(first: nat, ops: seq<Op>)

  /** Sequence number after the batch's last operation. */
  function End(b: Batch): nat { b.first + |b.ops| }

  /** MemTableInserter: the i-th operation gets the i-th sequence number. */
  function EntryAt(b: Batch, i: nat): Entry
    requires i < |b.ops|
  {
    match b.ops[i]
    case Put(k, v) => Entry(InternalKey(k, b.first + i, TypeValue), v)
    case Delete(k) => Entry(InternalKey(k, b.first + i, TypeDeletion), "")
  }

  ghost function BatchSet(b: Batch): set<Entry> {
    set i | 0 <= i < |b.ops| :: EntryAt(b, i)
  }

  /** All entries ever written by these batches. */
  ghost function HistSet(bs: seq<Batch>): set<Entry> {
    set n, i | 0 <= n < |bs| && 0 <= i < |bs[n].ops| :: EntryAt(bs[n], i)
  }

  lemma HistSetAppend(a: seq<Batch>, b: seq<Batch>)
    ensures HistSet(a + b) == HistSet(a) + HistSet(b)
  {
    var all := a + b;
    forall e | e in HistSet(all) ensures e in HistSet(a) + HistSet(b) {
      var n, i :| 0 <= n < |all| && 0 <= i < |all[n].ops| && e == EntryAt(all[n], i);
      if n < |a| {
        assert all[n] == a[n];
      } else {
        assert all[n] == b[n - |a|];
      }
    }
    forall e | e in HistSet(a) ensures e in HistSet(all) {
      var n, i :| 0 <= n < |a| && 0 <= i < |a[n].ops| && e == EntryAt(a[n], i);
      assert all[n] == a[n];
    }
    forall e | e in HistSet(b) ensures e in HistSet(all) {
      var n, i :| 0 <= n < |b| && 0 <= i < |b[n].ops| && e == EntryAt(b[n], i);
      assert all[n + |a|] == b[n];
    }
  }

  lemma HistSetOne(b: Batch)
    ensures HistSet([b]) == BatchSet(b)
  {
    forall e | e in BatchSet(b) ensures e in HistSet([b]) {
      var i :| 0 <= i < |b.ops| && e == EntryAt(b, i);
      assert [b][0] == b;
    }
  }

  /** Batches take increasing, non-overlapping sequence ranges that end by `last`. Gaps are possible:
      sequence numbers of writes lost in a crash are not used again. */
  ghost predicate HistoryOk(bs: seq<Batch>, last: nat) {
    && (forall n :: 0 <= n < |bs| ==> 1 <= bs[n].first && End(bs[n]) <= last + 1)
    && (forall n, m :: 0 <= n < m < |bs| ==> End(bs[n]) <= bs[m].first)
  }

  lemma LaterBatchIsNewer(bs: seq<Batch>, last: nat, n: nat, i: nat, m: nat, j: nat)
    requires HistoryOk(bs, last) && n < m < |bs| && i < |bs[n].ops| && j < |bs[m].ops|
    ensures EntryAt(bs[n], i).key.seqno < EntryAt(bs[m], j).key.seqno
  {
    assert End(bs[n]) <= bs[m].first;
  }

  lemma HistoryFacts(bs: seq<Batch>, last: nat)
    requires HistoryOk(bs, last)
    ensures Distinct(HistSet(bs))
    ensures forall e :: e in HistSet(bs) ==> e.key.seqno <= last
  {
    hide HistSet, HistoryOk;
    forall x, y | x in HistSet(bs) && y in HistSet(bs) && x.key.seqno == y.key.seqno ensures x == y {
      var n, i := BatchOf(bs, x);
      var m, j := BatchOf(bs, y);
      if n < m {
        LaterBatchIsNewer(bs, last, n, i, m, j);
      } else if m < n {
        LaterBatchIsNewer(bs, last, m, j, n, i);
      }
    }
    forall e | e in HistSet(bs) ensures e.key.seqno <= last {
      var n, i := BatchOf(bs, e);
      EntryBound(bs, last, n, i);
    }
  }

  /** The operation that an entry of the history comes from. */
  lemma BatchOf(bs: seq<Batch>, e: Entry) returns (n: nat, i: nat)
    requires e in HistSet(bs)
    ensures n < |bs| && i < |bs[n].ops| && e == EntryAt(bs[n], i)
  {
    n, i :| 0 <= n < |bs| && 0 <= i < |bs[n].ops| && e == EntryAt(bs[n], i);
  }

  lemma EntryBound(bs: seq<Batch>, last: nat, n: nat, i: nat)
    requires HistoryOk(bs, last) && n < |bs| && i < |bs[n].ops|
    ensures EntryAt(bs[n], i).key.seqno <= last
  {
    assert End(bs[n]) <= last + 1;
  }

  lemma HistoryOrder(a: seq<Batch>, b: seq<Batch>, last: nat)
    requires HistoryOk(a + b, last)
    ensures HistoryOk(a, last) && HistoryOk(b, last)
    ensures forall x, y :: x in HistSet(a) && y in HistSet(b) ==> x.key.seqno < y.key.seqno
  {
    hide HistSet, HistoryOk;
    HistoryParts(a, b, last);
    forall x, y | x in HistSet(a) && y in HistSet(b) ensures x.key.seqno < y.key.seqno {
      var n, i := BatchOf(a, x);
      var m, j := BatchOf(b, y);
      assert End(a[n]) <= b[m].first;
    }
  }

  lemma HistoryParts(a: seq<Batch>, b: seq<Batch>, last: nat)
    requires HistoryOk(a + b, last)
    ensures HistoryOk(a, last) && HistoryOk(b, last)
    ensures forall n, m :: 0 <= n < |a| && 0 <= m < |b| ==> End(a[n]) <= b[m].first
  {
    var all := a + b;
    assert forall n :: 0 <= n < |a| ==> all[n] == a[n];
    assert forall n :: 0 <= n < |b| ==> all[n + |a|] == b[n];
    forall n, m | 0 <= n < |a| && 0 <= m < |b| ensures End(a[n]) <= b[m].first {
      assert End(all[n]) <= all[m + |a|].first;
    }
  }

  lemma HistoryExtend(bs: seq<Batch>, last: nat, b: Batch)
    requires HistoryOk(bs, last) && b.first == last + 1
    ensures HistoryOk(bs + [b], last + |b.ops|)
  {
  }

  /** The largest sequence number used by the batches, as recovery computes it. */
  function MaxSequence(bs: seq<Batch>): nat {
    if bs == [] then 0
    else
      var before, b := MaxSequence(bs[..|bs| - 1]), bs[|bs| - 1];
      if End(b) > before + 1 then End(b) - 1 else before
  }

  lemma {:induction false} MaxSequenceBounds(bs: seq<Batch>, last: nat)
    requires HistoryOk(bs, last)
    ensures HistoryOk(bs, MaxSequence(bs)) && MaxSequence(bs) <= last
  {
    if bs != [] {
      var before := bs[..|bs| - 1];
      HistoryPrefix(bs, last, |bs| - 1);
      MaxSequenceBounds(before, last);
      forall n | 0 <= n < |bs| ensures End(bs[n]) <= MaxSequence(bs) + 1 {
        if n < |bs| - 1 {
          assert before[n] == bs[n];
        }
      }
    }
  }

  lemma HistoryRaise(bs: seq<Batch>, last: nat, later: nat)
    requires HistoryOk(bs, last) && last <= later
    ensures HistoryOk(bs, later)
  {
  }

  lemma HistoryJoin(a: seq<Batch>, b: seq<Batch>, last: nat, lower: nat)
    requires HistoryOk(a + b, last) && HistoryOk(a, lower) && HistoryOk(b, lower)
    ensures HistoryOk(a + b, lower)
  {
  }

  lemma HistoryPrefix(bs: seq<Batch>, last: nat, n: nat)
    requires HistoryOk(bs, last) && n <= |bs|
    ensures HistoryOk(bs[..n], last)
  {
  }

  // ---- Memtables ------------------------------------------------------------------------------

  /** Insertion into the memtable's ordered set. */
  function Insert(mem: seq<Entry>, e: Entry): (r: seq<Entry>)
    ensures forall x :: x in r <==> x == e || x in mem
  {
    if mem == [] then [e]
    else if Less(e.key, mem[0].key) then [e] + mem
    else
      assert forall x :: x in mem <==> x == mem[0] || x in mem[1..];
      [mem[0]] + Insert(mem[1..], e)
  }

  lemma {:induction false} InsertSorted(mem: seq<Entry>, e: Entry)
    requires Sorted(mem) && forall x :: x in mem ==> x.key != e.key
    ensures Sorted(Insert(mem, e))
  {
    if mem != [] && !Less(e.key, mem[0].key) {
      var rest := mem[1..];
      assert mem[0] in mem;
      assert forall j :: 0 <= j < |rest| ==> rest[j] == mem[j + 1] && rest[j] in mem;
      InsertSorted(rest, e);
      var r := Insert(rest, e);
      forall j | 0 <= j < |r| ensures Less(mem[0].key, r[j].key) {
        assert r[j] in r;
      }
    } else {
      assert forall j :: 0 <= j < |mem| ==> mem[j] in mem;
    }
  }

  /** WriteBatchInternal::InsertInto: the first n operations of a batch applied to a memtable. */
  function InsertOps(mem: seq<Entry>, b: Batch, n: nat): seq<Entry>
    requires n <= |b.ops|
  {
    if n == 0 then mem else Insert(InsertOps(mem, b, n - 1), EntryAt(b, n - 1))
  }

  ghost function OpSet(b: Batch, n: nat): set<Entry>
    requires n <= |b.ops|
  {
    set i | 0 <= i < n :: EntryAt(b, i)
  }

  lemma OpSetStep(b: Batch, n: nat)
    requires 0 < n <= |b.ops|
    ensures OpSet(b, n) == OpSet(b, n - 1) + {EntryAt(b, n - 1)}
    ensures forall x :: x in OpSet(b, n - 1) ==> x.key.seqno < EntryAt(b, n - 1).key.seqno
  {
    forall x | x in OpSet(b, n) ensures x in OpSet(b, n - 1) + {EntryAt(b, n - 1)} {
      var i :| 0 <= i < n && x == EntryAt(b, i);
      assert i < n - 1 ==> x in OpSet(b, n - 1);
    }
  }

  lemma {:induction false} InsertOpsEffect(mem: seq<Entry>, b: Batch, n: nat)
    requires n <= |b.ops| && Sorted(mem) && forall x :: x in mem ==> x.key.seqno < b.first
    ensures Sorted(InsertOps(mem, b, n))
    ensures Version.Elements(InsertOps(mem, b, n)) == Version.Elements(mem) + OpSet(b, n)
  {
    if n > 0 {
      hide Sorted, Insert;
      InsertOpsEffect(mem, b, n - 1);
      OpSetStep(b, n);
      var before, e := InsertOps(mem, b, n - 1), EntryAt(b, n - 1);
      forall x | x in before ensures x.key != e.key {
        assert x in Version.Elements(before);
      }
      InsertSorted(before, e);
      assert Version.Elements(Insert(before, e)) == Version.Elements(before) + {e};
    }
  }

  function InsertBatch(mem: seq<Entry>, b: Batch): seq<Entry> { InsertOps(mem, b, |b.ops|) }

  /** The memtable that holds a list of batches. */
  function MemOf(bs: seq<Batch>): seq<Entry> {
    if bs == [] then [] else InsertBatch(MemOf(bs[..|bs| - 1]), bs[|bs| - 1])
  }

  lemma MemOfAppend(bs: seq<Batch>, b: Batch)
    ensures MemOf(bs + [b]) == InsertBatch(MemOf(bs), b)
  {
    assert (bs + [b])[..|bs|] == bs;
  }

  lemma {:induction false} MemOfEffect(bs: seq<Batch>, last: nat)
    requires HistoryOk(bs, last)
    ensures Sorted(MemOf(bs)) && Version.Elements(MemOf(bs)) == HistSet(bs)
  {
    if bs != [] {
      var before, b := bs[..|bs| - 1], bs[|bs| - 1];
      assert bs == before + [b];
      HistoryOrder(before, [b], last);
      MemOfEffect(before, last);
      MemBelow(before, b, last);
      InsertOpsEffect(MemOf(before), b, |b.ops|);
      HistSetAppend(before, [b]);
      HistSetOne(b);
      assert OpSet(b, |b.ops|) == BatchSet(b);
    }
  }

  lemma MemBelow(before: seq<Batch>, b: Batch, last: nat)
    requires HistoryOk(before + [b], last) && Version.Elements(MemOf(before)) == HistSet(before)
    ensures forall x :: x in MemOf(before) ==> x.key.seqno < b.first
  {
    var all := before + [b];
    forall x | x in MemOf(before) ensures x.key.seqno < b.first {
      assert x in Version.Elements(MemOf(before));
      var n, i :| 0 <= n < |before| && 0 <= i < |before[n].ops| && x == EntryAt(before[n], i);
      assert all[n] == before[n] && all[|before|] == b;
    }
  }
}
