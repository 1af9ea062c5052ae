/** What a reader must see, said in terms of the operations that were written: the last one on a key decides
    (MemTableInserter in db/write_batch.cc; MemTable::Get in db/memtable.cc). */
module Answers {
  import opened DbFormat
  import opened Visibility
  import opened History

  /** Of the first n operations, number i is the last one on the key. */
  ghost predicate LastOn(ops: seq<Op>, n: nat, k: UserKey, i: int) {
    0 <= i < n <= |ops| && ops[i].key == k && forall j :: i < j < n ==> ops[j].key != k
  }

  /** Where a reader of the key got `before`, he gets `r` after the first n operations. */
  ghost predicate AfterOps(ops: seq<Op>, n: nat, k: UserKey, before: Option<Value>, r: Option<Value>)
    requires n <= |ops|
  {
    && (forall i :: LastOn(ops, n, k, i) && ops[i].Put? ==> r == Some(ops[i].value))
    && (forall i :: LastOn(ops, n, k, i) && ops[i].Delete? ==> r == None)
    && ((forall i :: 0 <= i < n ==> ops[i].key != k) ==> r == before)
  }

  /** Either no operation is on the key, or one is the last. */
  lemma {:induction false} FindLast(ops: seq<Op>, n: nat, k: UserKey) returns (i: int)
    requires n <= |ops|
    ensures LastOn(ops, n, k, i) || forall j :: 0 <= j < n ==> ops[j].key != k
    ensures LastOn(ops, n, k, i) || forall j :: !LastOn(ops, n, k, j)
  {
    i := 0;
    if n > 0 {
      if ops[n - 1].key == k {
        i := n - 1;
      } else {
        i := FindLast(ops, n - 1, k);
      }
    }
  }

  lemma OneLast(ops: seq<Op>, n: nat, k: UserKey, i: int, j: int)
    requires LastOn(ops, n, k, i) && LastOn(ops, n, k, j)
    ensures i == j
  {
  }

  /** The last operation of a batch on a key decides what readers of the key get, at every sequence number inside
      the batch. A key that the batch does not touch reads as it did before. */
  lemma LastOperationDecides(bs: seq<Batch>, b: Batch, last: nat, n: nat, k: UserKey)
    requires HistoryOk(bs + [b], last) && n <= |b.ops|
    ensures b.first > 0
    ensures AfterOps(b.ops, n, k, Lookup(HistSet(bs), k, b.first - 1), Lookup(HistSet(bs + [b]), k, b.first + n - 1))
  {
    hide HistSet, BatchSet, HistoryOk, Lookup;
    FirstIsPositive(bs, b, last);
    HistSetAppend(bs, [b]);
    HistSetOne(b);
    HistoryOrder(bs, [b], last);
    HistoryFacts(bs + [b], last);
    HistoryFacts(bs, last);
    Earlier(bs, b, last);
    var i := FindLast(b.ops, n, k);
    if LastOn(b.ops, n, k, i) {
      LastIsNewest(bs, b, n, k, i);
      LookupIs(HistSet(bs + [b]), k, b.first + n - 1, EntryAt(b, i));
      forall j | LastOn(b.ops, n, k, j) ensures j == i {
        OneLast(b.ops, n, k, i, j);
      }
    } else {
      NotTouched(bs, b, n, k, b.first - 1, b.first + n - 1);
      SameVisible(HistSet(bs), HistSet(bs + [b]), k, b.first - 1, b.first + n - 1);
    }
  }

  lemma FirstIsPositive(bs: seq<Batch>, b: Batch, last: nat)
    requires HistoryOk(bs + [b], last)
    ensures b.first > 0
  {
    assert (bs + [b])[|bs|] == b;
  }

  lemma Earlier(bs: seq<Batch>, b: Batch, last: nat)
    requires HistoryOk(bs + [b], last)
    ensures forall e :: e in HistSet(bs) ==> e.key.seqno < b.first
  {
    hide HistSet, HistoryOk;
    HistoryParts(bs, [b], last);
    forall e | e in HistSet(bs) ensures e.key.seqno < b.first {
      var n, i := BatchOf(bs, e);
      assert End(bs[n]) <= [b][0].first;
    }
  }

  lemma LastIsNewest(bs: seq<Batch>, b: Batch, n: nat, k: UserKey, i: int)
    requires HistSet(bs + [b]) == HistSet(bs) + BatchSet(b) && LastOn(b.ops, n, k, i)
    requires forall e :: e in HistSet(bs) ==> e.key.seqno < b.first
    ensures b.first + n > 0
    ensures Newest(HistSet(bs + [b]), k, b.first + n - 1, EntryAt(b, i))
  {
    hide HistSet;
    assert EntryAt(b, i) in BatchSet(b);
    forall x | Visible(HistSet(bs + [b]), k, b.first + n - 1, x) ensures x.key.seqno <= EntryAt(b, i).key.seqno {
      if x in BatchSet(b) {
        var j :| 0 <= j < |b.ops| && x == EntryAt(b, j);
      }
    }
  }

  lemma NotTouched(bs: seq<Batch>, b: Batch, n: nat, k: UserKey, s: nat, t: nat)
    requires HistSet(bs + [b]) == HistSet(bs) + BatchSet(b) && n <= |b.ops| && s == b.first - 1 && t == b.first + n - 1
    requires forall e :: e in HistSet(bs) ==> e.key.seqno < b.first
    requires forall i :: 0 <= i < n ==> b.ops[i].key != k
    ensures forall e :: Visible(HistSet(bs + [b]), k, t, e) <==> Visible(HistSet(bs), k, s, e)
  {
    hide HistSet;
    forall e ensures Visible(HistSet(bs + [b]), k, t, e) <==> Visible(HistSet(bs), k, s, e) {
      if e in BatchSet(b) {
        var j :| 0 <= j < |b.ops| && e == EntryAt(b, j);
      }
    }
  }

  lemma SameVisible(a: set<Entry>, b: set<Entry>, k: UserKey, s: nat, t: nat)
    requires Distinct(a) && Distinct(b) && forall e :: Visible(b, k, t, e) <==> Visible(a, k, s, e)
    ensures Lookup(a, k, s) == Lookup(b, k, t)
  {
    if w :| Visible(a, k, s, w) {
      var e := NewestExists(a, k, s, w);
      LookupIs(a, k, s, e);
      LookupIs(b, k, t, e);
    }
  }

  /** Operations after operations. */
  lemma AfterBoth(a: seq<Op>, b: seq<Op>, k: UserKey, x: Option<Value>, y: Option<Value>, z: Option<Value>)
    requires AfterOps(a, |a|, k, x, y) && AfterOps(b, |b|, k, y, z)
    ensures AfterOps(a + b, |a + b|, k, x, z)
  {
    forall i | LastOn(a + b, |a + b|, k, i) ensures z == if (a + b)[i].Put? then Some((a + b)[i].value) else None {
      LastOfBoth(a, b, k, i);
    }
    if forall i :: 0 <= i < |a + b| ==> (a + b)[i].key != k {
      Parts(a, b);
      forall i | 0 <= i < |a| ensures a[i].key != k {
        assert (a + b)[i].key != k;
      }
      forall i | 0 <= i < |b| ensures b[i].key != k {
        assert (a + b)[|a| + i].key != k;
      }
    }
  }

  lemma NoOps(k: UserKey, x: Option<Value>)
    ensures AfterOps([], 0, k, x, x)
  {
  }

  lemma NothingYet(ops: seq<Op>, k: UserKey, x: Option<Value>, y: Option<Value>)
    requires AfterOps(ops, 0, k, x, y)
    ensures x == y
  {
  }

  lemma Parts<T>(a: seq<T>, b: seq<T>)
    ensures forall i :: 0 <= i < |a| ==> (a + b)[i] == a[i]
    ensures forall i :: 0 <= i < |b| ==> (a + b)[|a| + i] == b[i]
  {
  }

  lemma LastOfBoth(a: seq<Op>, b: seq<Op>, k: UserKey, i: int)
    requires LastOn(a + b, |a + b|, k, i)
    ensures i >= |a| ==> LastOn(b, |b|, k, i - |a|)
    ensures i < |a| ==> LastOn(a, |a|, k, i) && forall j :: 0 <= j < |b| ==> b[j].key != k
  {
    Parts(a, b);
    forall j | 0 <= j < |b| && i < |a| + j ensures b[j].key != k {
      assert (a + b)[|a| + j].key != k;
    }
    forall j | i < j < |a| ensures a[j].key != k {
      assert (a + b)[j].key != k;
    }
  }
}
