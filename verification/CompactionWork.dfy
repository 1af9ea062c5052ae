/** The compaction loop: which entries are dropped, and the tables it writes
    (DBImpl::DoCompactionWork in db/db_impl.cc, Compaction in db/version_set.cc). */
module CompactionWork {
  import opened DbFormat
  import opened Version

  // ---- Merged input ---------------------------------------------------------------------------

  /** What a merging iterator over two sorted runs yields. */
  function Merge(a: seq<Entry>, b: seq<Entry>): (r: seq<Entry>)
    ensures forall e :: e in r <==> e in a || e in b
    decreases |a| + |b|
  {
    if a == [] then b
    else if b == [] then a
    else if Less(b[0].key, a[0].key) then
      assert forall x :: x in b <==> x == b[0] || x in b[1..];
      [b[0]] + Merge(a, b[1..])
    else
      assert forall x :: x in a <==> x == a[0] || x in a[1..];
      [a[0]] + Merge(a[1..], b)
  }

  ghost predicate InFiles(fs: Level, e: Entry) {
    exists f :: f in fs && e in f.entries
  }

  /** The input of a compaction: all entries of its files in key order. */
  function MergeFiles(fs: Level): (r: seq<Entry>) {
    if fs == [] then [] else Merge(fs[0].entries, MergeFiles(fs[1..]))
  }

  lemma {:induction false} MergeFilesMembers(fs: Level)
    ensures forall e :: e in MergeFiles(fs) <==> InFiles(fs, e)
  {
    if fs != [] {
      MergeFilesMembers(fs[1..]);
      forall e ensures e in MergeFiles(fs) <==> InFiles(fs, e) {
        assert InFiles(fs[1..], e) ==> InFiles(fs, e) by {
          if f :| f in fs[1..] && e in f.entries { assert f in fs; }
        }
        if f :| f in fs && e in f.entries {
          assert f == fs[0] || f in fs[1..];
        }
        assert fs[0] in fs;
      }
    }
  }

  /** The two runs have no key in common. */
  ghost predicate NoCommonKey(a: seq<Entry>, b: seq<Entry>) {
    forall x, y :: x in a && y in b ==> x.key != y.key
  }

  lemma Tail(es: seq<Entry>)
    requires es != [] && Sorted(es)
    ensures Sorted(es[1..]) && forall x :: x in es[1..] ==> Less(es[0].key, x.key)
    ensures forall x :: x in es[1..] ==> x in es
  {
    assert forall j :: 0 <= j < |es[1..]| ==> es[1..][j] == es[j + 1];
  }

  lemma Headed(e: Entry, es: seq<Entry>)
    requires Sorted(es) && forall x :: x in es ==> Less(e.key, x.key)
    ensures Sorted([e] + es)
  {
    assert forall j :: 0 <= j < |es| ==> es[j] in es;
  }

  lemma KeysCompare(a: InternalKey, b: InternalKey)
    ensures a == b || Less(a, b) || Less(b, a)
  {
  }

  lemma {:induction false} MergeSorted(a: seq<Entry>, b: seq<Entry>)
    requires Sorted(a) && Sorted(b) && NoCommonKey(a, b)
    ensures Sorted(Merge(a, b))
    decreases |a| + |b|
  {
    if a != [] && b != [] {
      Tail(a);
      Tail(b);
      assert a[0] in a && b[0] in b;
      KeysCompare(a[0].key, b[0].key);
      if Less(b[0].key, a[0].key) {
        MergeSorted(a, b[1..]);
        assert forall x :: x in a ==> x == a[0] || x in a[1..];
        Headed(b[0], Merge(a, b[1..]));
      } else {
        MergeSorted(a[1..], b);
        assert forall x :: x in b ==> x == b[0] || x in b[1..];
        Headed(a[0], Merge(a[1..], b));
      }
    }
  }

  ghost predicate Separate(fs: Level) {
    forall i, j :: 0 <= i < j < |fs| ==> NoCommonKey(fs[i].entries, fs[j].entries)
  }

  lemma SeparateTail(fs: Level)
    requires fs != [] && FilesOk(fs) && Separate(fs)
    ensures FilesOk(fs[1..]) && Separate(fs[1..])
  {
    assert forall j :: 0 <= j < |fs[1..]| ==> fs[1..][j] == fs[j + 1];
  }

  lemma {:induction false} MergeFilesSorted(fs: Level)
    requires FilesOk(fs) && Separate(fs)
    ensures Sorted(MergeFiles(fs))
  {
    if fs != [] {
      var rest := fs[1..];
      SeparateTail(fs);
      MergeFilesSorted(rest);
      MergeFilesMembers(rest);
      hide Sorted, Merge;
      assert fs[0] in fs;
      forall x, y | x in fs[0].entries && y in MergeFiles(rest) ensures x.key != y.key {
        var f :| f in rest && y in f.entries;
        var j :| 0 <= j < |rest| && rest[j] == f;
        assert NoCommonKey(fs[0].entries, fs[j + 1].entries);
      }
      MergeSorted(fs[0].entries, MergeFiles(rest));
    }
  }

  // ---- Drop rules -----------------------------------------------------------------------------

  /** Rule (A): an earlier input entry for the same user key is visible to every reader that could
      see `e`. */
  ghost predicate Hidden(input: seq<Entry>, smallest: nat, e: Entry) {
    exists x :: x in input && x.key.user == e.key.user && Less(x.key, e.key) && x.key.seqno <= smallest
  }

  /** No file two or more levels below the compacted one covers the user key. */
  ghost predicate BaseLevel(levels: Levels, level: nat, k: UserKey) {
    forall l, f :: level + 2 <= l < |levels| && f in levels[l] ==> !(f.smallest.user <= k <= f.largest.user)
  }

  ghost predicate Obsolete(levels: Levels, level: nat, smallest: nat, e: Entry) {
    e.key.kind == TypeDeletion && e.key.seqno <= smallest && BaseLevel(levels, level, e.key.user)
  }

  ghost predicate Dropped(input: seq<Entry>, levels: Levels, level: nat, smallest: nat, e: Entry) {
    Hidden(input, smallest, e) || Obsolete(levels, level, smallest, e)
  }

  /** The loop only compares with the previous entry of the same user key; that is enough. */
  lemma PreviousDecides(input: seq<Entry>, smallest: nat, i: nat)
    requires Sorted(input) && i < |input|
    ensures Hidden(input, smallest, input[i]) <==>
            i > 0 && input[i - 1].key.user == input[i].key.user && input[i - 1].key.seqno <= smallest
  {
    if Hidden(input, smallest, input[i]) {
      var x :| x in input && x.key.user == input[i].key.user && Less(x.key, input[i].key) && x.key.seqno <= smallest;
      var j :| 0 <= j < |input| && input[j] == x;
      assert j < i;
      assert j < i - 1 ==> Less(input[j].key, input[i - 1].key);
    }
    if i > 0 && input[i - 1].key.user == input[i].key.user && input[i - 1].key.seqno <= smallest {
      assert input[i - 1] in input;
    }
  }

  /** The part of a Compaction that IsBaseLevelForKey uses. */
  class Compaction {
    const level: nat
    const inputVersion: Levels
    var levelPtrs: seq<nat>

    /** Every file a pointer has passed ends before the user key `k`. */
    ghost predicate Passed(k: UserKey)
      reads this
    {
      && |levelPtrs| == |inputVersion|
      && (forall l :: 0 <= l < |levelPtrs| ==> levelPtrs[l] <= |inputVersion[l]|)
      && (forall l, p :: 0 <= l < |levelPtrs| && 0 <= p < levelPtrs[l] ==> inputVersion[l][p].largest.user < k)
    }

    constructor (level: nat, levels: Levels)
      ensures this.level == level && inputVersion == levels
      ensures |levelPtrs| == |levels| && forall l :: 0 <= l < |levels| ==> levelPtrs[l] == 0
    {
      this.level := level;
      this.inputVersion := levels;
      this.levelPtrs := seq(|levels|, _ => 0);
    }

    /** For user keys asked in nondecreasing order, the walk over the sorted deeper levels answers
        whether any of their files covers the key. */
    method IsBaseLevelForKey(k: UserKey) returns (r: bool)
      requires Passed(k)
      requires forall l :: level + 2 <= l < |inputVersion| ==> FilesOk(inputVersion[l]) && Disjoint(inputVersion[l])
      modifies this`levelPtrs
      ensures Passed(k)
      ensures r <==> BaseLevel(inputVersion, level, k)
    {
      var lvl := level + 2;
      while lvl < |inputVersion|
        invariant level + 2 <= lvl && (lvl <= |inputVersion| || level + 2 > |inputVersion|)
        invariant Passed(k)
        invariant forall l, f :: level + 2 <= l < lvl && l < |inputVersion| && f in inputVersion[l] ==>
                                 !(f.smallest.user <= k <= f.largest.user)
        decreases |inputVersion| - lvl
      {
        var files := inputVersion[lvl];
        while levelPtrs[lvl] < |files|
          invariant Passed(k)
          decreases |files| - levelPtrs[lvl]
        {
          var f := files[levelPtrs[lvl]];
          if k <= f.largest.user {
            if k >= f.smallest.user {
              assert f in inputVersion[lvl];
              return false;
            }
            break;
          }
          levelPtrs := levelPtrs[lvl := levelPtrs[lvl] + 1];
        }
        NotCovered(files, levelPtrs[lvl], k);
        lvl := lvl + 1;
      }
      r := true;
    }
  }

  lemma NotCovered(files: Level, p: nat, k: UserKey)
    requires FilesOk(files) && Disjoint(files) && p <= |files|
    requires forall i :: 0 <= i < p ==> files[i].largest.user < k
    requires p < |files| ==> k < files[p].smallest.user
    ensures forall f :: f in files ==> !(f.smallest.user <= k <= f.largest.user)
  {
    forall f | f in files ensures !(f.smallest.user <= k <= f.largest.user) {
      var i :| 0 <= i < |files| && files[i] == f;
      if i > p {
        FileBounds(files[p]);
      }
    }
  }

  // ---- The loop -------------------------------------------------------------------------------

  function MakeFile(number: nat, size: nat, entries: seq<Entry>): File
    requires entries != []
  {
    File(number, size, entries[0].key, entries[|entries| - 1].key, entries)
  }

  /** The tables a compaction writes: sorted, disjoint, freshly numbered, and holding exactly the input
      entries that no rule drops. */
  ghost predicate CompactionOutput(outs: Level, input: seq<Entry>, levels: Levels, level: nat, smallest: nat,
                                   firstNumber: nat) {
    && FilesOk(outs) && Disjoint(outs)
    && (forall i :: 0 <= i < |outs| ==> outs[i].number == firstNumber + i)
    && (forall e :: InFiles(outs, e) <==> e in input && !Dropped(input, levels, level, smallest, e))
  }

  /** Loop state after `i` input entries: finished tables `outs`, open table `current`, which started at
      input position `m`. */
  ghost predicate Written(outs: Level, current: seq<Entry>, input: seq<Entry>, m: nat, i: nat, firstNumber: nat) {
    && m <= i <= |input|
    && FilesOk(outs) && Disjoint(outs)
    && (forall n :: 0 <= n < |outs| ==> outs[n].number == firstNumber + n)
    && (forall f :: f in outs ==> forall j :: m <= j < |input| ==> Less(f.largest, input[j].key))
    && Sorted(current) && (forall e :: e in current ==> e in input[m..i])
  }

  lemma AddEntry(outs: Level, current: seq<Entry>, input: seq<Entry>, m: nat, i: nat, firstNumber: nat)
    requires Sorted(input) && i < |input| && Written(outs, current, input, m, i, firstNumber)
    ensures Written(outs, current + [input[i]], input, m, i + 1, firstNumber)
    ensures Written(outs, current, input, m, i + 1, firstNumber)
  {
    assert input[m..i + 1] == input[m..i] + [input[i]];
    forall n | 0 <= n < |current| ensures Less(current[n].key, input[i].key) {
      assert current[n] in input[m..i];
      var j :| 0 <= j < |input[m..i]| && input[m..i][j] == current[n];
      assert input[m + j] == current[n];
    }
  }

  lemma FinishFile(outs: Level, current: seq<Entry>, input: seq<Entry>, m: nat, i: nat, firstNumber: nat, size: nat)
    requires Sorted(input) && current != [] && Written(outs, current, input, m, i, firstNumber)
    ensures Written(outs + [MakeFile(firstNumber + |outs|, size, current)], [], input, i, i, firstNumber)
  {
    var f := MakeFile(firstNumber + |outs|, size, current);
    var first, last := current[0], current[|current| - 1];
    assert first in current && last in current;
    var a :| 0 <= a < |input[m..i]| && input[m..i][a] == first;
    var b :| 0 <= b < |input[m..i]| && input[m..i][b] == last;
    assert input[m + a] == first && input[m + b] == last;
    assert FileOk(f);
    forall n | 0 <= n < |outs| ensures Less(outs[n].largest, f.smallest) {
      assert outs[n] in outs;
    }
    forall g, j | g in outs + [f] && i <= j < |input| ensures Less(g.largest, input[j].key) {
      assert g in outs || g == f;
    }
  }

  /** Entries kept so far. */
  ghost predicate Kept(outs: Level, current: seq<Entry>, input: seq<Entry>, i: nat,
                       levels: Levels, level: nat, smallest: nat) {
    i <= |input| &&
    forall e :: InFiles(outs, e) || e in current <==> e in input[..i] && !Dropped(input, levels, level, smallest, e)
  }

  lemma KeepOne(outs: Level, current: seq<Entry>, input: seq<Entry>, i: nat, levels: Levels, level: nat, smallest: nat)
    requires i < |input| && Kept(outs, current, input, i, levels, level, smallest)
    ensures Dropped(input, levels, level, smallest, input[i]) ==>
              Kept(outs, current, input, i + 1, levels, level, smallest)
    ensures !Dropped(input, levels, level, smallest, input[i]) ==>
              Kept(outs, current + [input[i]], input, i + 1, levels, level, smallest)
  {
    assert input[..i + 1] == input[..i] + [input[i]];
  }

  lemma KeepFinished(outs: Level, current: seq<Entry>, input: seq<Entry>, i: nat, levels: Levels, level: nat,
                     smallest: nat, f: File)
    requires Kept(outs, current, input, i, levels, level, smallest) && f.entries == current
    ensures Kept(outs + [f], [], input, i, levels, level, smallest)
  {
    forall e ensures InFiles(outs + [f], e) <==> InFiles(outs, e) || e in current {
      if g :| g in outs && e in g.entries { assert g in outs + [f]; }
      if e in current { assert f in outs + [f]; }
    }
  }

  lemma StartWork(input: seq<Entry>, levels: Levels, level: nat, smallest: nat, firstNumber: nat)
    ensures Written([], [], input, 0, 0, firstNumber) && Kept([], [], input, 0, levels, level, smallest)
  {
  }

  lemma EndWork(outs: Level, input: seq<Entry>, m: nat, levels: Levels, level: nat, smallest: nat, firstNumber: nat)
    requires Written(outs, [], input, m, |input|, firstNumber)
    requires Kept(outs, [], input, |input|, levels, level, smallest)
    ensures CompactionOutput(outs, input, levels, level, smallest, firstNumber)
  {
    assert input[..|input|] == input;
  }

  /** What a compaction gets rid of: of the entries of a user key at or below the smallest snapshot one is left at
      most, and a deletion among them only if a deeper table covers its key. */
  lemma GarbageIsDropped(outs: Level, input: seq<Entry>, levels: Levels, level: nat, smallest: nat, firstNumber: nat,
                         x: Entry, y: Entry)
    requires Sorted(input) && CompactionOutput(outs, input, levels, level, smallest, firstNumber)
    requires InFiles(outs, x) && InFiles(outs, y)
    requires x.key.user == y.key.user && x.key.seqno <= smallest && y.key.seqno <= smallest
    ensures x == y
    ensures x.key.kind == TypeDeletion ==>
              exists l, f :: level + 2 <= l < |levels| && f in levels[l] &&
                f.smallest.user <= x.key.user <= f.largest.user
  {
    hide FilesOk, Disjoint, InFiles;
    assert !Hidden(input, smallest, x) && !Hidden(input, smallest, y);
    assert !Obsolete(levels, level, smallest, x);
    var i :| 0 <= i < |input| && input[i] == x;
    var j :| 0 <= j < |input| && input[j] == y;
  }

  /** What a compaction may get rid of: nothing above the smallest snapshot, nothing but a deletion that no deeper
      table needs or what a newer entry of its key at or below the smallest snapshot hides. */
  lemma OnlyGarbageIsDropped(outs: Level, input: seq<Entry>, levels: Levels, level: nat, smallest: nat,
                             firstNumber: nat, e: Entry)
    requires CompactionOutput(outs, input, levels, level, smallest, firstNumber)
    requires e in input && !InFiles(outs, e)
    ensures e.key.seqno <= smallest
    ensures || (exists x :: x in input && x.key.user == e.key.user && e.key.seqno <= x.key.seqno <= smallest && x != e)
            || (e.key.kind == TypeDeletion && forall l, f :: level + 2 <= l < |levels| && f in levels[l] ==>
                  !(f.smallest.user <= e.key.user <= f.largest.user))
  {
    hide FilesOk, Disjoint, InFiles;
    if Hidden(input, smallest, e) {
      var x :| x in input && x.key.user == e.key.user && Less(x.key, e.key) && x.key.seqno <= smallest;
      assert x != e && e.key.seqno <= x.key.seqno;
    }
  }

  /** DBImpl::DoCompactionWork, from the merged input to the finished output tables. Where a table is
      cut depends on encoded sizes; any choice is allowed here. */
  method DoCompactionWork(c: Compaction, input: seq<Entry>, smallestSnapshot: nat, firstNumber: nat)
    returns (outs: Level)
    requires Sorted(input) && smallestSnapshot < MAX_SEQUENCE
    requires |c.levelPtrs| == |c.inputVersion| && forall l :: 0 <= l < |c.levelPtrs| ==> c.levelPtrs[l] == 0
    requires forall l :: c.level + 2 <= l < |c.inputVersion| ==>
               FilesOk(c.inputVersion[l]) && Disjoint(c.inputVersion[l])
    modifies c`levelPtrs
    ensures CompactionOutput(outs, input, c.inputVersion, c.level, smallestSnapshot, firstNumber)
  {
    hide Written, Kept, FilesOk, Disjoint, CompactionOutput;
    StartWork(input, c.inputVersion, c.level, smallestSnapshot, firstNumber);
    outs := [];
    var current: seq<Entry> := [];
    ghost var m := 0;
    var hasCurrentUserKey, currentUserKey := false, 0;
    var lastSequenceForKey := MAX_SEQUENCE;
    for i := 0 to |input|
      invariant Written(outs, current, input, m, i, firstNumber)
      invariant Kept(outs, current, input, i, c.inputVersion, c.level, smallestSnapshot)
      invariant hasCurrentUserKey <==> i > 0
      invariant i > 0 ==> currentUserKey == input[i - 1].key.user && lastSequenceForKey == input[i - 1].key.seqno
      invariant i < |input| ==> c.Passed(input[i].key.user)
    {
      var key := input[i].key;
      var stopBefore: bool := *;
      if stopBefore && current != [] {
        var size: nat := *;
        FinishFile(outs, current, input, m, i, firstNumber, size);
        KeepFinished(outs, current, input, i, c.inputVersion, c.level, smallestSnapshot,
                     MakeFile(firstNumber + |outs|, size, current));
        outs, current, m := outs + [MakeFile(firstNumber + |outs|, size, current)], [], i;
      }
      if !hasCurrentUserKey || key.user != currentUserKey {
        currentUserKey := key.user;
        hasCurrentUserKey := true;
        lastSequenceForKey := MAX_SEQUENCE;
      }
      PreviousDecides(input, smallestSnapshot, i);
      var drop := false;
      if lastSequenceForKey <= smallestSnapshot {
        drop := true;
      } else if key.kind == TypeDeletion && key.seqno <= smallestSnapshot {
        drop := c.IsBaseLevelForKey(key.user);
      }
      lastSequenceForKey := key.seqno;
      assert drop <==> Dropped(input, c.inputVersion, c.level, smallestSnapshot, input[i]);
      AddEntry(outs, current, input, m, i, firstNumber);
      KeepOne(outs, current, input, i, c.inputVersion, c.level, smallestSnapshot);
      if !drop {
        current := current + [input[i]];
        if * {
          var size: nat := *;
          FinishFile(outs, current, input, m, i + 1, firstNumber, size);
          KeepFinished(outs, current, input, i + 1, c.inputVersion, c.level, smallestSnapshot,
                       MakeFile(firstNumber + |outs|, size, current));
          outs, current, m := outs + [MakeFile(firstNumber + |outs|, size, current)], [], i + 1;
        }
      }
      assert i + 1 < |input| ==> Less(input[i].key, input[i + 1].key);
    }
    if current != [] {
      var size: nat := *;
      FinishFile(outs, current, input, m, |input|, firstNumber, size);
      KeepFinished(outs, current, input, |input|, c.inputVersion, c.level, smallestSnapshot,
                   MakeFile(firstNumber + |outs|, size, current));
      outs := outs + [MakeFile(firstNumber + |outs|, size, current)];
      current, m := [], |input|;
    }
    EndWork(outs, input, m, c.inputVersion, c.level, smallestSnapshot, firstNumber);
  }
}
