/** Opening an iterator on a database: what it walks over is the committed history as of its sequence number
    (DBImpl::NewIterator and NewInternalIterator, Version::AddIterators). */
module Iteration {
  import opened DbFormat
  import opened Visibility
  import opened Version
  import opened CompactionWork
  import opened CompactionSafety
  import opened History
  import opened State
  import opened Runs
  import opened Database
  import opened Merger
  import opened DbIter

  /** The files of levels n, n + 1, ... in the order their iterators are added. */
  function FilesFrom(levels: Levels, n: nat): (r: Level)
    requires n <= |levels|
    ensures forall f :: f in r <==> exists l :: n <= l < |levels| && f in levels[l]
    decreases |levels| - n
  {
    if n == |levels| then [] else levels[n] + FilesFrom(levels, n + 1)
  }

  lemma {:induction false} FilesFromSeparate(levels: Levels, n: nat)
    requires VersionOk(levels) && Distinct(Tables(levels)) && n <= |levels|
    ensures FilesOk(FilesFrom(levels, n)) && Separate(FilesFrom(levels, n))
    decreases |levels| - n
  {
    hide VersionOk, Distinct, Tables, FilesOk, Separate;
    if n < |levels| {
      FilesFromSeparate(levels, n + 1);
      LevelSeparate(levels, n);
      forall f, g | f in levels[n] && g in FilesFrom(levels, n + 1) ensures NoCommonKey(f.entries, g.entries) {
        var m :| n + 1 <= m < |levels| && g in levels[m];
        TwoFilesSeparate(levels, n, m, f, g);
      }
      SeparateAppend(levels[n], FilesFrom(levels, n + 1));
    } else {
      NoFilesSeparate();
    }
  }

  lemma NoFilesSeparate()
    ensures FilesOk([]) && Separate([])
  {
  }

  lemma SeparateAppend(a: Level, b: Level)
    requires FilesOk(a) && FilesOk(b) && Separate(a) && Separate(b)
    requires forall f, g :: f in a && g in b ==> NoCommonKey(f.entries, g.entries)
    ensures FilesOk(a + b) && Separate(a + b)
  {
    hide NoCommonKey, FileOk;
    forall i, j | 0 <= i < j < |a + b| ensures NoCommonKey((a + b)[i].entries, (a + b)[j].entries) {
      assert i >= |a| ==> (a + b)[i] == b[i - |a|] && (a + b)[j] == b[j - |a|];
      assert i < |a| <= j ==> a[i] in a && b[j - |a|] in b;
    }
  }

  lemma LevelSeparate(levels: Levels, n: nat)
    requires VersionOk(levels) && Distinct(Tables(levels)) && n < |levels|
    ensures FilesOk(levels[n]) && Separate(levels[n])
  {
    VersionLevel(levels, n);
    hide VersionOk, Distinct, Tables, NoCommonKey, FileOk, BySmallest;
    var fs := levels[n];
    forall i, j | 0 <= i < j < |fs| ensures NoCommonKey(fs[i].entries, fs[j].entries) {
      NotBeforeItself(fs[i], fs[j]);
      TwoFilesSeparate(levels, n, n, fs[i], fs[j]);
    }
  }

  lemma NotBeforeItself(f: File, g: File)
    requires BySmallest(f, g)
    ensures f != g
  {
  }

  /** Everything the merging iterator over a database yields. */
  function InternalList(db: DbState): seq<Entry> {
    Merge(db.mem, Merge(if db.imm.Some? then db.imm.value else [], MergeFiles(FilesFrom(db.levels, 0))))
  }

  lemma AllFilesMembers(levels: Levels)
    ensures Elements(MergeFiles(FilesFrom(levels, 0))) == Tables(levels)
  {
    var all := FilesFrom(levels, 0);
    MergeFilesMembers(all);
    forall e | e in Tables(levels) ensures InFiles(all, e) {
      var l, f :| 0 <= l < |levels| && f in levels[l] && e in f.entries;
      assert f in all;
    }
  }

  lemma MergeElements(a: seq<Entry>, b: seq<Entry>)
    ensures Elements(Merge(a, b)) == Elements(a) + Elements(b)
  {
  }

  lemma NoSharedKey(a: seq<Entry>, b: seq<Entry>)
    requires forall x, y :: x in Elements(a) && y in Elements(b) ==> x.key.seqno > y.key.seqno
    ensures NoCommonKey(a, b)
  {
    forall x, y | x in a && y in b ensures x.key != y.key {
      assert x in Elements(a) && y in Elements(b);
    }
  }

  /** The internal iterator lists the contents of the database in key order. */
  lemma InternalListIs(db: DbState, flushed: seq<Batch>)
    requires Inv(db, flushed)
    ensures Sorted(InternalList(db)) && Elements(InternalList(db)) == Contents(db) && Distinct(Contents(db))
  {
    hide *;
    LayersOf(db, flushed);
    InternalListFrom(db);
  }

  lemma InternalListFrom(db: DbState)
    requires Distinct(Elements(db.mem) + (ImmSet(db) + Tables(db.levels)))
    requires Sorted(db.mem) && (db.imm.Some? ==> Sorted(db.imm.value)) && VersionOk(db.levels)
    requires forall x, y :: x in Elements(db.mem) && y in ImmSet(db) + Tables(db.levels) ==> x.key.seqno > y.key.seqno
    requires forall x, y :: x in ImmSet(db) && y in Tables(db.levels) ==> x.key.seqno > y.key.seqno
    requires Contents(db) == Elements(db.mem) + (ImmSet(db) + Tables(db.levels))
    ensures Sorted(InternalList(db)) && Elements(InternalList(db)) == Contents(db) && Distinct(Contents(db))
  {
    var imm := if db.imm.Some? then db.imm.value else [];
    var files := MergeFiles(FilesFrom(db.levels, 0));
    assert Elements(imm) == ImmSet(db) && Sorted(imm);
    hide Contents, Tables, Sorted, Merge, MergeFiles, VersionOk, NoCommonKey, ImmSet, FilesFrom, Elements;
    DistinctParts(Elements(db.mem), ImmSet(db), Tables(db.levels));
    AllFilesMembers(db.levels);
    FilesFromSeparate(db.levels, 0);
    MergeFilesSorted(FilesFrom(db.levels, 0));
    NoSharedKey(imm, files);
    MergeSorted(imm, files);
    MergeElements(imm, files);
    NoSharedKey(db.mem, Merge(imm, files));
    MergeSorted(db.mem, Merge(imm, files));
    MergeElements(db.mem, Merge(imm, files));
  }

  // ---- The runs the merging iterator walks -----------------------------------------------------

  /** Entries of the files of one level, one file after the other: what the concatenating iterator yields. */
  function Concat(fs: Level): seq<Entry> {
    if fs == [] then [] else fs[0].entries + Concat(fs[1..])
  }

  lemma {:induction false} ConcatMembers(fs: Level)
    ensures Elements(Concat(fs)) == EntriesOf(fs)
  {
    if fs != [] {
      var rest := fs[1..];
      ConcatMembers(rest);
      assert forall f :: f in fs <==> f == fs[0] || f in rest;
      forall e ensures e in Elements(Concat(fs)) <==> e in EntriesOf(fs) {
        assert e in Concat(fs) <==> e in fs[0].entries || e in Concat(rest);
        assert e in Concat(rest) <==> e in Elements(Concat(rest));
        assert e in fs[0].entries ==> fs[0] in fs;
      }
    }
  }

  lemma {:induction false} ConcatSorted(fs: Level)
    requires FilesOk(fs) && Disjoint(fs)
    ensures Sorted(Concat(fs))
  {
    if fs != [] {
      var rest := fs[1..];
      assert forall j :: 0 <= j < |rest| ==> rest[j] == fs[j + 1];
      ConcatSorted(rest);
      ConcatMembers(rest);
      forall x, y | x in fs[0].entries && y in Concat(rest) ensures Less(x.key, y.key) {
        assert y in Elements(Concat(rest));
        var f :| f in rest && y in f.entries;
        var j :| 0 <= j < |rest| && rest[j] == f;
        assert fs[0] in fs && fs[j + 1] in fs && Less(fs[0].largest, fs[j + 1].smallest);
        FileBounds(fs[0]);
        FileBounds(f);
      }
      assert fs[0] in fs && FileOk(fs[0]);
      SortedAppend(fs[0].entries, Concat(rest));
    }
  }

  lemma SortedAppend(a: seq<Entry>, b: seq<Entry>)
    requires Sorted(a) && Sorted(b) && forall x, y :: x in a && y in b ==> Less(x.key, y.key)
    ensures Sorted(a + b)
  {
    forall i, j | 0 <= i < j < |a + b| ensures Less((a + b)[i].key, (a + b)[j].key) {
      if i < |a| <= j {
        assert a[i] in a && b[j - |a|] in b;
      }
    }
  }

  ghost function RunSet(runs: seq<seq<Entry>>): set<Entry> {
    set i, e | 0 <= i < |runs| && e in runs[i] :: e
  }

  /** Each run is sorted and no entry is in two of them. */
  ghost predicate SortedApart(runs: seq<seq<Entry>>) {
    && (forall i :: 0 <= i < |runs| ==> Sorted(runs[i]))
    && (forall i, j, e :: 0 <= i < j < |runs| && e in runs[i] ==> e !in runs[j])
  }

  lemma RunsAppend(a: seq<seq<Entry>>, b: seq<seq<Entry>>)
    requires SortedApart(a) && SortedApart(b) && RunSet(a) !! RunSet(b)
    ensures SortedApart(a + b) && RunSet(a + b) == RunSet(a) + RunSet(b)
  {
    hide Sorted;
    var all := a + b;
    forall i, j, e | 0 <= i < j < |all| && e in all[i] ensures e !in all[j] {
      if i < |a| <= j {
        assert e in RunSet(a);
        assert all[j] == b[j - |a|];
      } else if i >= |a| {
        assert all[i] == b[i - |a|] && all[j] == b[j - |a|];
      }
    }
    forall e | e in RunSet(all) ensures e in RunSet(a) + RunSet(b) {
      var i :| 0 <= i < |all| && e in all[i];
      assert i >= |a| ==> e in b[i - |a|];
    }
    forall e | e in RunSet(a) ensures e in RunSet(all) {
      var i :| 0 <= i < |a| && e in a[i];
      assert e in all[i];
    }
    forall e | e in RunSet(b) ensures e in RunSet(all) {
      var i :| 0 <= i < |b| && e in b[i];
      assert e in all[|a| + i];
    }
  }

  lemma OneRun(es: seq<Entry>)
    requires Sorted(es)
    ensures SortedApart([es]) && RunSet([es]) == Elements(es)
  {
    forall e | e in es ensures e in RunSet([es]) {
      assert e in [es][0];
    }
  }

  /** Level 0 gives one run per file, a deeper level one run in all. */
  function LevelRuns(fs: Level, level: nat): seq<seq<Entry>> {
    if level == 0 then seq(|fs|, i requires 0 <= i < |fs| => fs[i].entries)
    else if fs == [] then [] else [Concat(fs)]
  }

  function RunsTo(levels: Levels, n: nat): seq<seq<Entry>>
    requires n <= |levels|
  {
    if n == 0 then [] else RunsTo(levels, n - 1) + LevelRuns(levels[n - 1], n - 1)
  }

  lemma LevelRunsOk(levels: Levels, l: nat)
    requires VersionOk(levels) && Distinct(Tables(levels)) && l < |levels|
    ensures SortedApart(LevelRuns(levels[l], l)) && RunSet(LevelRuns(levels[l], l)) == EntriesOf(levels[l])
  {
    VersionLevel(levels, l);
    LevelSeparate(levels, l);
    var fs := levels[l];
    hide VersionOk, Distinct, Tables, Sorted, SortedApart, FilesOk, Disjoint, Separate;
    if l == 0 {
      FileRunsOk(fs);
    } else if fs == [] {
      NoRuns();
    } else {
      ConcatSorted(fs);
      ConcatMembers(fs);
      OneRun(Concat(fs));
    }
  }

  lemma FileRunsOk(fs: Level)
    requires FilesOk(fs) && Separate(fs)
    ensures SortedApart(LevelRuns(fs, 0)) && RunSet(LevelRuns(fs, 0)) == EntriesOf(fs)
  {
    var runs := LevelRuns(fs, 0);
    assert forall i :: 0 <= i < |fs| ==> fs[i] in fs && FileOk(fs[i]);
    hide Sorted, NoCommonKey, FileOk;
    forall i, j, e | 0 <= i < j < |runs| && e in runs[i] ensures e !in runs[j] {
      assert NoCommonKey(fs[i].entries, fs[j].entries);
      NoCommonEntry(fs[i].entries, fs[j].entries, e);
    }
    FileRunSet(fs);
  }

  lemma FileRunSet(fs: Level)
    ensures RunSet(LevelRuns(fs, 0)) == EntriesOf(fs)
  {
    var runs := LevelRuns(fs, 0);
    forall e | e in EntriesOf(fs) ensures e in RunSet(runs) {
      var f :| f in fs && e in f.entries;
      var i :| 0 <= i < |fs| && fs[i] == f;
      assert e in runs[i];
    }
    forall e | e in RunSet(runs) ensures e in EntriesOf(fs) {
      var i :| 0 <= i < |runs| && e in runs[i];
      assert fs[i] in fs;
    }
  }

  lemma NoCommonEntry(a: seq<Entry>, b: seq<Entry>, e: Entry)
    requires NoCommonKey(a, b) && e in a
    ensures e !in b
  {
  }

  ghost function TablesTo(levels: Levels, n: nat): set<Entry>
    requires n <= |levels|
  {
    set l, f, e | 0 <= l < n && f in levels[l] && e in f.entries :: e
  }

  lemma LevelsApart(levels: Levels, n: nat)
    requires VersionOk(levels) && Distinct(Tables(levels)) && n < |levels|
    ensures TablesTo(levels, n) !! EntriesOf(levels[n])
  {
    hide VersionOk, Distinct, Tables;
    if e: Entry :| e in TablesTo(levels, n) && e in EntriesOf(levels[n]) {
      var l, f :| 0 <= l < n && f in levels[l] && e in f.entries;
      var g :| g in levels[n] && e in g.entries;
      TwoFilesSeparate(levels, l, n, f, g);
      assert false;
    }
  }

  lemma {:induction false} RunsToOk(levels: Levels, n: nat)
    requires VersionOk(levels) && Distinct(Tables(levels)) && n <= |levels|
    ensures SortedApart(RunsTo(levels, n)) && RunSet(RunsTo(levels, n)) == TablesTo(levels, n)
  {
    hide VersionOk, Distinct, Tables, SortedApart, LevelRuns;
    if n == 0 {
      NoRuns();
    } else {
      RunsToOk(levels, n - 1);
      LevelRunsOk(levels, n - 1);
      LevelsApart(levels, n - 1);
      RunsAppend(RunsTo(levels, n - 1), LevelRuns(levels[n - 1], n - 1));
      assert TablesTo(levels, n) == TablesTo(levels, n - 1) + EntriesOf(levels[n - 1]);
    }
  }

  lemma NoRuns()
    ensures SortedApart([]) && RunSet([]) == {}
  {
  }

  /** Every run under the merging iterator: the memtables and the tables. */
  function AllRuns(db: DbState): seq<seq<Entry>> {
    [db.mem] + (if db.imm.Some? then [db.imm.value] else []) + RunsTo(db.levels, |db.levels|)
  }

  lemma AllRunsOk(db: DbState, flushed: seq<Batch>)
    requires Inv(db, flushed)
    ensures SortedApart(AllRuns(db)) && RunSet(AllRuns(db)) == Contents(db)
  {
    hide Inv;
    LayersOf(db, flushed);
    hide Tables, VersionOk, Sorted, SortedApart, RunsTo, Contents;
    DistinctParts(Elements(db.mem), ImmSet(db), Tables(db.levels));
    RunsToOk(db.levels, |db.levels|);
    AllTables(db.levels);
    var imm := if db.imm.Some? then [db.imm.value] else [];
    OneRun(db.mem);
    if db.imm.Some? {
      OneRun(db.imm.value);
    } else {
      NoRuns();
    }
    ThreeParts([db.mem], imm, RunsTo(db.levels, |db.levels|));
    assert Contents(db) == Elements(db.mem) + ImmSet(db) + Tables(db.levels) by { ContentsParts(db); }
  }

  lemma ContentsParts(db: DbState)
    ensures Contents(db) == Elements(db.mem) + ImmSet(db) + Tables(db.levels)
  {
    hide Tables;
  }

  lemma ThreeParts(a: seq<seq<Entry>>, b: seq<seq<Entry>>, c: seq<seq<Entry>>)
    requires SortedApart(a) && SortedApart(b) && SortedApart(c)
    requires RunSet(a) !! RunSet(b) && RunSet(a) + RunSet(b) !! RunSet(c)
    ensures SortedApart(a + b + c) && RunSet(a + b + c) == RunSet(a) + RunSet(b) + RunSet(c)
  {
    hide SortedApart, RunSet;
    RunsAppend(a, b);
    RunsAppend(a + b, c);
  }

  lemma AllTables(levels: Levels)
    ensures TablesTo(levels, |levels|) == Tables(levels)
  {
  }

  // ---- Opening an iterator ---------------------------------------------------------------------

  ghost predicate Children(children: seq<ListIterator>, runs: seq<seq<Entry>>) {
    && |children| == |runs|
    && (forall i :: 0 <= i < |runs| ==> children[i].entries == runs[i])
    && (forall i, j :: 0 <= i < j < |runs| ==> children[i] != children[j])
  }

  lemma RunsCover(children: seq<ListIterator>, runs: seq<seq<Entry>>, merged: seq<Entry>)
    requires Children(children, runs) && SortedApart(runs) && Sorted(merged) && RunSet(runs) == Elements(merged)
    ensures Covers(children, merged)
  {
    hide Sorted;
    forall i, e | 0 <= i < |children| && e in children[i].entries ensures e in merged {
      assert e in RunSet(runs);
    }
    forall e | e in merged ensures exists i :: 0 <= i < |children| && e in children[i].entries {
      assert e in RunSet(runs);
      var i :| 0 <= i < |runs| && e in runs[i];
      assert e in children[i].entries;
    }
  }

  /** Version::AddIterators: one child per level-0 table and per deeper level that is not empty. */
  method AddIterators(levels: Levels, before: seq<ListIterator>, ghost head: seq<seq<Entry>>)
    returns (children: seq<ListIterator>)
    requires levels != [] && Children(before, head)
    ensures Children(children, head + RunsTo(levels, |levels|)) && before <= children
    ensures fresh(set c | c in children[|before|..])
  {
    hide Concat, Children, RunsTo, LevelRuns;
    children := AddFileIterators(levels[0], before, head);
    ghost var runs := head + LevelRuns(levels[0], 0);
    FirstLevel(levels);
    for level := 1 to |levels|
      invariant Children(children, runs) && before <= children && fresh(set c | c in children[|before|..])
      invariant runs == head + RunsTo(levels, level)
    {
      RunsStep(levels, level);
      if levels[level] != [] {
        var child := new ListIterator(Concat(levels[level]));
        OneMoreChild(children, runs, child);
        children, runs := children + [child], runs + [Concat(levels[level])];
      }
    }
  }

  lemma OneMoreChild(children: seq<ListIterator>, runs: seq<seq<Entry>>, child: ListIterator)
    requires Children(children, runs) && child !in children
    ensures Children(children + [child], runs + [child.entries])
  {
  }

  lemma RunsStep(levels: Levels, level: nat)
    requires 1 <= level < |levels|
    ensures RunsTo(levels, level + 1) == if levels[level] == [] then RunsTo(levels, level)
                                         else RunsTo(levels, level) + [Concat(levels[level])]
  {
    hide Concat;
    assert RunsTo(levels, level) + [] == RunsTo(levels, level);
  }

  method AddFileIterators(files: Level, before: seq<ListIterator>, ghost head: seq<seq<Entry>>)
    returns (children: seq<ListIterator>)
    requires Children(before, head)
    ensures Children(children, head + LevelRuns(files, 0)) && before <= children
    ensures fresh(set c | c in children[|before|..])
  {
    hide Children;
    children := before;
    ghost var runs := head;
    for i := 0 to |files|
      invariant Children(children, runs) && before <= children && fresh(set c | c in children[|before|..])
      invariant runs == head + LevelRuns(files[..i], 0)
    {
      var child := new ListIterator(files[i].entries);
      OneMoreChild(children, runs, child);
      children, runs := children + [child], runs + [files[i].entries];
    }
    assert files[..|files|] == files;
  }

  lemma FirstLevel(levels: Levels)
    requires levels != []
    ensures RunsTo(levels, 1) == LevelRuns(levels[0], 0) && levels[0][..|levels[0]|] == levels[0]
  {
    assert RunsTo(levels, 0) == [];
  }

  /** DBImpl::NewInternalIterator. */
  method NewInternalIterator(db: DB) returns (it: MergingIterator)
    requires db.Valid()
    ensures fresh(it) && fresh(set c | c in it.children) && it.Consistent() && !it.Valid()
    ensures it.merged == InternalList(db.View())
  {
    hide *;
    ghost var w := db.View();
    db.ViewFields();
    InternalListIs(w, db.flushed);
    AllRunsOk(w, db.flushed);
    AllRunsAre(db);
    LevelsExist(w, db.flushed);
    var child := new ListIterator(db.mem);
    var children := [child];
    ghost var runs := [db.mem];
    if db.imm.Some? {
      child := new ListIterator(db.imm.value);
      children, runs := children + [child], runs + [db.imm.value];
    }
    TwoChildren(children, runs);
    children := AddIterators(db.levels, children, runs);
    RunsCover(children, AllRuns(w), InternalList(w));
    it := new MergingIterator(children, InternalList(w));
  }

  lemma TwoChildren(children: seq<ListIterator>, runs: seq<seq<Entry>>)
    requires |children| == |runs| <= 2 && forall i :: 0 <= i < |runs| ==> children[i].entries == runs[i]
    requires |children| == 2 ==> children[0] != children[1]
    ensures Children(children, runs)
  {
  }

  lemma LevelsExist(db: DbState, flushed: seq<Batch>)
    requires Inv(db, flushed)
    ensures db.levels != []
  {
    hide Inv;
    InvParts(db, flushed);
  }

  lemma AllRunsAre(db: DB)
    ensures AllRuns(db.View()) ==
            (if db.imm.Some? then [db.mem] + [db.imm.value] else [db.mem]) + RunsTo(db.levels, |db.levels|)
    ensures db.View().levels == db.levels
  {
    hide RunsTo;
  }

  /** DBImpl::NewIterator. With the contracts of DBIter: any mix of seeks and steps walks over exactly the keys
      of the committed history visible at the iterator's sequence number. */
  method NewIterator(db: DB, snapshot: Option<nat>) returns (it: DBIter)
    requires db.Valid() && (snapshot.Some? ==> snapshot.value in db.snapshots)
    ensures fresh(it) && fresh(it.iter) && fresh(set c | c in it.iter.children) && it.Consistent()
    ensures it.Current() == End
    ensures it.sequence == if snapshot.Some? then snapshot.value else db.lastSequence
    ensures forall k :: UserMap(it.iter.merged, it.sequence, k) == Lookup(HistSet(Hist(db.Now())), k, it.sequence)
  {
    hide Inv, InternalList, UserMap, Lookup, HistSet, Hist, Contents, Sorted, Distinct, Elements;
    ghost var w := db.Now();
    IteratorSees(w, if snapshot.Some? then snapshot.value else db.lastSequence);
    var internal := NewInternalIterator(db);
    it := new DBIter(internal, if snapshot.Some? then snapshot.value else db.lastSequence);
  }

  lemma IteratorSees(w: World, s: nat)
    requires Sound(w) && (s == w.db.lastSequence || s in w.db.snapshots)
    ensures Sorted(InternalList(w.db)) && Distinct(Elements(InternalList(w.db)))
    ensures forall k :: UserMap(InternalList(w.db), s, k) == Lookup(HistSet(Hist(w)), k, s)
  {
    assert Inv(w.db, w.flushed);
    hide Inv, Sorted, Elements, InternalList, HistSet, Lookup, Contents, Oldest, Unflushed;
    InternalListIs(w.db, w.flushed);
    DB.ProtectedSequence(w, s);
    forall k ensures UserMap(InternalList(w.db), s, k) == Lookup(HistSet(Hist(w)), k, s) {
      ReadsSeeHistory(w.db, w.flushed, k, s);
    }
  }
}
