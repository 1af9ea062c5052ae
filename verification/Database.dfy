/** The database object: every public operation and every background job, run step by step
    (DBImpl in db/db_impl.cc). */
module Database {
  import opened DbFormat
  import opened Visibility
  import opened Version
  import opened VersionEdits
  import opened Picking
  import opened CompactionWork
  import opened CompactionSafety
  import opened Install
  import opened History
  import opened Answers
  import opened State
  import opened Manifest
  import opened Steps
  import opened Recovery
  import opened Runs

  function ToAnswer(r: SaverState): Option<Value> {
    if r.Found? then Some(r.value) else None
  }

  /** A probe of one sorted run answers for that run. */
  lemma ProbeAnswers(es: seq<Entry>, k: UserKey, s: nat)
    requires Sorted(es) && Distinct(Elements(es))
    ensures var r := Probe(es, k, s);
            && (r == NotFound ==> forall e :: !Visible(Elements(es), k, s, e))
            && (r != NotFound ==>
                  ToAnswer(r) == Lookup(Elements(es), k, s) && exists e :: Visible(Elements(es), k, s, e))
  {
    hide Sorted, Probe, Elements;
    ProbeFindsNewest(es, k, s);
    if e :| Newest(Elements(es), k, s, e) && Probe(es, k, s) == Outcome(e) {
      LookupIs(Elements(es), k, s, e);
    }
  }

  /** Looking in the newer run first is right. */
  lemma TopFirst(top: set<Entry>, rest: set<Entry>, k: UserKey, s: nat)
    requires Distinct(top + rest)
    requires forall x, y :: x in top && y in rest && x.key.user == y.key.user ==> x.key.seqno > y.key.seqno
    ensures (exists e :: Visible(top, k, s, e)) ==> Lookup(top + rest, k, s) == Lookup(top, k, s)
    ensures (forall e :: !Visible(top, k, s, e)) ==> Lookup(top + rest, k, s) == Lookup(rest, k, s)
  {
    if w :| Visible(top, k, s, w) {
      LookupAbove(top, rest, k, s, w);
    } else {
      LookupBelow(top, rest, k, s);
    }
  }

  lemma ReportAnswers(levels: Levels, k: UserKey, s: nat, r: SaverState)
    requires Reports(levels, k, s, r) && Distinct(Tables(levels))
    ensures ToAnswer(r) == Lookup(Tables(levels), k, s)
  {
    hide Tables;
    if r != NotFound {
      var e :| Newest(Tables(levels), k, s, e) && r == Outcome(e);
      LookupIs(Tables(levels), k, s, e);
    }
  }

  ghost function ImmSet(db: DbState): set<Entry> {
    if db.imm.Some? then Elements(db.imm.value) else {}
  }

  /** The three places a read looks in, newest first. */
  lemma LayersOf(db: DbState, flushed: seq<Batch>)
    requires Inv(db, flushed)
    ensures Distinct(Elements(db.mem) + (ImmSet(db) + Tables(db.levels)))
    ensures Sorted(db.mem) && (db.imm.Some? ==> Sorted(db.imm.value)) && VersionOk(db.levels)
    ensures forall x, y :: x in Elements(db.mem) && y in ImmSet(db) + Tables(db.levels) ==> x.key.seqno > y.key.seqno
    ensures forall x, y :: x in ImmSet(db) && y in Tables(db.levels) ==> x.key.seqno > y.key.seqno
    ensures Contents(db) == Elements(db.mem) + (ImmSet(db) + Tables(db.levels))
  {
    hide *;
    InvParts(db, flushed);
    StoresParts(db.levels, flushed, Oldest(db));
    LayersOfParts(db, flushed);
  }

  lemma LayersOfParts(db: DbState, flushed: seq<Batch>)
    requires LogsOk(db) && Tables(db.levels) <= HistSet(flushed) && HistoryOk(flushed + Unflushed(db), db.lastSequence)
    ensures Distinct(Elements(db.mem) + (ImmSet(db) + Tables(db.levels)))
    ensures Sorted(db.mem) && (db.imm.Some? ==> Sorted(db.imm.value))
    ensures forall x, y :: x in Elements(db.mem) && y in ImmSet(db) + Tables(db.levels) ==> x.key.seqno > y.key.seqno
    ensures forall x, y :: x in ImmSet(db) && y in Tables(db.levels) ==> x.key.seqno > y.key.seqno
    ensures Contents(db) == Elements(db.mem) + (ImmSet(db) + Tables(db.levels))
  {
    hide HistSet, HistoryOk, MemOf, Elements, Tables, Sorted;
    var a := if db.imm.Some? then db.logs[db.logNumber] else [];
    var b := db.logs[db.logfileNumber];
    assert flushed + Unflushed(db) == flushed + a + b;
    HistoryFacts(flushed + a + b, db.lastSequence);
    HistoryOrder(flushed + a, b, db.lastSequence);
    HistoryOrder(flushed, a, db.lastSequence);
    HistSetAppend(flushed + a, b);
    HistSetAppend(flushed, a);
    MemOfEffect(a, db.lastSequence);
    MemOfEffect(b, db.lastSequence);
    NoBatches();
  }

  lemma ContentsAnswer(db: DbState, flushed: seq<Batch>, k: UserKey, s: nat)
    requires Inv(db, flushed) && Oldest(db) <= s
    ensures var mem, imm, hist := Elements(db.mem), ImmSet(db), Lookup(HistSet(flushed + Unflushed(db)), k, s);
            && db.logfileNumber in db.logs && db.logNumber in db.logs
            && Distinct(mem) && Distinct(imm) && Distinct(Tables(db.levels))
            && ((exists e :: Visible(mem, k, s, e)) ==> hist == Lookup(mem, k, s))
            && ((forall e :: !Visible(mem, k, s, e)) && (exists e :: Visible(imm, k, s, e)) ==>
                  hist == Lookup(imm, k, s))
            && ((forall e :: !Visible(mem, k, s, e)) && (forall e :: !Visible(imm, k, s, e)) ==>
                 hist == Lookup(Tables(db.levels), k, s))
  {
    hide *;
    LayersOf(db, flushed);
    LogsKnown(db, flushed);
    CommittedIs(db, flushed);
    ReadsSeeHistory(db, flushed, k, s);
    var mem, imm, tables := Elements(db.mem), ImmSet(db), Tables(db.levels);
    DistinctParts(mem, imm, tables);
    TopFirst(mem, imm + tables, k, s);
    TopFirst(imm, tables, k, s);
  }

  lemma DistinctParts(a: set<Entry>, b: set<Entry>, c: set<Entry>)
    requires Distinct(a + (b + c))
    ensures Distinct(a) && Distinct(b) && Distinct(c) && Distinct(b + c)
  {
  }

  // ---- The input of a compaction is sorted ------------------------------------------------------

  lemma {:induction false} OverlappingSorted(fs: Level, b: Bound, e: Bound)
    requires SmallestSorted(fs)
    ensures SmallestSorted(Overlapping(fs, b, e))
  {
    if fs != [] {
      TailOf(fs);
      OverlappingSorted(fs[1..], b, e);
      VersionEdits.Headed(fs[0], Overlapping(fs[1..], b, e));
    }
  }

  lemma ChosenSorted(levels: Levels, level: nat, in0: Level, in1: Level)
    requires Chosen(levels, level, in0, in1) && SmallestSorted(levels[level]) && SmallestSorted(levels[level + 1])
    ensures SmallestSorted(in0) && SmallestSorted(in1)
  {
    hide BySmallest, ClosedRange, Closed;
    OverlappingSorted(levels[level + 1], Some(SmallestKey(in0).user), Some(LargestKey(in0).user));
    if level == 0 {
      var lo, hi :| ClosedRange(levels[0], lo, hi) && in0 == Overlapping(levels[0], lo, hi);
      OverlappingSorted(levels[0], lo, hi);
    }
  }

  lemma TwoFilesSeparate(levels: Levels, l: nat, m: nat, f: File, g: File)
    requires VersionOk(levels) && Distinct(Tables(levels)) && l < |levels| && m < |levels|
    requires f in levels[l] && g in levels[m] && (l != m || f != g)
    ensures NoCommonKey(f.entries, g.entries)
  {
    hide VersionOk;
    forall x, y | x in f.entries && y in g.entries ensures x.key != y.key {
      assert x in Tables(levels) && y in Tables(levels);
      if x.key == y.key {
        EntryHasOneFile(levels, l, m, f, g, x);
        assert false;
      }
    }
  }

  lemma InputSorted(levels: Levels, level: nat, in0: Level, in1: Level)
    requires VersionOk(levels) && Distinct(Tables(levels)) && Chosen(levels, level, in0, in1)
    ensures Sorted(MergeFiles(in0 + in1))
  {
    hide VersionOk, Distinct, Chosen, NoCommonKey, MergeFiles, FileOk;
    ChosenFiles(levels, level, in0, in1);
    VersionLevel(levels, level);
    VersionLevel(levels, level + 1);
    ChosenSorted(levels, level, in0, in1);
    var all := in0 + in1;
    forall i, j | 0 <= i < j < |all| ensures NoCommonKey(all[i].entries, all[j].entries) {
      var l, m := if i < |in0| then level else level + 1, if j < |in0| then level else level + 1;
      assert all[i] == (if i < |in0| then in0[i] else in1[i - |in0|]);
      assert all[j] == (if j < |in0| then in0[j] else in1[j - |in0|]);
      assert i < |in0| ==> in0[i] in in0;
      assert i >= |in0| ==> in1[i - |in0|] in in1;
      assert j < |in0| ==> in0[j] in in0;
      assert j >= |in0| ==> in1[j - |in0|] in in1;
      assert l == m ==> BySmallest(all[i], all[j]);
      TwoFilesSeparate(levels, l, m, all[i], all[j]);
    }
    assert FilesOk(all);
    MergeFilesSorted(all);
  }

  lemma DeepLevels(levels: Levels)
    requires VersionOk(levels)
    ensures |levels| == NUM_LEVELS && LevelsSorted(levels)
    ensures forall l :: 2 <= l < |levels| ==> FilesOk(levels[l]) && Disjoint(levels[l])
  {
    hide VersionOk, FilesOk, Disjoint;
    VersionSorted(levels);
  }

  // ---- The object -----------------------------------------------------------------------------

  /** The event compacts these files, or moves the one that there is. */
  ghost predicate Uses(ev: Event, level: nat, in0: Level, in1: Level) {
    match ev
    case DoCompact(l, a, b, _) => l == level && a == in0 && b == in1
    case DoMove(l, f) => l == level && in0 == [f] && in1 == []
    case _ => false
  }

  /** A single file without a counterpart in the next level, and little enough to meet in the level after that. */
  ghost predicate MovesTrivially(levels: Levels, level: nat, in0: Level, in1: Level, grandparentLimit: nat) {
    && |in0| == 1 && in1 == []
    && (level + 2 < |levels| ==>
          OverlapSize(levels[level + 2], Some(in0[0].smallest.user), Some(in0[0].largest.user)) <= grandparentLimit)
  }

  class DB {
    var mem: seq<Entry>
    var imm: Option<seq<Entry>>
    var levels: Levels
    var manifest: seq<VersionEdit>
    var lastSequence: nat
    var nextFile: nat
    var logNumber: nat
    var logfileNumber: nat
    var snapshots: seq<nat>
    var logs: map<nat, seq<Batch>>
    var tables: set<nat>
    ghost var flushed: seq<Batch>

    function View(): DbState
      reads this
    {
      DbState(mem, imm, levels, manifest, lastSequence, nextFile, logNumber, logfileNumber, snapshots, logs, tables)
    }

    ghost function Now(): World
      reads this
    {
      World(View(), flushed)
    }

    ghost predicate Valid()
      reads this
    {
      Sound(Now())
    }

    /** DB::Open on a directory without a database. */
    constructor Create()
      ensures Valid() && Now() == Created()
    {
      mem, imm, levels := [], None, EMPTY_LEVELS;
      lastSequence, nextFile, logNumber, logfileNumber, snapshots := 0, 4, 3, 3, [];
      logs, tables, manifest, flushed := map[3 := []], {}, [SnapshotEdit(EMPTY_LEVELS)], [];
      new;
      ghost var before := View();
      LogAndApplyEdit(FirstEdit());
      CreatedIs(before, View());
      CreatedSound();
    }

    /** A database object holding a given state, before its first edit is logged. */
    constructor FromState(db: DbState, ghost inTables: seq<Batch>)
      ensures Now() == World(db, inTables)
    {
      mem, imm, levels, manifest := db.mem, db.imm, db.levels, db.manifest;
      lastSequence, nextFile, logNumber, logfileNumber := db.lastSequence, db.nextFile, db.logNumber, db.logfileNumber;
      snapshots, logs, tables, flushed := db.snapshots, db.logs, db.tables, inTables;
    }

    static lemma CreatedIs(before: DbState, after: DbState)
      requires before == Blank()
      requires after == LogAndApply(before, FirstEdit())
      ensures World(after, []) == Created()
    {
      hide InstallEdit, SnapshotEdit;
    }

    /** VersionSet::LogAndApply. */
    method LogAndApplyEdit(edit: VersionEdit)
      requires |levels| == NUM_LEVELS
      modifies this
      ensures View() == LogAndApply(old(View()), edit) && flushed == old(flushed)
    {
      var full := Complete(View(), edit);
      var builder := new Builder(levels);
      builder.Apply(full);
      var v := builder.SaveTo();
      assert v == InstallEdit(levels, full);
      levels, manifest, logNumber := v, manifest + [full], full.logNumber.value;
    }

    /** DBImpl::Get: the memtable, then the immutable memtable, then the tables. */
    method Get(k: UserKey, snapshot: Option<nat>) returns (r: Option<Value>)
      requires Valid() && (snapshot.Some? ==> snapshot.value in snapshots)
      ensures r == Lookup(HistSet(Hist(Now())), k, if snapshot.Some? then snapshot.value else lastSequence)
    {
      hide *;
      ghost var db := View();
      ViewFields();
      var s := if snapshot.Some? then snapshot.value else lastSequence;
      ProtectedSequence(Now(), s);
      LayersOf(db, flushed);
      ContentsAnswer(db, flushed, k, s);
      HistIs(Now());
      ImmIs(db);
      var found := Probe(mem, k, s);
      ProbeAnswers(mem, k, s);
      if found != NotFound {
        return ToAnswer(found);
      }
      if imm.Some? {
        found := Probe(imm.value, k, s);
        ProbeAnswers(imm.value, k, s);
        if found != NotFound {
          return ToAnswer(found);
        }
      }
      found := Version.Get(levels, k, s);
      ReportAnswers(levels, k, s, found);
      r := ToAnswer(found);
    }

    lemma ViewFields()
      ensures View() ==
                DbState(mem, imm, levels, manifest, lastSequence, nextFile, logNumber, logfileNumber, snapshots, logs,
                        tables)
      ensures Now() == World(View(), flushed)
      ensures Valid() ==> Inv(View(), flushed) && logfileNumber in logs && logNumber in logs
    {
      hide Inv;
    }

    static lemma ImmIs(db: DbState)
      ensures db.imm.Some? ==> ImmSet(db) == Elements(db.imm.value)
      ensures db.imm.None? ==> forall k, s, e :: !Visible(ImmSet(db), k, s, e)
    {
    }

    static lemma HistIs(w: World)
      requires w.db.logfileNumber in w.db.logs && w.db.logNumber in w.db.logs
      ensures Hist(w) == w.flushed + Unflushed(w.db)
    {
    }

    /** Sequence numbers a caller may read at. */
    static lemma ProtectedSequence(w: World, s: nat)
      requires Inv(w.db, w.flushed) && (s == w.db.lastSequence || s in w.db.snapshots)
      ensures Oldest(w.db) <= s
    {
      hide Inv;
      InvParts(w.db, w.flushed);
    }

    /** DBImpl::Write of one batch group. */
    method Write(ops: seq<Op>)
      requires Valid() && lastSequence + |ops| < MAX_SEQUENCE
      modifies this
      ensures Takes(old(Now()), DoWrite(ops), Now()) && Effect(old(Now()), DoWrite(ops), Now()) && Valid()
      ensures forall n: nat, k :: n <= |ops| ==> Answered(old(Now()), ops, Now(), n, k)
    {
      ghost var w := Now();
      hide Inv, Committed, Insert, InsertBatch;
      ViewFields();
      var b := NextBatch(View(), ops);
      logs := logs[logfileNumber := logs[logfileNumber] + [b]];
      ghost var before, logged := mem, logs;
      for i := 0 to |ops|
        invariant mem == InsertOps(before, b, i)
        invariant View() == w.db.(mem := mem, logs := logged) && flushed == w.flushed
      {
        mem := Insert(mem, EntryAt(b, i));
      }
      lastSequence := lastSequence + |ops|;
      WrittenIs(w, ops, Now());
      TakesKeepsInvariant(w, DoWrite(ops), Now());
      WritesAnswer(w, ops, Now());
    }

    static lemma WritesAnswer(w: World, ops: seq<Op>, after: World)
      requires Sound(w) && Sound(after) && Effect(w, DoWrite(ops), after) && HistoryStep(w, DoWrite(ops), after)
      ensures forall n: nat, k :: n <= |ops| ==> Answered(w, ops, after, n, k)
    {
      hide Sound, Effect, HistoryStep, Answered;
      forall n: nat, k | n <= |ops| ensures Answered(w, ops, after, n, k) {
        WriteAnswers(w, ops, after, n, k);
      }
    }

    static lemma WrittenIs(w: World, ops: seq<Op>, after: World)
      requires w.db.logfileNumber in w.db.logs && Enabled(w, DoWrite(ops))
      requires var b := NextBatch(w.db, ops);
               after == World(w.db.(mem := InsertOps(w.db.mem, b, |ops|),
                                    logs := w.db.logs[w.db.logfileNumber := w.db.logs[w.db.logfileNumber] + [b]],
                                    lastSequence := w.db.lastSequence + |ops|), w.flushed)
      ensures after == After(w, DoWrite(ops))
    {
      hide InsertOps;
    }

    /** The part of MakeRoomForWrite that switches to a new memtable and a new log. */
    method SwitchMemTable()
      requires Valid() && imm.None?
      modifies this
      ensures Takes(old(Now()), DoSwitch, Now()) && Effect(old(Now()), DoSwitch, Now()) && Valid()
    {
      ghost var w := Now();
      hide Inv, Committed, HistoryStep, Exposing, Effect;
      ViewFields();
      var newLogNumber := nextFile;
      nextFile := nextFile + 1;
      logs := logs[newLogNumber := []];
      logfileNumber := newLogNumber;
      imm := Some(mem);
      mem := [];
      SwitchedIs(w, Now());
      TakesKeepsInvariant(w, DoSwitch, Now());
    }

    static lemma SwitchedIs(w: World, after: World)
      requires w.db.imm.None?
      requires after == World(w.db.(mem := [], imm := Some(w.db.mem), logs := w.db.logs[w.db.nextFile := []],
                                    logfileNumber := w.db.nextFile, nextFile := w.db.nextFile + 1), w.flushed)
      ensures Enabled(w, DoSwitch) && !Exposing(w, DoSwitch) && after == After(w, DoSwitch)
    {
    }

    method GetSnapshot() returns (s: nat)
      requires Valid()
      modifies this
      ensures Takes(old(Now()), DoTakeSnapshot, Now()) && Valid() && Hist(Now()) == Hist(old(Now()))
      ensures s == lastSequence && snapshots == old(snapshots) + [s] && View() == old(View()).(snapshots := snapshots)
    {
      ghost var w := Now();
      hide Inv, Committed;
      s := lastSequence;
      snapshots := snapshots + [s];
      assert Now() == After(w, DoTakeSnapshot);
      TakesKeepsInvariant(w, DoTakeSnapshot, Now());
    }

    method ReleaseSnapshot(i: nat)
      requires Valid() && i < |snapshots|
      modifies this
      ensures Takes(old(Now()), DoReleaseSnapshot(i), Now()) && Valid()
      ensures multiset(snapshots) == multiset(old(snapshots)) - multiset{old(snapshots)[i]}
      ensures Effect(old(Now()), DoReleaseSnapshot(i), Now())
    {
      ghost var w := Now();
      hide Inv, Committed;
      assert snapshots == snapshots[..i] + [snapshots[i]] + snapshots[i + 1..];
      snapshots := snapshots[..i] + snapshots[i + 1..];
      assert Now() == After(w, DoReleaseSnapshot(i));
      TakesKeepsInvariant(w, DoReleaseSnapshot(i), Now());
    }

    method RemoveObsoleteFiles()
      modifies this
      ensures Takes(old(Now()), DoCollect, Now())
      ensures old(Valid()) ==> Valid()
      ensures forall n :: n in logs <==> n in old(logs) && n >= logNumber
      ensures forall n :: n in logs ==> logs[n] == old(logs)[n]
      ensures forall n :: n in tables <==>
                n in old(tables) && exists l, f :: 0 <= l < |levels| && f in levels[l] && f.number == n
      ensures View() == old(View()).(logs := logs, tables := tables) && OnlyObsoleteGone(old(View()), View())
    {
      ghost var w := Now();
      hide Inv, Committed;
      logs := map n | n in logs && n >= logNumber :: logs[n];
      tables := tables * LiveTables(levels);
      assert Now() == After(w, DoCollect);
      CollectedExactly(w.db);
      if Sound(w) {
        TakesKeepsInvariant(w, DoCollect, Now());
      }
    }

    /** WriteLevel0Table and CompactMemTable: the immutable memtable becomes a table at the level the
        version picks, then obsolete files go. */
    method CompactMemTable(grandparentLimit: nat) returns (ghost ev: Event, ghost mid: World)
      requires Valid() && imm.Some?
      modifies this
      ensures Takes(old(Now()), ev, mid) && Takes(mid, DoCollect, Now())
      ensures Effect(old(Now()), ev, mid) && OnlyObsoleteGone(mid.db, View())
      ensures Valid() && ev.DoFlush? && |old(levels)| == NUM_LEVELS
      ensures if old(imm).value == [] then ev.level == 0
              else var f := MakeFile(old(nextFile), ev.size, old(imm).value);
                   PlacedAt(old(levels), f.smallest.user, f.largest.user, grandparentLimit, ev.level)
    {
      ghost var w := Now();
      hide Inv, VersionOk, Sorted, LevelsSorted, SequencesFit, MayPlace, FlushTables, LogAndApply, AddFilesEdit,
        Numbers, Clear, HistoryStep, Enabled, Exposing, Flush, Committed, Effect, OnlyObsoleteGone,
        PlacedAt;
      FlushFacts(w);
      var number := nextFile;
      nextFile := nextFile + 1;
      var size: nat := *;
      var files: Level := [];
      var level := 0;
      if imm.value != [] {
        var f := MakeFile(number, size, imm.value);
        files := [f];
        TableOfImm(w, f);
        level := PickLevelForMemTableOutput(levels, f.smallest.user, f.largest.user, grandparentLimit);
      }
      tables := tables + Numbers(files);
      FlushPlaced(w.db, level, files, size);
      LogAndApplyEdit(AddFilesEdit(level, files).(logNumber := Some(logfileNumber)));
      ghost var logged := View();
      imm := None;
      ev := DoFlush(level, size);
      FlushedIs(w, level, size, files, logged, View());
      flushed := flushed + w.db.logs[w.db.logNumber];
      FlushEnabled(w, level, size);
      mid := Now();
      TakesKeepsInvariant(w, ev, mid);
      RemoveObsoleteFiles();
    }

    /** The part of BackgroundCompaction that runs a chosen compaction, as a trivial move or as a real one.
        Only an exposing compaction can break the invariant. */
    method RunCompaction(level: nat, in0: Level, in1: Level, isManual: bool, grandparentLimit: nat)
      returns (ghost ev: Event, ghost mid: World)
      requires Valid() && Chosen(levels, level, in0, in1)
      modifies this
      ensures Takes(old(Now()), ev, mid) && Effect(old(Now()), ev, mid) && Uses(ev, level, in0, in1)
      ensures if ev.DoMove? then mid == Now() else Takes(mid, DoCollect, Now()) && OnlyObsoleteGone(mid.db, View())
      ensures ev.DoMove? <==> !isManual && MovesTrivially(old(levels), level, in0, in1, grandparentLimit)
      ensures !Exposing(old(Now()), ev) ==> Valid()
    {
      hide Inv, Committed, Chosen, HistoryStep, Enabled, Exposing, Effect, OnlyObsoleteGone;
      var trivial := IsTrivialMove(level, in0, in1, isManual, grandparentLimit);
      if trivial {
        ev := MoveFile(level, in0, in1);
        mid := Now();
      } else {
        ev, mid := CompactFiles(level, in0, in1);
      }
    }

    /** Compaction::IsTrivialMove; a manual compaction is never one. */
    method IsTrivialMove(level: nat, in0: Level, in1: Level, isManual: bool, grandparentLimit: nat)
      returns (trivial: bool)
      requires Valid() && Chosen(levels, level, in0, in1)
      ensures trivial <==> !isManual && MovesTrivially(levels, level, in0, in1, grandparentLimit)
    {
      hide Inv, VersionOk, Sorted, Committed, Chosen, MergeFiles, OverlapSize;
      CompactionFacts(Now(), level, in0, in1);
      trivial := !isManual && |in0| == 1 && |in1| == 0;
      if trivial && level + 2 < NUM_LEVELS {
        var smallest, largest := GetRange(in0);
        var grandparents, _, _ :=
          GetOverlappingInputs(levels[level + 2], level + 2, Some(smallest.user), Some(largest.user));
        RangeOfOne(in0);
        OverlapSizeIs(levels[level + 2], Some(smallest.user), Some(largest.user));
        trivial := TotalFileSize(grandparents) <= grandparentLimit;
      }
    }

    method MoveFile(level: nat, in0: Level, in1: Level) returns (ghost ev: Event)
      requires Valid() && Chosen(levels, level, in0, in1) && |in0| == 1 && in1 == []
      modifies this
      ensures Takes(old(Now()), ev, Now()) && Effect(old(Now()), ev, Now()) && Valid() && ev == DoMove(level, in0[0])
    {
      ghost var w := Now();
      hide Inv, LogAndApply, CompactionEdit, HistoryStep, Enabled, Exposing, Committed, Chosen, Move;
      CompactionFacts(w, level, in0, in1);
      var f := in0[0];
      OnlyFile(in0, in1);
      LogAndApplyEdit(CompactionEdit(level, [f], [], [f]));
      ev := DoMove(level, f);
      MovedIs(w, level, f);
      TakesKeepsInvariant(w, ev, Now());
    }

    method CompactFiles(level: nat, in0: Level, in1: Level) returns (ghost ev: Event, ghost mid: World)
      requires Valid() && Chosen(levels, level, in0, in1)
      modifies this
      ensures Takes(old(Now()), ev, mid) && ev.DoCompact? && Uses(ev, level, in0, in1)
      ensures Effect(old(Now()), ev, mid) && Takes(mid, DoCollect, Now()) && OnlyObsoleteGone(mid.db, View())
      ensures !Exposing(old(Now()), ev) ==> Valid()
    {
      ghost var w := Now();
      hide Inv, VersionOk, Sorted, LevelsSorted, LogAndApply, CompactionEdit, Numbers, HistoryStep, Enabled, Exposing,
        Committed, Chosen, Compacts, CompactionOutput, MergeFiles, Compact, Disjoint, FilesOk, Effect,
        OnlyObsoleteGone;
      CompactionFacts(w, level, in0, in1);
      var smallestSnapshot := if snapshots == [] then lastSequence else snapshots[0];
      var c := new Compaction(level, levels);
      var outs := DoCompactionWork(c, MergeFiles(in0 + in1), smallestSnapshot, nextFile);
      CompactedIs(w, level, in0, in1, outs);
      nextFile := nextFile + |outs|;
      tables := tables + Numbers(outs);
      LogAndApplyEdit(CompactionEdit(level, in0, in1, outs));
      ev := DoCompact(level, in0, in1, outs);
      mid := Now();
      StepHasEffect(w, ev);
      if !Exposing(w, ev) {
        TakesKeepsInvariant(w, ev, mid);
      }
      RemoveObsoleteFiles();
    }

    /** BackgroundCompaction for a level that is too large. */
    method CompactLevel(level: nat, pointer: Option<InternalKey>, sizeLimit: nat, grandparentLimit: nat)
      returns (ghost ev: Event, ghost mid: World, ghost pick: nat, ghost in0: Level, ghost in1: Level)
      requires Valid() && level + 1 < NUM_LEVELS && |levels| == NUM_LEVELS && levels[level] != []
      modifies this
      ensures Takes(old(Now()), ev, mid) && Effect(old(Now()), ev, mid) && Uses(ev, level, in0, in1)
      ensures if ev.DoMove? then mid == Now() else Takes(mid, DoCollect, Now()) && OnlyObsoleteGone(mid.db, View())
      ensures ev.DoMove? <==> MovesTrivially(old(levels), level, in0, in1, grandparentLimit)
      ensures PickedFrom(old(levels), level, pick, sizeLimit, in0, in1)
      ensures if exists f :: f in old(levels)[level] && IsAfter(pointer, f)
              then && IsAfter(pointer, old(levels)[level][pick])
                   && forall i :: 0 <= i < pick ==> !IsAfter(pointer, old(levels)[level][i])
              else pick == 0
      ensures !Exposing(old(Now()), ev) ==> Valid()
    {
      hide Inv, VersionOk, LevelsSorted, Chosen, Enabled, Exposing, Effect, OnlyObsoleteGone, PickedFrom, Requested,
        MovesTrivially;
      FlushFacts(Now());
      var files, nextFiles;
      files, nextFiles, pick := PickCompaction(levels, level, pointer, sizeLimit);
      in0, in1 := files, nextFiles;
      ev, mid := RunCompaction(level, files, nextFiles, false, grandparentLimit);
    }

    /** BackgroundCompaction for a requested key range (TEST_CompactRange, CompactRange). */
    method CompactKeyRange(level: nat, begin: Bound, end: Bound, fileLimit: nat, sizeLimit: nat, grandparentLimit: nat)
      returns (any: bool, ghost ev: Event, ghost mid: World)
      requires Valid() && level + 1 < NUM_LEVELS && |levels| == NUM_LEVELS
      modifies this
      ensures any <==> exists f :: f in old(levels)[level] && Overlaps(f, begin, end)
      ensures any ==> ev.DoCompact? && Takes(old(Now()), ev, mid) && Effect(old(Now()), ev, mid)
      ensures any ==> Takes(mid, DoCollect, Now()) && OnlyObsoleteGone(mid.db, View())
      ensures any ==> ev.level == level && Requested(old(levels)[level], level, begin, end, fileLimit, ev.in0)
      ensures any && !Exposing(old(Now()), ev) ==> Valid()
      ensures !any ==> Now() == old(Now())
    {
      hide Inv, VersionOk, LevelsSorted, Chosen, Enabled, Exposing, Effect, OnlyObsoleteGone, PickedFrom, Requested,
        MovesTrivially;
      FlushFacts(Now());
      var in0, in1;
      ghost var inputs, wider;
      any, in0, in1, inputs, wider := CompactRange(levels, level, begin, end, fileLimit, sizeLimit);
      ev, mid := DoCollect, Now();
      if any {
        ev, mid := RunCompaction(level, in0, in1, true, grandparentLimit);
      }
    }
  }

  /** A caller who reads, writes and reads again sees what he wrote, and through a snapshot taken before the write
      what he read first. */
  method ReadYourWrites(db: DB, ops: seq<Op>, k: UserKey)
    returns (before: Option<Value>, after: Option<Value>, snapshotted: Option<Value>)
    requires db.Valid() && db.lastSequence + |ops| < MAX_SEQUENCE
    modifies db
    ensures db.Valid() && db.snapshots == old(db.snapshots)
    ensures AfterOps(ops, |ops|, k, before, after) && snapshotted == before
  {
    hide Inv, Committed, HistSet, Lookup, Enabled, After, Exposing, AfterOps, Effect, HistoryStep, Takes;
    before := db.Get(k, None);
    var s := db.GetSnapshot();
    ghost var w1 := db.Now();
    db.Write(ops);
    assert Answered(w1, ops, db.Now(), |ops|, k) && Answered(w1, ops, db.Now(), 0, k);
    SnapshotsChange(w1, DoWrite(ops), db.Now());
    after := db.Get(k, None);
    snapshotted := db.Get(k, Some(s));
    NothingYet(ops, k, before, snapshotted);
    ghost var w2 := db.Now();
    db.ReleaseSnapshot(|db.snapshots| - 1);
    SnapshotsChange(w2, DoReleaseSnapshot(|w2.db.snapshots| - 1), db.Now());
  }

  lemma CompactionFacts(w: World, level: nat, in0: Level, in1: Level)
    requires Sound(w) && Chosen(w.db.levels, level, in0, in1)
    ensures Sorted(MergeFiles(in0 + in1)) && Oldest(w.db) < MAX_SEQUENCE && in0 != [] && level + 1 < NUM_LEVELS
    ensures |w.db.levels| == NUM_LEVELS && forall l :: 0 <= l < |w.db.levels| ==> FilesOk(w.db.levels[l])
    ensures forall l :: 2 <= l < |w.db.levels| ==> FilesOk(w.db.levels[l]) && Disjoint(w.db.levels[l])
  {
    hide Inv, VersionOk, Chosen, MergeFiles, FilesOk, Disjoint, Sorted;
    InvParts(w.db, w.flushed);
    TablesDistinct(w.db, w.flushed);
    InputSorted(w.db.levels, level, in0, in1);
    DeepLevels(w.db.levels);
    ChosenFiles(w.db.levels, level, in0, in1);
  }

  lemma OnlyFile(in0: Level, in1: Level)
    requires |in0| == 1 && |in1| == 0
    ensures in0 == [in0[0]] && in1 == []
  {
  }

  lemma MovedIs(w: World, level: nat, f: File)
    requires Chosen(w.db.levels, level, [f], [])
    ensures Enabled(w, DoMove(level, f)) && !Exposing(w, DoMove(level, f))
    ensures After(w, DoMove(level, f)) == World(LogAndApply(w.db, CompactionEdit(level, [f], [], [f])), w.flushed)
  {
    hide Chosen, LogAndApply, CompactionEdit;
  }

  lemma CompactedIs(w: World, level: nat, in0: Level, in1: Level, outs: Level)
    requires Chosen(w.db.levels, level, in0, in1) && level + 1 < |w.db.levels|
    requires CompactionOutput(outs, MergeFiles(in0 + in1), w.db.levels, level, Oldest(w.db), w.db.nextFile)
    ensures Enabled(w, DoCompact(level, in0, in1, outs))
    ensures After(w, DoCompact(level, in0, in1, outs)) ==
            World(LogAndApply(w.db.(nextFile := w.db.nextFile + |outs|, tables := w.db.tables + Numbers(outs)),
                              CompactionEdit(level, in0, in1, outs)), w.flushed)
  {
    hide Chosen, LogAndApply, CompactionEdit, CompactionOutput, MergeFiles, Numbers;
  }

  /** What a flush needs to know about the state. */
  lemma FlushFacts(w: World)
    requires Sound(w)
    ensures VersionOk(w.db.levels) && LevelsSorted(w.db.levels) && |w.db.levels| == NUM_LEVELS
    ensures forall l :: 0 <= l < |w.db.levels| ==> SequencesFit(w.db.levels[l])
    ensures w.db.imm.Some? ==> Sorted(w.db.imm.value)
    ensures Inv(w.db, w.flushed) && w.db.logfileNumber in w.db.logs && w.db.logNumber in w.db.logs
  {
    hide Inv, VersionOk, Sorted, LevelsSorted, Tables, SequencesFit;
    LayersOf(w.db, w.flushed);
    VersionSorted(w.db.levels);
    InvParts(w.db, w.flushed);
    StoresParts(w.db.levels, w.flushed, Oldest(w.db));
    StoredSequencesFit(w.db, w.flushed);
  }

  lemma StoredSequencesFit(db: DbState, flushed: seq<Batch>)
    requires LogsOk(db) && db.lastSequence < MAX_SEQUENCE && LevelsSorted(db.levels)
    requires Tables(db.levels) <= HistSet(flushed) && HistoryOk(flushed + Unflushed(db), db.lastSequence)
    ensures forall l :: 0 <= l < |db.levels| ==> SequencesFit(db.levels[l])
  {
    hide HistSet, HistoryOk, MemOf, Disjoint;
    HistoryOrder(flushed, Unflushed(db), db.lastSequence);
    HistoryFacts(flushed, db.lastSequence);
    forall l, f | 0 <= l < |db.levels| && f in db.levels[l] ensures f.largest.seqno <= MAX_SEQUENCE {
      var e := f.entries[|f.entries| - 1];
      assert e in f.entries && e in Tables(db.levels);
    }
  }

  lemma TableOfImm(w: World, f: File)
    requires w.db.imm.Some? && w.db.imm.value != [] && Sorted(w.db.imm.value)
    requires f == MakeFile(f.number, f.size, w.db.imm.value)
    ensures f.smallest.user <= f.largest.user
  {
    assert FileOk(f);
    FileBounds(f);
  }

  lemma FlushPlaced(db: DbState, level: nat, files: Level, size: nat)
    requires db.imm.Some? && |db.levels| == NUM_LEVELS && level <= MAX_MEM_COMPACT_LEVEL
    requires if db.imm.value == [] then files == [] && level == 0
             else files == [MakeFile(db.nextFile, size, db.imm.value)]
    requires files != [] && level > 0 ==>
               forall m :: 0 <= m <= level ==> Clear(db.levels, m, files[0].smallest.user, files[0].largest.user)
    ensures files == FlushTables(db, size) && MayPlace(db.levels, level, files)
  {
    hide Clear;
  }

  lemma FlushEnabled(w: World, level: nat, size: nat)
    requires w.db.imm.Some? && w.db.logNumber in w.db.logs && MayPlace(w.db.levels, level, FlushTables(w.db, size))
    ensures Enabled(w, DoFlush(level, size)) && !Exposing(w, DoFlush(level, size))
    ensures After(w, DoFlush(level, size)) == World(Flush(w.db, level, size), w.flushed + w.db.logs[w.db.logNumber])
  {
    hide MayPlace, FlushTables, Flush;
  }

  lemma FlushedIs(w: World, level: nat, size: nat, files: Level, logged: DbState, after: DbState)
    requires w.db.imm.Some? && files == FlushTables(w.db, size)
    requires logged == LogAndApply(w.db.(nextFile := w.db.nextFile + 1, tables := w.db.tables + Numbers(files)),
                                   AddFilesEdit(level, files).(logNumber := Some(w.db.logfileNumber)))
    requires after == logged.(imm := None)
    ensures after == Flush(w.db, level, size)
  {
    hide LogAndApply, FlushTables, Numbers;
  }
}
