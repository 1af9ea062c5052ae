/** The steps of the database and the proof that each keeps the invariant (db/db_impl.cc). */
module Steps {
  import opened DbFormat
  import opened Visibility
  import opened Version
  import opened VersionEdits
  import opened Picking
  import opened CompactionWork
  import opened CompactionSafety
  import opened Install
  import opened History
  import opened State
  import opened Manifest

  // ---- LogAndApply ----------------------------------------------------------------------------

  /** The edit as LogAndApply completes it before logging. */
  function Complete(db: DbState, edit: VersionEdit): VersionEdit {
    edit.(logNumber := if edit.logNumber.Some? then edit.logNumber else Some(db.logNumber),
          nextFile := Some(db.nextFile),
          lastSequence := Some(db.lastSequence))
  }

  function LogAndApply(db: DbState, edit: VersionEdit): DbState {
    var full := Complete(db, edit);
    db.(levels := InstallEdit(db.levels, full), manifest := db.manifest + [full], logNumber := full.logNumber.value)
  }

  /** The edit adds files to one level only: fresh numbers, or a file sinking from the level above. */
  ghost predicate GoodEdit(db: DbState, edit: VersionEdit, level: nat, fs: Level) {
    && edit.newFiles == FilesAt(level, fs) && DistinctNumbers(fs)
    && (forall f :: f in fs ==> f.number < db.nextFile)
    && (forall f, m :: f in fs && level <= m < |db.levels| ==> f.number !in Seen(db.manifest, m))
  }

  lemma GoodEditFresh(db: DbState, edit: VersionEdit, level: nat, fs: Level)
    requires GoodEdit(db, edit, level, fs)
    ensures forall l :: 0 <= l < |db.levels| ==> FreshAdds(edit.newFiles, l, Seen(db.manifest, l))
    ensures SinkingAdds(db.manifest, edit, |db.levels|, db.nextFile)
  {
    hide Seen;
    forall l | 0 <= l < |db.levels| ensures FreshAdds(edit.newFiles, l, Seen(db.manifest, l)) {
      FilesAtFresh(level, fs, l, Seen(db.manifest, l));
    }
    forall l, f | 0 <= l < |db.levels| && AddsAt(edit.newFiles, l, f)
      ensures f.number < db.nextFile && forall m :: l <= m < |db.levels| ==> f.number !in Seen(db.manifest, m)
    {
      FilesAtAdds(level, fs, l);
    }
  }

  lemma GoodEditMembers(db: DbState, edit: VersionEdit, level: nat, fs: Level)
    requires GoodEdit(db, edit, level, fs) && Lists(db.manifest, db.levels)
    ensures var after := InstallEdit(db.levels, edit);
            (forall l :: 0 <= l < |after| ==> SmallestSorted(after[l])) &&
            forall l, f :: 0 <= l < |after| ==>
              (f in after[l] <==> (f in db.levels[l] && f.number !in DeletedAt(edit, l)) || f in OnlyAt(l, level, fs))
  {
    hide Lists, Seen, FreshAdds;
    GoodEditFresh(db, edit, level, fs);
    forall l | 0 <= l < |db.levels|
      ensures SmallestSorted(InstallLevel(db.levels[l], edit, l))
      ensures forall f :: f in InstallLevel(db.levels[l], edit, l) <==>
                          (f in db.levels[l] && f.number !in DeletedAt(edit, l)) || f in OnlyAt(l, level, fs)
    {
      MembersStep(db.manifest, db.levels, edit, l);
      FilesAtAdds(level, fs, l);
    }
  }

  lemma GoodEditIsMembers(db: DbState, edit: VersionEdit, level: nat, fs: Level)
    requires GoodEdit(db, edit, level, fs) && Lists(db.manifest, db.levels)
    ensures Members(db.levels, edit, InstallEdit(db.levels, edit))
  {
    hide Lists, GoodEdit;
    var after := InstallEdit(db.levels, edit);
    GoodEditMembers(db, edit, level, fs);
    GoodEditAdds(db, edit, level, fs);
    forall l, f | 0 <= l < |after|
      ensures f in after[l] <==> (f in db.levels[l] && f.number !in DeletedAt(edit, l)) || AddsAt(edit.newFiles, l, f)
    {
      assert f in OnlyAt(l, level, fs) <==> AddsAt(edit.newFiles, l, f);
    }
  }

  lemma GoodEditAdds(db: DbState, edit: VersionEdit, level: nat, fs: Level)
    requires GoodEdit(db, edit, level, fs)
    ensures forall l: nat, f :: f in OnlyAt(l, level, fs) <==> AddsAt(edit.newFiles, l, f)
  {
    forall l: nat ensures forall f :: f in OnlyAt(l, level, fs) <==> AddsAt(edit.newFiles, l, f) {
      FilesAtAdds(level, fs, l);
    }
  }

  lemma GoodEditSinks(db: DbState, edit: VersionEdit, level: nat, fs: Level, bound: nat)
    requires GoodEdit(db, edit, level, fs) && Lists(db.manifest, db.levels)
    requires Sinks(db.manifest, db.levels, bound) && bound <= db.nextFile
    requires UniqueNumbers(InstallEdit(db.levels, edit))
    ensures Lists(db.manifest + [edit], InstallEdit(db.levels, edit))
    ensures Sinks(db.manifest + [edit], InstallEdit(db.levels, edit), db.nextFile)
  {
    var after := InstallEdit(db.levels, edit);
    hide Lists, Seen, FreshAdds, Sinks, UniqueNumbers, Members, GoodEdit;
    GoodEditFresh(db, edit, level, fs);
    GoodEditIsMembers(db, edit, level, fs);
    ListsStep(db.manifest, db.levels, edit);
    SinksStep(db.manifest, db.levels, edit, after, bound, db.nextFile);
  }

  /** The manifest lists the version, with file numbers below `bound`. */
  ghost predicate Tracks(db: DbState, bound: nat) {
    Lists(db.manifest, db.levels) && Sinks(db.manifest, db.levels, bound) && bound <= db.nextFile
  }

  lemma ManifestTracks(db: DbState, flushed: seq<Batch>) returns (bound: nat)
    requires ManifestOk(db, flushed)
    ensures Tracks(db, bound)
  {
    hide Lists, Sinks, HistoryOk;
    bound := db.manifest[|db.manifest| - 1].nextFile.value;
  }

  /** LogAndApply keeps the manifest in step with the version and the counters. */
  lemma LogAndApplyManifest(db: DbState, edit: VersionEdit, level: nat, fs: Level, bound: nat, nowFlushed: seq<Batch>)
    requires Tracks(db, bound) && GoodEdit(db, Complete(db, edit), level, fs)
    requires UniqueNumbers(LogAndApply(db, edit).levels)
    requires HistoryOk(nowFlushed, db.lastSequence)
    requires LogAndApply(db, edit).logNumber < db.nextFile
    ensures ManifestOk(LogAndApply(db, edit), nowFlushed)
  {
    hide Lists, Sinks, HistoryOk, InstallEdit, GoodEdit, UniqueNumbers;
    var full := Complete(db, edit);
    GoodEditSinks(db, full, level, fs, bound);
  }

  // ---- New tables: flush and recovery ----------------------------------------------------------

  /** Where new tables may go: level 0, or one table at a level that nothing above or at it overlaps. */
  ghost predicate MayPlace(levels: Levels, level: nat, files: Level) {
    level < |levels| &&
    (level > 0 ==> |files| <= 1 && forall m, f :: 0 <= m <= level && f in files ==>
       Clear(levels, m, f.smallest.user, f.largest.user))
  }

  lemma NewTablesVersion(levels: Levels, after: Levels, level: nat, files: Level)
    requires VersionOk(levels) && FreshTables(levels, files) && MayPlace(levels, level, files)
    requires AddedAt(levels, after, level, files)
    ensures VersionOk(after)
  {
    hide VersionOk, FreshTables, Clear, Updated;
    if level == 0 {
      AddedAtZeroOk(levels, after, files);
    } else if files == [] {
      NothingAdded(levels, after, level);
    } else {
      assert files == [files[0]];
      AddedDeepOk(levels, after, level, files[0]);
    }
  }

  lemma NothingAdded(levels: Levels, after: Levels, level: nat)
    requires VersionOk(levels) && AddedAt(levels, after, level, [])
    ensures after == levels
  {
    hide VersionOk, Updated;
    VersionLayered(levels);
    forall l | 0 <= l < |levels| ensures after[l] == levels[l] {
      VersionLevel(levels, l);
      assert Updated(levels[l], after[l], [], []);
      Unchanged(levels[l], after[l]);
    }
  }

  lemma NewTablesContents(levels: Levels, after: Levels, level: nat, files: Level)
    requires level < |levels| && AddedAt(levels, after, level, files)
    ensures Tables(after) == Tables(levels) + EntriesOf(files)
  {
    forall e | e in Tables(after) ensures e in Tables(levels) + EntriesOf(files) {
      var l, f :| 0 <= l < |after| && f in after[l] && e in f.entries;
      assert Updated(levels[l], after[l], [], OnlyAt(l, level, files));
    }
    forall e | e in Tables(levels) ensures e in Tables(after) {
      var l, f :| 0 <= l < |levels| && f in levels[l] && e in f.entries;
      assert Updated(levels[l], after[l], [], OnlyAt(l, level, files));
    }
    forall e | e in EntriesOf(files) ensures e in Tables(after) {
      var f :| f in files && e in f.entries;
      assert Updated(levels[level], after[level], [], OnlyAt(level, level, files));
    }
  }

  /** New tables holding the next batches extend what the tables store. */
  lemma NewTablesStore(levels: Levels, after: Levels, files: Level, flushed: seq<Batch>, more: seq<Batch>, last: nat,
                       oldest: nat)
    requires Tables(after) == Tables(levels) + EntriesOf(files) && EntriesOf(files) == HistSet(more)
    requires HistoryOk(flushed + more, last) && Stores(levels, flushed, oldest)
    ensures Stores(after, flushed + more, oldest)
  {
    hide HistSet, HistoryOk, Tables, EntriesOf, Lookup;
    HistSetAppend(flushed, more);
    HistoryOrder(flushed, more, last);
    HistoryFacts(flushed + more, last);
    var top, a, b := HistSet(more), HistSet(flushed), Tables(levels);
    assert HistSet(flushed + more) == top + a && Tables(after) == top + b;
    forall k, s | oldest <= s ensures Lookup(HistSet(flushed + more), k, s) == Lookup(Tables(after), k, s) {
      LookupLayers(top, a, b, k, s);
    }
  }

  /** Tables made of later batches are newer than every stored entry. */
  lemma LaterIsNewer(levels: Levels, flushed: seq<Batch>, more: seq<Batch>, last: nat, es: seq<Entry>, l: nat, f: File)
    requires HistoryOk(flushed + more, last) && Tables(levels) <= HistSet(flushed)
    requires forall e :: e in es ==> e in HistSet(more)
    requires l < |levels| && f in levels[l]
    ensures Newer(es, f.entries)
  {
    hide HistSet, HistoryOk;
    HistoryOrder(flushed, more, last);
    forall x, y | x in es && y in f.entries ensures x.key.seqno > y.key.seqno {
      assert y in Tables(levels);
    }
  }

  /** File numbers not handed out yet are unknown to the manifest. */
  lemma UnusedNumber(db: DbState, bound: nat, n: nat)
    requires Tracks(db, bound) && n >= bound
    ensures forall m :: 0 <= m < |db.levels| ==> n !in Seen(db.manifest, m)
    ensures forall l, f :: 0 <= l < |db.levels| && f in db.levels[l] ==> f.number < n
  {
    hide Lists, Seen;
  }

  lemma AddedAtFromEdit(db: DbState, edit: VersionEdit, level: nat, fs: Level)
    requires GoodEdit(db, edit, level, fs) && Lists(db.manifest, db.levels) && edit.deletedFiles == {}
    ensures AddedAt(db.levels, InstallEdit(db.levels, edit), level, fs)
  {
    hide GoodEdit, Lists, InstallEdit;
    GoodEditMembers(db, edit, level, fs);
    var after := InstallEdit(db.levels, edit);
    assert |after| == |db.levels|;
    forall l | 0 <= l < |after| ensures Updated(db.levels[l], after[l], [], OnlyAt(l, level, fs)) {
      assert DeletedAt(edit, l) == {};
      assert SmallestSorted(after[l]);
      forall f ensures f in after[l] <==> f in db.levels[l] || f in OnlyAt(l, level, fs) {
        assert f in after[l] <==> (f in db.levels[l] && f.number !in DeletedAt(edit, l)) || f in OnlyAt(l, level, fs);
      }
    }
  }

  /** LogAndApply of an edit that only adds tables holding the batches `more`. */
  lemma AddTablesOk(db: DbState, bound: nat, flushed: seq<Batch>, more: seq<Batch>, level: nat, files: Level,
                    edit: VersionEdit, oldest: nat)
    requires VersionOk(db.levels) && Stores(db.levels, flushed, oldest) && Tracks(db, bound)
    requires HistoryOk(flushed + more, db.lastSequence)
    requires FreshTables(db.levels, files) && MayPlace(db.levels, level, files) && EntriesOf(files) == HistSet(more)
    requires edit.deletedFiles == {} && GoodEdit(db, Complete(db, edit), level, files)
    requires LogAndApply(db, edit).logNumber < db.nextFile
    ensures var after := LogAndApply(db, edit);
            VersionOk(after.levels) && Stores(after.levels, flushed + more, oldest) && ManifestOk(after, flushed + more)
    ensures AddedAt(db.levels, LogAndApply(db, edit).levels, level, files)
  {
    var full := Complete(db, edit);
    var after := InstallEdit(db.levels, full);
    hide VersionOk, Stores, HistoryOk, FreshTables, GoodEdit, HistSet, EntriesOf, InstallEdit, AddedAt, Lists, Counters,
      Tables, Clear, Sinks;
    AddedAtFromEdit(db, full, level, files);
    NewTablesVersion(db.levels, after, level, files);
    NewTablesContents(db.levels, after, level, files);
    NewTablesStore(db.levels, after, files, flushed, more, db.lastSequence, oldest);
    VersionNumbers(after);
    LogAndApplyManifest(db, edit, level, files, bound, flushed + more);
  }

  lemma OnDiskAfterAdd(levels: Levels, after: Levels, level: nat, files: Level, tables: set<nat>)
    requires OnDisk(levels, tables) && AddedAt(levels, after, level, files)
    ensures OnDisk(after, tables + Numbers(files))
  {
    forall l, f | 0 <= l < |after| && f in after[l] ensures f.number in tables + Numbers(files) {
      assert Updated(levels[l], after[l], [], OnlyAt(l, level, files));
    }
  }

  // ---- CompactMemTable ------------------------------------------------------------------------

  /** BuildTable over the immutable memtable; an empty one gives no table. */
  function FlushTables(db: DbState, size: nat): Level
    requires db.imm.Some?
  {
    if db.imm.value == [] then [] else [MakeFile(db.nextFile, size, db.imm.value)]
  }

  /** CompactMemTable with its table placed at `level`: the table is logged and the log of the immutable
      memtable is no longer needed. */
  function Flush(db: DbState, level: nat, size: nat): DbState
    requires db.imm.Some?
  {
    var files := FlushTables(db, size);
    var numbered := db.(nextFile := db.nextFile + 1, tables := db.tables + Numbers(files));
    var edit := AddFilesEdit(level, files).(logNumber := Some(db.logfileNumber));
    LogAndApply(numbered, edit).(imm := None)
  }

  lemma FlushTablesFresh(db: DbState, flushed: seq<Batch>, size: nat)
    requires db.imm.Some? && LogsOk(db) && ManifestOk(db, flushed) && Tables(db.levels) <= HistSet(flushed)
    requires HistoryOk(flushed + Unflushed(db), db.lastSequence)
    ensures var files := FlushTables(db, size);
            FreshTables(db.levels, files) && EntriesOf(files) == HistSet(db.logs[db.logNumber])
    ensures HistoryOk(flushed + db.logs[db.logNumber], db.lastSequence)
  {
    var files, more := FlushTables(db, size), db.logs[db.logNumber];
    hide *;
    FlushedPart(db, flushed);
    FlushedTable(db, size);
    var bound := ManifestTracks(db, flushed);
    BoundBelowNext(db, bound);
    UnusedNumber(db, bound, db.nextFile);
    FreshFlushTable(db.levels, flushed, more, db.lastSequence, files, db.nextFile);
  }

  lemma BoundBelowNext(db: DbState, bound: nat)
    requires Tracks(db, bound)
    ensures bound <= db.nextFile
  {
    hide Lists, Sinks;
  }

  lemma FlushedPart(db: DbState, flushed: seq<Batch>)
    requires db.imm.Some? && LogsOk(db) && HistoryOk(flushed + Unflushed(db), db.lastSequence)
    ensures db.logNumber in db.logs && db.imm.value == MemOf(db.logs[db.logNumber])
    ensures HistoryOk(flushed + db.logs[db.logNumber], db.lastSequence)
    ensures HistoryOk(db.logs[db.logNumber], db.lastSequence)
  {
    hide HistSet, HistoryOk, MemOf;
    var more := db.logs[db.logNumber];
    assert flushed + Unflushed(db) == (flushed + more) + db.logs[db.logfileNumber];
    HistoryOrder(flushed + more, db.logs[db.logfileNumber], db.lastSequence);
    HistoryOrder(flushed, more, db.lastSequence);
  }

  /** The flushed table holds exactly the immutable memtable's batches. */
  lemma FlushedTable(db: DbState, size: nat)
    requires db.imm.Some? && db.logNumber in db.logs && db.imm.value == MemOf(db.logs[db.logNumber])
    requires HistoryOk(db.logs[db.logNumber], db.lastSequence)
    ensures var files := FlushTables(db, size);
            FilesOk(files) && |files| <= 1 && EntriesOf(files) == HistSet(db.logs[db.logNumber]) &&
            forall f :: f in files ==> f.number == db.nextFile
  {
    hide HistSet, HistoryOk, MemOf, Sorted;
    MemOfEffect(db.logs[db.logNumber], db.lastSequence);
    assert EntriesOf(FlushTables(db, size)) == Elements(db.imm.value);
  }

  lemma FreshFlushTable(levels: Levels, flushed: seq<Batch>, more: seq<Batch>, last: nat, files: Level, number: nat)
    requires HistoryOk(flushed + more, last) && Tables(levels) <= HistSet(flushed)
    requires FilesOk(files) && |files| <= 1 && EntriesOf(files) == HistSet(more)
    requires forall f :: f in files ==> f.number == number
    requires forall l, f :: 0 <= l < |levels| && f in levels[l] ==> f.number < number
    ensures FreshTables(levels, files)
  {
    hide HistSet, HistoryOk, FileOk, Newer, Tables;
    forall l, f, g | 0 <= l < |levels| && f in levels[l] && g in files ensures Newer(g.entries, f.entries) {
      assert forall e :: e in g.entries ==> e in EntriesOf(files);
      LaterIsNewer(levels, flushed, more, last, g.entries, l, f);
    }
  }

  lemma FlushGoodEdit(db: DbState, flushed: seq<Batch>, level: nat, size: nat)
    requires db.imm.Some? && ManifestOk(db, flushed)
    ensures var files := FlushTables(db, size);
            var numbered := db.(nextFile := db.nextFile + 1, tables := db.tables + Numbers(files));
            ManifestOk(numbered, flushed) &&
            GoodEdit(numbered, Complete(numbered, AddFilesEdit(level, files).(logNumber := Some(db.logfileNumber))),
                     level, files)
  {
    hide Lists, Seen, HistoryOk, Sinks;
    var bound := ManifestTracks(db, flushed);
    UnusedNumber(db, bound, db.nextFile);
  }

  /** Flushing keeps the invariant, and moves the immutable memtable's batches to the tables. */
  lemma FlushOk(db: DbState, flushed: seq<Batch>, level: nat, size: nat)
    requires Inv(db, flushed) && db.imm.Some? && MayPlace(db.levels, level, FlushTables(db, size))
    ensures Inv(Flush(db, level, size), flushed + db.logs[db.logNumber])
    ensures Committed(Flush(db, level, size), flushed + db.logs[db.logNumber]) == Committed(db, flushed)
    ensures FilesAdded(db.levels, Flush(db, level, size).levels, level, FlushTables(db, size))
  {
    var files, more := FlushTables(db, size), db.logs[db.logNumber];
    var numbered := db.(nextFile := db.nextFile + 1, tables := db.tables + Numbers(files));
    var edit := AddFilesEdit(level, files).(logNumber := Some(db.logfileNumber));
    var after := Flush(db, level, size);
    hide *;
    InvParts(db, flushed);
    StoresParts(db.levels, flushed, Oldest(db));
    FlushTablesFresh(db, flushed, size);
    FlushGoodEdit(db, flushed, level, size);
    FlushFrame(db, level, size);
    var bound := ManifestTracks(numbered, flushed);
    AddTablesOk(numbered, bound, flushed, more, level, files, edit, Oldest(db));
    OnDiskAfterAdd(db.levels, after.levels, level, files, db.tables);
    AddedFiles(db.levels, after.levels, level, files);
    FlushedHistory(db, after, flushed);
    ManifestIgnores(LogAndApply(numbered, edit), after, flushed + more);
    ToInv(after, flushed + more);
  }

  /** What a flush does besides installing its table. */
  lemma FlushFrame(db: DbState, level: nat, size: nat)
    requires LogsOk(db) && db.imm.Some?
    ensures var files := FlushTables(db, size);
            var numbered := db.(nextFile := db.nextFile + 1, tables := db.tables + Numbers(files));
            var edit := AddFilesEdit(level, files).(logNumber := Some(db.logfileNumber));
            var logged, after := LogAndApply(numbered, edit), Flush(db, level, size);
            && edit.deletedFiles == {} && after == logged.(imm := None)
            && after.tables == db.tables + Numbers(files) && numbered.levels == db.levels
            && logged.logNumber == db.logfileNumber < numbered.nextFile
            && numbered.lastSequence == db.lastSequence == after.lastSequence
            && after.snapshots == db.snapshots && Oldest(after) == Oldest(db)
            && LogsOk(after)
  {
    hide MemOf, InstallEdit, FlushTables, Numbers;
  }

  lemma FlushedHistory(db: DbState, after: DbState, flushed: seq<Batch>)
    requires LogsOk(db) && LogsOk(after) && db.imm.Some? && after.imm.None?
    requires after.logs == db.logs && after.logfileNumber == db.logfileNumber
    ensures Committed(after, flushed + db.logs[db.logNumber]) == Committed(db, flushed)
    ensures flushed + db.logs[db.logNumber] + Unflushed(after) == flushed + Unflushed(db)
  {
    hide MemOf, LogsOk;
  }

  lemma StoresParts(levels: Levels, flushed: seq<Batch>, oldest: nat)
    requires Stores(levels, flushed, oldest)
    ensures Tables(levels) <= HistSet(flushed) && SameAnswers(HistSet(flushed), Tables(levels), oldest)
  {
    hide Tables, HistSet, SameAnswers, Lookup;
  }

  /** The manifest invariant looks only at the version, the counters and the manifest itself. */
  lemma ManifestIgnores(a: DbState, b: DbState, flushed: seq<Batch>)
    requires ManifestOk(a, flushed) && a.manifest == b.manifest && a.levels == b.levels && a.logNumber == b.logNumber
    requires a.nextFile <= b.nextFile && a.lastSequence <= b.lastSequence
    ensures ManifestOk(b, flushed)
  {
    hide Lists, HistoryOk, Sinks;
  }

  // ---- Compactions and moves ------------------------------------------------------------------

  /** Installing replacement files at level+1 for the inputs (InstallCompactionResults, or the trivial
      move of BackgroundCompaction). */
  lemma ReplacedFromEdit(db: DbState, edit: VersionEdit, level: nat, in0: Level, in1: Level, outs: Level)
    requires GoodEdit(db, edit, level + 1, outs) && Lists(db.manifest, db.levels)
    requires edit.deletedFiles == CompactionEdit(level, in0, in1, outs).deletedFiles
    requires UniqueNumbers(db.levels) && Split(db.levels, level, in0, in1)
    ensures Replaced(db.levels, InstallEdit(db.levels, edit), level, in0, in1, outs)
  {
    hide GoodEdit, Lists, InstallEdit, UniqueNumbers, Split, InputsAt;
    var after := InstallEdit(db.levels, edit);
    GoodEditMembers(db, edit, level + 1, outs);
    assert |after| == |db.levels|;
    forall l | 0 <= l < |after|
      ensures Updated(db.levels[l], after[l], InputsAt(level, in0, in1, l), OnlyAt(l, level + 1, outs))
    {
      assert SmallestSorted(after[l]);
      assert DeletedAt(edit, l) == DeletedAt(CompactionEdit(level, in0, in1, []), l);
      forall f
        ensures f in after[l] <==>
                (f in db.levels[l] && f !in InputsAt(level, in0, in1, l)) || f in OnlyAt(l, level + 1, outs)
      {
        if f in db.levels[l] {
          DeletedMatches(db.levels, level, in0, in1, l, f);
        }
        assert f in after[l] <==>
          (f in db.levels[l] && f.number !in DeletedAt(edit, l)) || f in OnlyAt(l, level + 1, outs);
      }
    }
  }

  /** LogAndApply of a replacement keeps version and manifest. */
  lemma ReplaceOk(db: DbState, flushed: seq<Batch>, edit: VersionEdit, level: nat, in0: Level, in1: Level, outs: Level)
    requires VersionOk(db.levels) && ManifestOk(db, flushed) && Distinct(Tables(db.levels))
    requires HistoryOk(flushed, db.lastSequence)
    requires Chosen(db.levels, level, in0, in1) && Replacement(db.levels, level, in0, in1, outs)
    requires edit.deletedFiles == CompactionEdit(level, in0, in1, outs).deletedFiles && edit.logNumber == None
    requires GoodEdit(db, Complete(db, edit), level + 1, outs)
    ensures var after := LogAndApply(db, edit);
            VersionOk(after.levels) && ManifestOk(after, flushed) &&
            Replaced(db.levels, after.levels, level, in0, in1, outs)
  {
    var full := Complete(db, edit);
    var after := LogAndApply(db, edit);
    hide *;
    LogAndApplyFrame(db, edit);
    ChosenFiles(db.levels, level, in0, in1);
    ChosenSplit(db.levels, level, in0, in1);
    VersionNumbers(db.levels);
    ManifestParts(db, flushed);
    ReplacedFromEdit(db, full, level, in0, in1, outs);
    ReplacedOk(db.levels, after.levels, level, in0, in1, outs);
    VersionNumbers(after.levels);
    var bound := ManifestTracks(db, flushed);
    LogAndApplyManifest(db, edit, level + 1, outs, bound, flushed);
  }

  lemma ChosenSplit(levels: Levels, level: nat, in0: Level, in1: Level)
    requires level + 1 < |levels|
    requires (forall f :: f in in0 ==> f in levels[level]) && forall f :: f in in1 ==> f in levels[level + 1]
    ensures Split(levels, level, in0, in1)
  {
  }

  lemma ManifestParts(db: DbState, flushed: seq<Batch>)
    requires ManifestOk(db, flushed)
    ensures Lists(db.manifest, db.levels) && db.logNumber < db.nextFile
  {
    hide Lists, Sinks, HistoryOk;
  }

  lemma LogAndApplyFrame(db: DbState, edit: VersionEdit)
    ensures var full, after := Complete(db, edit), LogAndApply(db, edit);
            && full.deletedFiles == edit.deletedFiles && full.newFiles == edit.newFiles
            && after ==
                 db.(levels := InstallEdit(db.levels, full), manifest := db.manifest + [full],
                     logNumber := after.logNumber)
            && after.logNumber == (if edit.logNumber.Some? then edit.logNumber.value else db.logNumber)
  {
    hide InstallEdit;
  }

  /** DoCompactionWork and InstallCompactionResults. */
  function Compact(db: DbState, level: nat, in0: Level, in1: Level, outs: Level): DbState {
    var numbered := db.(nextFile := db.nextFile + |outs|, tables := db.tables + Numbers(outs));
    LogAndApply(numbered, CompactionEdit(level, in0, in1, outs))
  }

  /** The files of one compaction, chosen and rewritten as the code does. */
  ghost predicate Compacts(db: DbState, level: nat, in0: Level, in1: Level, outs: Level) {
    && Chosen(db.levels, level, in0, in1)
    && CompactionOutput(outs, MergeFiles(in0 + in1), db.levels, level, Oldest(db), db.nextFile)
  }

  lemma OutputReplaces(db: DbState, flushed: seq<Batch>, level: nat, in0: Level, in1: Level, outs: Level)
    requires ManifestOk(db, flushed) && Compacts(db, level, in0, in1, outs)
    ensures Replacement(db.levels, level, in0, in1, outs)
  {
    hide Chosen, Dropped, FileOk, Disjoint, MergeFiles, ManifestOk, Lists, Sinks;
    forall e | InFiles(outs, e) ensures InFiles(in0, e) || InFiles(in1, e) {
      MergeFilesMembers(in0 + in1);
      var f :| f in in0 + in1 && e in f.entries;
    }
    var bound := ManifestTracks(db, flushed);
    UnusedNumber(db, bound, db.nextFile);
    forall g | g in outs ensures g.number >= db.nextFile {
    }
  }

  lemma OutputGoodEdit(db: DbState, flushed: seq<Batch>, level: nat, in0: Level, in1: Level, outs: Level)
    requires ManifestOk(db, flushed) && Compacts(db, level, in0, in1, outs)
    ensures var numbered := db.(nextFile := db.nextFile + |outs|, tables := db.tables + Numbers(outs));
            GoodEdit(numbered, Complete(numbered, CompactionEdit(level, in0, in1, outs)), level + 1, outs)
  {
    hide Chosen, Dropped, FileOk, Disjoint, MergeFiles, ManifestOk, Seen, InFiles, Lists, Sinks;
    var bound := ManifestTracks(db, flushed);
    forall f, m | f in outs && 0 <= m < |db.levels|
      ensures f.number !in Seen(db.manifest, m) && f.number < db.nextFile + |outs| {
      UnusedNumber(db, bound, f.number);
    }
  }

  lemma CompactSetting(db: DbState, level: nat, in0: Level, in1: Level, outs: Level)
    requires VersionOk(db.levels) && Distinct(Tables(db.levels)) && Compacts(db, level, in0, in1, outs)
    ensures Setting(db.levels, level, in0, in1, MergeFiles(in0 + in1), Oldest(db), EntriesOf(outs))
  {
    hide VersionOk, Distinct, Chosen, Dropped, FileOk, Disjoint, MergeFiles, Closed;
    ChosenFiles(db.levels, level, in0, in1);
    MergeFilesMembers(in0 + in1);
    assert forall e :: e in EntriesOf(outs) <==> InFiles(outs, e);
    assert forall e :: e in EntriesOf(in0 + in1) <==> InFiles(in0 + in1, e);
  }

  /** A compaction keeps the version's structure, its manifest and its disk files, whatever it drops. */
  lemma CompactStructure(db: DbState, flushed: seq<Batch>, level: nat, in0: Level, in1: Level, outs: Level)
    requires Inv(db, flushed) && Compacts(db, level, in0, in1, outs)
    ensures var after := Compact(db, level, in0, in1, outs);
            && VersionOk(after.levels) && ManifestOk(after, flushed) && OnDisk(after.levels, after.tables)
            && LogsOk(after)
            && Tables(after.levels) == EntriesOf(outs) + Rest(db.levels, level, in0, in1)
            && FilesReplaced(db.levels, after.levels, level, in0, in1, outs)
    ensures Distinct(Tables(db.levels))
  {
    var numbered := db.(nextFile := db.nextFile + |outs|, tables := db.tables + Numbers(outs));
    var edit := CompactionEdit(level, in0, in1, outs);
    var after := Compact(db, level, in0, in1, outs);
    hide *;
    InvParts(db, flushed);
    CompactFrame(db, level, in0, in1, outs);
    TablesDistinct(db, flushed);
    OutputReplaces(db, flushed, level, in0, in1, outs);
    OutputGoodEdit(db, flushed, level, in0, in1, outs);
    ManifestIgnores(db, numbered, flushed);
    ReplaceOk(numbered, flushed, edit, level, in0, in1, outs);
    ReplacedContents(db.levels, after.levels, level, in0, in1, outs);
    ReplacedFiles(db.levels, after.levels, level, in0, in1, outs);
    OnDiskAfterReplace(db.levels, after.levels, level, in0, in1, outs, db.tables);
  }

  lemma CompactFrame(db: DbState, level: nat, in0: Level, in1: Level, outs: Level)
    requires LogsOk(db) && Compacts(db, level, in0, in1, outs)
    ensures var numbered := db.(nextFile := db.nextFile + |outs|, tables := db.tables + Numbers(outs));
            var edit, after := CompactionEdit(level, in0, in1, outs), Compact(db, level, in0, in1, outs);
            && after == LogAndApply(numbered, edit) && edit.logNumber == None
            && after.tables == db.tables + Numbers(outs) && after.lastSequence == db.lastSequence
            && after.snapshots == db.snapshots && Oldest(after) == Oldest(db)
            && LogsOk(after) && Unflushed(after) == Unflushed(db)
            && Chosen(db.levels, level, in0, in1) && level + 1 < |db.levels|
  {
    hide MemOf, InstallEdit, Numbers, Startable, Closed, CompactionOutput;
  }

  lemma TablesDistinct(db: DbState, flushed: seq<Batch>)
    requires LogsOk(db) && Stores(db.levels, flushed, Oldest(db)) && HistoryOk(flushed + Unflushed(db), db.lastSequence)
    ensures Distinct(Tables(db.levels)) && HistoryOk(flushed, db.lastSequence)
  {
    hide HistSet, HistoryOk, Tables, Lookup;
    HistoryOrder(flushed, Unflushed(db), db.lastSequence);
    HistoryFacts(flushed, db.lastSequence);
  }

  lemma OnDiskAfterReplace(levels: Levels, after: Levels, level: nat, in0: Level, in1: Level, outs: Level,
                           tables: set<nat>)
    requires OnDisk(levels, tables) && Replaced(levels, after, level, in0, in1, outs)
    ensures OnDisk(after, tables + Numbers(outs))
  {
    forall l, f | 0 <= l < |after| && f in after[l] ensures f.number in tables + Numbers(outs) {
      assert Updated(levels[l], after[l], InputsAt(level, in0, in1, l), OnlyAt(l, level + 1, outs));
    }
  }

  /** Main result: a compaction keeps every reader's answer from the tables if and only if it exposes
      nothing. */
  lemma CompactionPreservesIff(db: DbState, flushed: seq<Batch>, level: nat, in0: Level, in1: Level, outs: Level)
    requires Inv(db, flushed) && Compacts(db, level, in0, in1, outs)
    ensures level + 1 < |db.levels|
    ensures SameAnswers(Tables(db.levels), Tables(Compact(db, level, in0, in1, outs).levels), Oldest(db)) <==>
            !Exposes(db.levels, level, in0, in1, Oldest(db))
  {
    hide *;
    CompactStructure(db, flushed, level, in0, in1, outs);
    InvParts(db, flushed);
    CompactFrame(db, level, in0, in1, outs);
    CompactSetting(db, level, in0, in1, outs);
    PreservesExactlyUnlessExposing(db.levels, level, in0, in1, MergeFiles(in0 + in1), Oldest(db), EntriesOf(outs));
  }

  lemma StoresTransfer(levels: Levels, after: Levels, flushed: seq<Batch>, oldest: nat)
    requires Stores(levels, flushed, oldest) && SameAnswers(Tables(levels), Tables(after), oldest)
    requires Tables(after) <= Tables(levels)
    ensures Stores(after, flushed, oldest)
  {
    hide HistSet, Tables, Lookup;
  }

  lemma CompactShrinks(db: DbState, level: nat, in0: Level, in1: Level, outs: Level)
    requires Compacts(db, level, in0, in1, outs)
    ensures EntriesOf(outs) + Rest(db.levels, level, in0, in1) <= Tables(db.levels)
  {
    hide Chosen, Dropped, FileOk, Disjoint, MergeFiles, Closed;
    ChosenFiles(db.levels, level, in0, in1);
    TablesSplit(db.levels, level, in0, in1);
    MergeFilesMembers(in0 + in1);
    forall e | e in EntriesOf(outs) ensures e in EntriesOf(in0 + in1) {
      assert InFiles(outs, e);
      var f :| f in in0 + in1 && e in f.entries;
    }
  }

  lemma CompactOk(db: DbState, flushed: seq<Batch>, level: nat, in0: Level, in1: Level, outs: Level)
    requires Inv(db, flushed) && Compacts(db, level, in0, in1, outs) && level + 1 < |db.levels|
    requires !Exposes(db.levels, level, in0, in1, Oldest(db))
    ensures Inv(Compact(db, level, in0, in1, outs), flushed)
    ensures Committed(Compact(db, level, in0, in1, outs), flushed) == Committed(db, flushed)
  {
    var after := Compact(db, level, in0, in1, outs);
    hide *;
    InvParts(db, flushed);
    CompactFrame(db, level, in0, in1, outs);
    CompactStructure(db, flushed, level, in0, in1, outs);
    CompactionPreservesIff(db, flushed, level, in0, in1, outs);
    CompactShrinks(db, level, in0, in1, outs);
    StoresTransfer(db.levels, after.levels, flushed, Oldest(db));
    ToInv(after, flushed);
    SameUnflushed(db, after, flushed);
  }

  lemma SameUnflushed(db: DbState, after: DbState, flushed: seq<Batch>)
    requires LogsOk(db) && LogsOk(after) && Unflushed(db) == Unflushed(after)
    ensures Committed(db, flushed) == Committed(after, flushed)
  {
    hide MemOf;
  }

  /** Trivial move: the single input file sinks one level. */
  function Move(db: DbState, level: nat, f: File): DbState {
    LogAndApply(db, CompactionEdit(level, [f], [], [f]))
  }

  lemma MoveReplaces(db: DbState, level: nat, f: File)
    requires VersionOk(db.levels) && Chosen(db.levels, level, [f], [])
    ensures Replacement(db.levels, level, [f], [], [f])
  {
    hide Startable, Closed, Layered;
    ChosenFiles(db.levels, level, [f], []);
    assert f in [f] && FileOk(f);
    FileBounds(f);
    forall e | InFiles([f], e) ensures InFiles([f], e) || InFiles([], e) {}
    forall l, g, h | 0 <= l < |db.levels| && g in db.levels[l] && !Consumed(level, [f], [], l, g) && h in [f]
      ensures g.number != h.number
    {
      assert h == f && f in db.levels[level];
    }
  }

  lemma MoveGoodEdit(db: DbState, flushed: seq<Batch>, level: nat, f: File)
    requires ManifestOk(db, flushed) && Chosen(db.levels, level, [f], [])
    ensures GoodEdit(db, Complete(db, CompactionEdit(level, [f], [], [f])), level + 1, [f])
  {
    hide Startable, Closed, Lists, Seen, HistoryOk;
    ChosenFiles(db.levels, level, [f], []);
    assert f in [f];
  }

  lemma MoveFrame(db: DbState, level: nat, f: File)
    requires LogsOk(db) && Chosen(db.levels, level, [f], [])
    ensures var edit, after := CompactionEdit(level, [f], [], [f]), Move(db, level, f);
            && after == LogAndApply(db, edit) && edit.logNumber == None
            && after.tables == db.tables && after.lastSequence == db.lastSequence
            && after.snapshots == db.snapshots && Oldest(after) == Oldest(db)
            && LogsOk(after) && Unflushed(after) == Unflushed(db)
            && level + 1 < |db.levels|
  {
    hide MemOf, InstallEdit, Startable, Closed;
  }

  lemma MoveSameTables(db: DbState, level: nat, f: File, after: DbState)
    requires Chosen(db.levels, level, [f], [])
    requires Tables(after.levels) == EntriesOf([f]) + Rest(db.levels, level, [f], [])
    ensures Tables(after.levels) == Tables(db.levels)
  {
    hide Startable, Closed;
    ChosenFiles(db.levels, level, [f], []);
    TablesSplit(db.levels, level, [f], []);
    assert [f] + [] == [f];
  }

  lemma SameTablesStore(levels: Levels, after: Levels, flushed: seq<Batch>, oldest: nat)
    requires Stores(levels, flushed, oldest) && Tables(after) == Tables(levels)
    ensures Stores(after, flushed, oldest)
  {
    hide HistSet, Tables, SameAnswers;
  }

  lemma MoveOnDisk(db: DbState, level: nat, f: File, after: Levels)
    requires OnDisk(db.levels, db.tables) && level < |db.levels| && f in db.levels[level]
    requires Replaced(db.levels, after, level, [f], [], [f])
    ensures OnDisk(after, db.tables)
  {
    OnDiskAfterReplace(db.levels, after, level, [f], [], [f], db.tables);
    assert db.tables + Numbers([f]) == db.tables;
  }

  lemma MoveOk(db: DbState, flushed: seq<Batch>, level: nat, f: File)
    requires Inv(db, flushed) && Chosen(db.levels, level, [f], [])
    ensures Inv(Move(db, level, f), flushed) && Committed(Move(db, level, f), flushed) == Committed(db, flushed)
    ensures FilesReplaced(db.levels, Move(db, level, f).levels, level, [f], [], [f])
  {
    var after := Move(db, level, f);
    hide *;
    InvParts(db, flushed);
    MoveFrame(db, level, f);
    TablesDistinct(db, flushed);
    MoveReplaces(db, level, f);
    MoveGoodEdit(db, flushed, level, f);
    ReplaceOk(db, flushed, CompactionEdit(level, [f], [], [f]), level, [f], [], [f]);
    ReplacedContents(db.levels, after.levels, level, [f], [], [f]);
    ReplacedFiles(db.levels, after.levels, level, [f], [], [f]);
    MoveSameTables(db, level, f, after);
    SameTablesStore(db.levels, after.levels, flushed, Oldest(db));
    ChosenFiles(db.levels, level, [f], []);
    assert f in [f];
    MoveOnDisk(db, level, f, after.levels);
    ToInv(after, flushed);
    SameUnflushed(db, after, flushed);
  }

  // ---- Writes, memtable switches, snapshots ----------------------------------------------------

  function NextBatch(db: DbState, ops: seq<Op>): Batch { Batch(db.lastSequence + 1, ops) }

  /** DBImpl::Write of one batch group: append to the log, insert into the memtable, advance LastSequence. */
  function Write(db: DbState, ops: seq<Op>): DbState
    requires db.logfileNumber in db.logs
  {
    var b := NextBatch(db, ops);
    db.(mem := InsertBatch(db.mem, b),
        logs := db.logs[db.logfileNumber := db.logs[db.logfileNumber] + [b]],
        lastSequence := db.lastSequence + |ops|)
  }

  lemma WriteFrame(db: DbState, ops: seq<Op>)
    requires LogsOk(db)
    ensures var after := Write(db, ops);
            && LogsOk(after) && Unflushed(after) == Unflushed(db) + [NextBatch(db, ops)]
            && after.levels == db.levels && after.tables == db.tables && after.snapshots == db.snapshots
            && after.lastSequence == db.lastSequence + |ops| && after.manifest == db.manifest
            && after.logNumber == db.logNumber && after.nextFile == db.nextFile
            && Oldest(db) <= Oldest(after)
  {
    hide InsertBatch;
    MemOfAppend(db.logs[db.logfileNumber], NextBatch(db, ops));
  }

  lemma LaterReaders(levels: Levels, flushed: seq<Batch>, oldest: nat, later: nat)
    requires Stores(levels, flushed, oldest) && oldest <= later
    ensures Stores(levels, flushed, later)
  {
    hide HistSet, Tables, Lookup;
  }

  lemma SnapshotsLater(snapshots: seq<nat>, last: nat, later: nat)
    requires SnapshotsOk(snapshots, last) && last <= later
    ensures SnapshotsOk(snapshots, later)
  {
  }

  lemma WriteOk(db: DbState, flushed: seq<Batch>, ops: seq<Op>)
    requires Inv(db, flushed) && db.logfileNumber in db.logs && db.lastSequence + |ops| < MAX_SEQUENCE
    ensures Inv(Write(db, ops), flushed) && LogsOk(db)
    ensures Committed(Write(db, ops), flushed) == Committed(db, flushed) + [NextBatch(db, ops)]
  {
    var after := Write(db, ops);
    hide *;
    InvParts(db, flushed);
    WriteFrame(db, ops);
    HistoryExtend(flushed + Unflushed(db), db.lastSequence, NextBatch(db, ops));
    BatchOps(db, ops);
    assert flushed + Unflushed(after) == flushed + Unflushed(db) + [NextBatch(db, ops)];
    LaterReaders(db.levels, flushed, Oldest(db), Oldest(after));
    ManifestIgnores(db, after, flushed);
    SnapshotsLater(db.snapshots, db.lastSequence, after.lastSequence);
    ToInv(after, flushed);
    CommittedIs(db, flushed);
    CommittedIs(after, flushed);
  }

  lemma BatchOps(db: DbState, ops: seq<Op>)
    ensures NextBatch(db, ops).first == db.lastSequence + 1 && NextBatch(db, ops).ops == ops
  {
  }

  lemma CommittedIs(db: DbState, flushed: seq<Batch>)
    requires LogsOk(db)
    ensures db.logfileNumber in db.logs && db.logNumber in db.logs
    ensures Committed(db, flushed) == flushed + Unflushed(db)
  {
    hide MemOf;
  }

  /** MakeRoomForWrite switching to a new log and a new memtable. */
  function Switch(db: DbState): DbState {
    db.(imm := Some(db.mem), mem := [], logs := db.logs[db.nextFile := []],
        logfileNumber := db.nextFile, nextFile := db.nextFile + 1)
  }

  lemma SwitchFrame(db: DbState)
    requires LogsOk(db) && db.imm.None?
    ensures var after := Switch(db);
            && LogsOk(after) && Unflushed(after) == Unflushed(db)
            && after.levels == db.levels && after.tables == db.tables && Oldest(after) == Oldest(db)
  {
  }

  lemma SwitchOk(db: DbState, flushed: seq<Batch>)
    requires Inv(db, flushed) && db.imm.None?
    ensures Inv(Switch(db), flushed) && LogsOk(db)
    ensures Committed(Switch(db), flushed) == Committed(db, flushed)
  {
    var after := Switch(db);
    InvParts(db, flushed);
    hide *;
    SwitchFrame(db);
    SwitchFields(db);
    ManifestIgnores(db, after, flushed);
    ToInv(after, flushed);
    CommittedIs(db, flushed);
    CommittedIs(after, flushed);
  }

  lemma SwitchFields(db: DbState)
    ensures var after := Switch(db);
            && after.manifest == db.manifest && after.logNumber == db.logNumber && after.snapshots == db.snapshots
            && after.nextFile == db.nextFile + 1 && after.lastSequence == db.lastSequence
  {
  }

  function TakeSnapshot(db: DbState): DbState {
    db.(snapshots := db.snapshots + [db.lastSequence])
  }

  function ReleaseSnapshot(db: DbState, i: nat): DbState
    requires i < |db.snapshots|
  {
    db.(snapshots := db.snapshots[..i] + db.snapshots[i + 1..])
  }

  lemma ChangeSnapshots(db: DbState, flushed: seq<Batch>, snapshots: seq<nat>)
    requires Inv(db, flushed) && SnapshotsOk(snapshots, db.lastSequence)
    requires Oldest(db) <= Oldest(db.(snapshots := snapshots))
    ensures Inv(db.(snapshots := snapshots), flushed) && LogsOk(db)
    ensures Committed(db.(snapshots := snapshots), flushed) == Committed(db, flushed)
  {
    var after := db.(snapshots := snapshots);
    hide *;
    InvParts(db, flushed);
    SnapshotFrame(db, snapshots);
    LaterReaders(db.levels, flushed, Oldest(db), Oldest(after));
    ManifestIgnores(db, after, flushed);
    ToInv(after, flushed);
    CommittedIs(db, flushed);
    CommittedIs(after, flushed);
  }

  lemma SnapshotFrame(db: DbState, snapshots: seq<nat>)
    requires LogsOk(db)
    ensures LogsOk(db.(snapshots := snapshots)) && Unflushed(db.(snapshots := snapshots)) == Unflushed(db)
  {
    hide MemOf;
  }

  lemma TakeSnapshotOk(db: DbState, flushed: seq<Batch>)
    requires Inv(db, flushed)
    ensures Inv(TakeSnapshot(db), flushed) && LogsOk(db)
    ensures Committed(TakeSnapshot(db), flushed) == Committed(db, flushed)
  {
    hide Inv, LogsOk, Committed;
    InvParts(db, flushed);
    ChangeSnapshots(db, flushed, db.snapshots + [db.lastSequence]);
  }

  lemma ReleaseSnapshotOk(db: DbState, flushed: seq<Batch>, i: nat)
    requires Inv(db, flushed) && i < |db.snapshots|
    ensures Inv(ReleaseSnapshot(db, i), flushed) && LogsOk(db)
    ensures Committed(ReleaseSnapshot(db, i), flushed) == Committed(db, flushed)
  {
    hide Inv, LogsOk, Committed;
    InvParts(db, flushed);
    ChangeSnapshots(db, flushed, db.snapshots[..i] + db.snapshots[i + 1..]);
  }

  // ---- Which files the levels list afterwards --------------------------------------------------

  /** The files `in0` of the level and `in1` of the next one are replaced by `outs` in the next one. */
  ghost predicate FilesReplaced(before: Levels, after: Levels, level: nat, in0: Level, in1: Level, outs: Level) {
    && |after| == |before|
    && forall l, f :: 0 <= l < |after| ==>
         (f in after[l] <==>
            || (f in before[l] && !(l == level && f in in0) && !(l == level + 1 && f in in1))
            || (l == level + 1 && f in outs))
  }

  /** The files join the level. */
  ghost predicate FilesAdded(before: Levels, after: Levels, level: nat, files: Level) {
    && |after| == |before|
    && forall l, f :: 0 <= l < |after| ==> (f in after[l] <==> f in before[l] || (l == level && f in files))
  }

  lemma ReplacedFiles(before: Levels, after: Levels, level: nat, in0: Level, in1: Level, outs: Level)
    requires Replaced(before, after, level, in0, in1, outs)
    ensures FilesReplaced(before, after, level, in0, in1, outs)
  {
    forall l, f | 0 <= l < |after|
      ensures f in after[l] <==>
                || (f in before[l] && !(l == level && f in in0) && !(l == level + 1 && f in in1))
                || (l == level + 1 && f in outs)
    {
      assert Updated(before[l], after[l], InputsAt(level, in0, in1, l), OnlyAt(l, level + 1, outs));
    }
  }

  lemma AddedFiles(before: Levels, after: Levels, level: nat, files: Level)
    requires AddedAt(before, after, level, files)
    ensures FilesAdded(before, after, level, files)
  {
    forall l, f | 0 <= l < |after| ensures f in after[l] <==> f in before[l] || (l == level && f in files) {
      assert Updated(before[l], after[l], [], OnlyAt(l, level, files));
    }
  }

  // ---- RemoveObsoleteFiles --------------------------------------------------------------------

  /** Numbers of the table files the current version lists. */
  function LiveTables(levels: Levels): set<nat> {
    set l, f | 0 <= l < |levels| && f in levels[l] :: f.number
  }

  /** RemoveObsoleteFiles: keep logs from LogNumber on and the tables of the version. */
  function Collect(db: DbState): DbState {
    db.(logs := map n | n in db.logs && n >= db.logNumber :: db.logs[n],
        tables := db.tables * LiveTables(db.levels))
  }

  /** Of two states, the second lacks exactly the logs below LogNumber and the tables that no level lists. */
  ghost predicate OnlyObsoleteGone(before: DbState, after: DbState) {
    && (forall n :: n in after.logs <==> n in before.logs && n >= before.logNumber)
    && (forall n :: n in after.logs ==> after.logs[n] == before.logs[n])
    && (forall n :: n in after.tables <==>
          n in before.tables && exists l, f :: 0 <= l < |before.levels| && f in before.levels[l] && f.number == n)
    && after == before.(logs := after.logs, tables := after.tables)
  }

  /** Garbage collection deletes no log and no table that is still needed. */
  lemma CollectOk(db: DbState, flushed: seq<Batch>)
    requires Inv(db, flushed)
    ensures Inv(Collect(db), flushed) && LogsOk(db)
    ensures Committed(Collect(db), flushed) == Committed(db, flushed)
  {
    var after := Collect(db);
    InvParts(db, flushed);
    CollectFrame(db);
    hide *;
    ManifestIgnores(db, after, flushed);
    ToInv(after, flushed);
    CommittedIs(db, flushed);
    CommittedIs(after, flushed);
  }

  /** It deletes everything else. */
  lemma CollectedExactly(db: DbState)
    ensures OnlyObsoleteGone(db, Collect(db))
  {
    forall n | n in Collect(db).tables
      ensures exists l, f :: 0 <= l < |db.levels| && f in db.levels[l] && f.number == n {
      var l, f :| 0 <= l < |db.levels| && f in db.levels[l] && f.number == n;
    }
  }

  lemma CollectFrame(db: DbState)
    requires LogsOk(db) && OnDisk(db.levels, db.tables)
    ensures var after := Collect(db);
            && LogsOk(after) && Unflushed(after) == Unflushed(db) && OnDisk(after.levels, after.tables)
            && Oldest(after) == Oldest(db)
  {
    hide MemOf;
  }
}
