/** Crash and recovery (DBImpl::Recover, RecoverLogFile, DB::Open in db/db_impl.cc; VersionSet::Recover
    in db/version_set.cc). */
module Recovery {
  import opened DbFormat
  import opened Visibility
  import opened Version
  import opened VersionEdits
  import opened CompactionSafety
  import opened Install
  import opened History
  import opened State
  import opened Manifest
  import opened Steps

  /** What is left after a crash. */
  datatype Disk = Disk(manifest: seq<VersionEdit>, logs: map<nat, seq<Batch>>, tables: set<nat>)

  /** A crash loses memory and a suffix of the log being written; module LogFormat shows that a log cut at
      any byte reads back as its first `cut` records. */
  function Crash(db: DbState, cut: nat): Disk
    requires db.logfileNumber in db.logs && cut <= |db.logs[db.logfileNumber]|
  {
    Disk(db.manifest, db.logs[db.logfileNumber := db.logs[db.logfileNumber][..cut]], db.tables)
  }

  /** The batches recovery finds in the logs: the whole older log, if any, and the cut current one. */
  function Survivors(db: DbState, cut: nat): seq<Batch>
    requires db.logfileNumber in db.logs && db.logNumber in db.logs && cut <= |db.logs[db.logfileNumber]|
  {
    (if db.imm.Some? then db.logs[db.logNumber] else []) + db.logs[db.logfileNumber][..cut]
  }

  // ---- The snapshot record --------------------------------------------------------------------

  function SnapshotFiles(levels: Levels, n: nat): seq<(nat, File)>
    requires n <= |levels|
  {
    if n == 0 then [] else SnapshotFiles(levels, n - 1) + FilesAt(n - 1, levels[n - 1])
  }

  /** VersionSet::WriteSnapshot: one record that lists every file of the version. */
  function SnapshotEdit(levels: Levels): VersionEdit {
    VersionEdit({}, SnapshotFiles(levels, |levels|), None, None, None)
  }

  lemma {:induction false} SnapshotAdds(levels: Levels, n: nat)
    requires n <= |levels|
    ensures forall l: nat, f :: AddsAt(SnapshotFiles(levels, n), l, f) <==> l < n && f in levels[l]
  {
    if n > 0 {
      SnapshotAdds(levels, n - 1);
      forall l: nat, f ensures AddsAt(SnapshotFiles(levels, n), l, f) <==> l < n && f in levels[l] {
        FilesAtAdds(n - 1, levels[n - 1], l);
        assert AddsAt(SnapshotFiles(levels, n), l, f) <==>
               AddsAt(SnapshotFiles(levels, n - 1), l, f) || AddsAt(FilesAt(n - 1, levels[n - 1]), l, f);
      }
    }
  }

  /** No file is listed twice. */
  ghost predicate NoRepeats(newFiles: seq<(nat, File)>) {
    forall i, j :: 0 <= i < j < |newFiles| && newFiles[i].0 == newFiles[j].0 ==>
      newFiles[i].1.number != newFiles[j].1.number
  }

  lemma {:induction false} SnapshotNoRepeats(levels: Levels, n: nat)
    requires n <= |levels| && forall l :: 0 <= l < |levels| ==> DistinctNumbers(levels[l])
    ensures NoRepeats(SnapshotFiles(levels, n))
  {
    if n > 0 {
      SnapshotNoRepeats(levels, n - 1);
      SnapshotAdds(levels, n - 1);
      var a: seq<(nat, File)> := SnapshotFiles(levels, n - 1);
      var b: seq<(nat, File)> := FilesAt(n - 1, levels[n - 1]);
      forall i: nat, j: nat | i < j < |a + b| && (a + b)[i].0 == (a + b)[j].0
        ensures (a + b)[i].1.number != (a + b)[j].1.number
      {
        assert i < |a| ==> AddsAt(a, a[i].0, a[i].1) && a[i].0 < n - 1;
      }
    }
  }

  lemma VersionDistinct(levels: Levels)
    requires VersionOk(levels)
    ensures forall l :: 0 <= l < |levels| ==> DistinctNumbers(levels[l])
  {
    hide VersionOk;
    VersionNumbers(levels);
    forall l | 0 <= l < |levels| ensures DistinctNumbers(levels[l]) {
      VersionLevel(levels, l);
      forall i, j | 0 <= i < j < |levels[l]| ensures levels[l][i].number != levels[l][j].number {
        assert BySmallest(levels[l][i], levels[l][j]);
        assert levels[l][i] in levels[l] && levels[l][j] in levels[l];
      }
    }
  }

  lemma AddedNumbersOf(newFiles: seq<(nat, File)>, l: nat, fs: Level)
    requires forall f :: AddsAt(newFiles, l, f) <==> f in fs
    ensures AddedNumbers(newFiles, l) == Numbers(fs)
  {
    forall n | n in AddedNumbers(newFiles, l) ensures n in Numbers(fs) {
      var p :| p in newFiles && p.0 == l && p.1.number == n;
      assert AddsAt(newFiles, l, p.1);
    }
    forall n | n in Numbers(fs) ensures n in AddedNumbers(newFiles, l) {
      var f :| f in fs && f.number == n;
      assert AddsAt(newFiles, l, f);
      assert (l, f) in newFiles;
    }
  }

  lemma SnapshotLevel(levels: Levels, l: nat)
    requires VersionOk(levels) && l < |levels|
    ensures var snap := SnapshotEdit(levels);
            FreshAdds(snap.newFiles, l, {}) && Seen([snap], l) == Numbers(levels[l])
              && InstallLevel([], snap, l) == levels[l]
  {
    var snap := SnapshotEdit(levels);
    hide VersionOk, SnapshotFiles, InstallLevel;
    VersionDistinct(levels);
    VersionLevel(levels, l);
    SnapshotAdds(levels, |levels|);
    SnapshotNoRepeats(levels, |levels|);
    assert FreshAdds(snap.newFiles, l, {});
    assert Numbers([]) == {};
    InstallLevelEffect([], snap, l);
    SortedListsAgree(InstallLevel([], snap, l), levels[l]);
    assert [] + [snap] == [snap];
    assert Seen([], l) == {};
    SeenStep([], snap, l);
    AddedNumbersOf(snap.newFiles, l, levels[l]);
  }

  /** A fresh manifest that starts with the snapshot record lists the version. */
  lemma SnapshotTracks(db: DbState, bound: nat)
    requires VersionOk(db.levels) && db.manifest == [SnapshotEdit(db.levels)] && bound <= db.nextFile
    requires forall l, f :: 0 <= l < |db.levels| && f in db.levels[l] ==> f.number < bound
    ensures Tracks(db, bound)
  {
    var levels, snap := db.levels, SnapshotEdit(db.levels);
    hide VersionOk, SnapshotEdit, Seen, InstallLevel, FreshAdds;
    assert [snap][..0] == [];
    forall l | 0 <= l < |levels| ensures NeverReadded([], [snap], l) && levels[l] == InstallAll([], [snap], l) {
      SnapshotLevel(levels, l);
      EmptyManifest(l);
    }
    VersionNumbers(levels);
    forall l, m, f: File | 0 <= l < m < |levels| && f in levels[l] ensures f.number !in Seen([snap], m) {
      SnapshotLevel(levels, m);
    }
    forall l, n | 0 <= l < |levels| && n in Seen([snap], l) ensures n < bound {
      SnapshotLevel(levels, l);
    }
  }

  lemma EmptyManifest(l: nat)
    ensures Numbers([]) + Numbers(Accumulate([], l).added) == {}
  {
  }

  // ---- Reopening ------------------------------------------------------------------------------

  /** Recovered tables: they hold exactly the surviving batches, oldest first, with fresh rising numbers. */
  ghost predicate HoldSurvivors(files: Level, bs: seq<Batch>, first: nat, next: nat) {
    && FilesOk(files) && EntriesOf(files) == HistSet(bs)
    && (forall f :: f in files ==> first <= f.number < next)
    && (forall i, j :: 0 <= i < j < |files| ==>
          files[i].number < files[j].number && Newer(files[j].entries, files[i].entries))
  }

  /** The database as recovery sees it just before it logs its first edit. */
  function Replayed(disk: Disk, levels: Levels, lastSequence: nat, files: Level, next: nat, newLog: nat): DbState {
    DbState([], None, levels, [SnapshotEdit(levels)], lastSequence, next, newLog, newLog, [],
            disk.logs[newLog := []], disk.tables + Numbers(files))
  }

  /** DB::Open: the recovered tables go to level 0 in one edit that also makes all old logs obsolete. */
  function Reopened(disk: Disk, levels: Levels, lastSequence: nat, files: Level, next: nat, newLog: nat): DbState {
    LogAndApply(Replayed(disk, levels, lastSequence, files, next, newLog),
                AddFilesEdit(0, files).(logNumber := Some(newLog)))
  }

  function Max(a: nat, b: nat): nat { if a < b then b else a }

  /** The counters the manifest hands to recovery. */
  function LastRecord(disk: Disk): VersionEdit
    requires disk.manifest != []
  {
    disk.manifest[|disk.manifest| - 1]
  }

  lemma StoresSaturates(levels: Levels, flushed: seq<Batch>, recorded: nat, oldest: nat, from: nat)
    requires Stores(levels, flushed, oldest) && HistoryOk(flushed, recorded) && recorded <= from
    ensures Stores(levels, flushed, from)
  {
    var h, t := HistSet(flushed), Tables(levels);
    hide HistSet, HistoryOk, Tables, Lookup;
    HistoryFacts(flushed, recorded);
    forall k, s | from <= s ensures Lookup(h, k, s) == Lookup(t, k, s) {
      var u := Max(s, oldest);
      LookupSaturates(h, k, s, u);
      LookupSaturates(t, k, s, u);
    }
  }

  /** Survivors are a prefix of what was committed. */
  lemma SurvivorsArePrefix(db: DbState, flushed: seq<Batch>, cut: nat)
    requires LogsOk(db) && cut <= |db.logs[db.logfileNumber]|
    ensures var kept := flushed + Survivors(db, cut);
            |kept| <= |Committed(db, flushed)| && kept == Committed(db, flushed)[..|kept|]
    ensures var lost := db.logs[db.logfileNumber][cut..];
            Committed(db, flushed) == flushed + Survivors(db, cut) + lost
  {
    hide MemOf;
    var log := db.logs[db.logfileNumber];
    assert log == log[..cut] + log[cut..];
  }

  lemma SurvivorHistory(db: DbState, flushed: seq<Batch>, cut: nat, recorded: nat)
    requires LogsOk(db) && HistoryOk(flushed + Unflushed(db), db.lastSequence) && cut <= |db.logs[db.logfileNumber]|
    requires HistoryOk(flushed, recorded) && recorded <= db.lastSequence
    ensures var bs := Survivors(db, cut);
            var last := Max(recorded, MaxSequence(bs));
            HistoryOk(flushed + bs, last) && last <= db.lastSequence && HistoryOk(flushed + bs, db.lastSequence)
  {
    hide HistoryOk, MemOf, MaxSequence;
    var bs := Survivors(db, cut);
    var lost := db.logs[db.logfileNumber][cut..];
    SurvivorsArePrefix(db, flushed, cut);
    CommittedIs(db, flushed);
    HistoryOrder(flushed + bs, lost, db.lastSequence);
    HistoryOrder(flushed, bs, db.lastSequence);
    MaxSequenceBounds(bs, db.lastSequence);
    var last := Max(recorded, MaxSequence(bs));
    HistoryRaise(flushed, recorded, last);
    HistoryRaise(bs, MaxSequence(bs), last);
    HistoryJoin(flushed, bs, db.lastSequence, last);
  }

  lemma RecoveredTablesFresh(levels: Levels, flushed: seq<Batch>, bs: seq<Batch>, last: nat, files: Level, first: nat,
                             next: nat)
    requires HoldSurvivors(files, bs, first, next) && HistoryOk(flushed + bs, last)
    requires Tables(levels) <= HistSet(flushed)
    requires forall l, f :: 0 <= l < |levels| && f in levels[l] ==> f.number < first
    ensures FreshTables(levels, files)
  {
    hide HistSet, HistoryOk, FileOk, Newer;
    forall l, f, g | 0 <= l < |levels| && f in levels[l] && g in files ensures Newer(g.entries, f.entries) {
      assert forall e :: e in g.entries ==> e in EntriesOf(files);
      LaterIsNewer(levels, flushed, bs, last, g.entries, l, f);
    }
  }

  lemma RecoveredGoodEdit(db: DbState, bound: nat, bs: seq<Batch>, files: Level, newLog: nat)
    requires Tracks(db, bound) && HoldSurvivors(files, bs, bound, db.nextFile)
    ensures GoodEdit(db, Complete(db, AddFilesEdit(0, files).(logNumber := Some(newLog))), 0, files)
  {
    hide Lists, Seen, HistSet, FileOk, Newer, EntriesOf, Tracks;
    forall f, m | f in files && 0 <= m < |db.levels| ensures f.number !in Seen(db.manifest, m) {
      UnusedNumber(db, bound, f.number);
    }
  }

  /** The numbers recovery allocates: above everything recorded, and above every log it read. */
  ghost predicate Allocated(db: DbState, first: nat, next: nat, newLog: nat) {
    first <= newLog < next && db.logNumber < newLog && db.logfileNumber < newLog
  }

  lemma ReopenFrame(db: DbState, cut: nat, lastSequence: nat, files: Level, next: nat, newLog: nat, first: nat)
    requires LogsOk(db) && cut <= |db.logs[db.logfileNumber]| && Allocated(db, first, next, newLog)
    ensures var disk := Crash(db, cut);
            var before := Replayed(disk, db.levels, lastSequence, files, next, newLog);
            var edit := AddFilesEdit(0, files).(logNumber := Some(newLog));
            var after := Reopened(disk, db.levels, lastSequence, files, next, newLog);
            && after == LogAndApply(before, edit) && edit.deletedFiles == {}
            && before.manifest == [SnapshotEdit(db.levels)]
            && before.levels == db.levels && before.nextFile == next && before.lastSequence == lastSequence
            && after.logNumber == newLog && after.lastSequence == lastSequence && Oldest(after) == lastSequence
            && after.tables == db.tables + Numbers(files) && after.snapshots == []
            && LogsOk(after) && Unflushed(after) == []
  {
    hide InstallEdit, SnapshotEdit, Numbers;
  }

  /** Recovery restores the invariant: the database then stores exactly the surviving prefix of what was
      committed, and its sequence counter is at or above every surviving entry. */
  lemma ReopenOk(db: DbState, flushed: seq<Batch>, cut: nat, files: Level, next: nat, newLog: nat)
    requires Inv(db, flushed) && db.logfileNumber in db.logs && db.logNumber in db.logs
    requires cut <= |db.logs[db.logfileNumber]|
    requires db.manifest != [] && LastRecord(Crash(db, cut)).nextFile.Some?
    requires LastRecord(Crash(db, cut)).lastSequence.Some?
    requires HoldSurvivors(files, Survivors(db, cut), LastRecord(Crash(db, cut)).nextFile.value, next)
    requires Allocated(db, LastRecord(Crash(db, cut)).nextFile.value, next, newLog)
    ensures var last := Max(LastRecord(Crash(db, cut)).lastSequence.value, MaxSequence(Survivors(db, cut)));
            var after := Reopened(Crash(db, cut), db.levels, last, files, next, newLog);
            Inv(after, flushed + Survivors(db, cut))
              && Committed(after, flushed + Survivors(db, cut)) == flushed + Survivors(db, cut)
              && FilesAdded(db.levels, after.levels, 0, files)
  {
    hide *;
    CrashManifest(db, cut);
    var disk, bs, rec := Crash(db, cut), Survivors(db, cut), LastRecord(Crash(db, cut));
    var first, last := rec.nextFile.value, Max(rec.lastSequence.value, MaxSequence(bs));
    var after := Reopened(disk, db.levels, last, files, next, newLog);
    InvParts(db, flushed);
    ReopenFrame(db, cut, last, files, next, newLog, first);
    ReopenInstalls(db, flushed, cut, files, next, newLog);
    OnDiskAfterAdd(db.levels, after.levels, 0, files, db.tables);
    AddedFiles(db.levels, after.levels, 0, files);
    assert flushed + bs + [] == flushed + bs;
    NoSnapshots(last);
    ToInv(after, flushed + bs);
    CommittedIs(after, flushed + bs);
  }

  lemma CrashManifest(db: DbState, cut: nat)
    requires db.logfileNumber in db.logs && cut <= |db.logs[db.logfileNumber]|
    ensures Crash(db, cut).manifest == db.manifest
  {
  }

  lemma ReopenHistory(db: DbState, flushed: seq<Batch>, cut: nat)
    requires Inv(db, flushed) && db.logfileNumber in db.logs && db.logNumber in db.logs
    requires cut <= |db.logs[db.logfileNumber]|
    ensures db.manifest != [] && LastRecord(Crash(db, cut)).lastSequence.Some?
    ensures var rec, bs := LastRecord(Crash(db, cut)), Survivors(db, cut);
            var last := Max(rec.lastSequence.value, MaxSequence(bs));
            && HistoryOk(flushed + bs, last) && last < MAX_SEQUENCE && Stores(db.levels, flushed, last)
            && Tables(db.levels) <= HistSet(flushed)
  {
    hide *;
    InvParts(db, flushed);
    RecordParts(db, flushed, cut);
    CrashManifest(db, cut);
    var rec, bs := LastRecord(Crash(db, cut)), Survivors(db, cut);
    StoresParts(db.levels, flushed, Oldest(db));
    SurvivorHistory(db, flushed, cut, rec.lastSequence.value);
    MaxAbove(rec.lastSequence.value, MaxSequence(bs));
    StoresSaturates(db.levels, flushed, rec.lastSequence.value, Oldest(db),
                    Max(rec.lastSequence.value, MaxSequence(bs)));
  }

  lemma ReopenInstalls(db: DbState, flushed: seq<Batch>, cut: nat, files: Level, next: nat, newLog: nat)
    requires Inv(db, flushed) && db.logfileNumber in db.logs && db.logNumber in db.logs
    requires cut <= |db.logs[db.logfileNumber]|
    requires db.manifest != [] && LastRecord(Crash(db, cut)).nextFile.Some?
    requires LastRecord(Crash(db, cut)).lastSequence.Some?
    requires HoldSurvivors(files, Survivors(db, cut), LastRecord(Crash(db, cut)).nextFile.value, next)
    requires Allocated(db, LastRecord(Crash(db, cut)).nextFile.value, next, newLog)
    ensures var last := Max(LastRecord(Crash(db, cut)).lastSequence.value, MaxSequence(Survivors(db, cut)));
            var after := Reopened(Crash(db, cut), db.levels, last, files, next, newLog);
            var all := flushed + Survivors(db, cut);
            && VersionOk(after.levels) && Stores(after.levels, all, last) && ManifestOk(after, all)
            && AddedAt(db.levels, after.levels, 0, files) && HistoryOk(all, last) && last < MAX_SEQUENCE
  {
    var disk, bs, rec := Crash(db, cut), Survivors(db, cut), LastRecord(Crash(db, cut));
    var first, last := rec.nextFile.value, Max(rec.lastSequence.value, MaxSequence(bs));
    var before := Replayed(disk, db.levels, last, files, next, newLog);
    var edit := AddFilesEdit(0, files).(logNumber := Some(newLog));
    hide *;
    InvParts(db, flushed);
    ReopenHistory(db, flushed, cut);
    RecordParts(db, flushed, cut);
    ReopenFrame(db, cut, last, files, next, newLog, first);
    RecoveredTablesFresh(db.levels, flushed, bs, last, files, first, next);
    AllocatedParts(db, first, next, newLog);
    SnapshotTracks(before, first);
    RecoveredGoodEdit(before, first, bs, files, newLog);
    SurvivorsHeld(files, bs, first, next);
    LevelZeroFree(db.levels, files);
    AddTablesOk(before, first, flushed, bs, 0, files, edit, last);
  }

  lemma NoSnapshots(last: nat)
    ensures SnapshotsOk([], last)
  {
  }

  lemma LevelZeroFree(levels: Levels, files: Level)
    requires VersionOk(levels)
    ensures MayPlace(levels, 0, files)
  {
    hide VersionOk;
    VersionLayered(levels);
  }

  lemma SurvivorsHeld(files: Level, bs: seq<Batch>, first: nat, next: nat)
    requires HoldSurvivors(files, bs, first, next)
    ensures EntriesOf(files) == HistSet(bs)
  {
    hide HistSet, EntriesOf;
  }

  lemma MaxAbove(a: nat, b: nat)
    ensures a <= Max(a, b) && b <= Max(a, b)
  {
  }

  lemma AllocatedParts(db: DbState, first: nat, next: nat, newLog: nat)
    requires Allocated(db, first, next, newLog)
    ensures first <= newLog < next
  {
  }

  lemma RecordParts(db: DbState, flushed: seq<Batch>, cut: nat)
    requires ManifestOk(db, flushed) && db.logfileNumber in db.logs && cut <= |db.logs[db.logfileNumber]|
    ensures var rec := LastRecord(Crash(db, cut));
            && db.manifest != [] && rec.nextFile.Some? && rec.lastSequence.Some? && rec.logNumber == Some(db.logNumber)
            && rec.lastSequence.value <= db.lastSequence && HistoryOk(flushed, rec.lastSequence.value)
            && db.logNumber < rec.nextFile.value <= db.nextFile
            && forall l, f :: 0 <= l < |db.levels| && f in db.levels[l] ==> f.number < rec.nextFile.value
  {
    hide Lists, HistoryOk, Seen;
  }
}
