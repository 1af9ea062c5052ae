/** The state of an open database together with its files, its invariant, and what a reader sees
    (db/db_impl.cc, VersionSet in db/version_set.cc). */
module State {
  import opened DbFormat
  import opened Visibility
  import opened Version
  import opened VersionEdits
  import opened CompactionSafety
  import opened History

  datatype DbState = DbState(
    mem: seq<Entry>,
    imm: Option<seq<Entry>>,
    levels: Levels,
    manifest: seq<VersionEdit>,   // records of the current descriptor log
    lastSequence: nat,
    nextFile: nat,
    logNumber: nat,               // versions_->LogNumber()
    logfileNumber: nat,           // number of the log being written
    snapshots: seq<nat>,          // live snapshots, oldest first
    logs: map<nat, seq<Batch>>,   // log files on disk
    tables: set<nat>)             // table files on disk

  /** Batches whose entries are in no table yet: those of the immutable and of the active memtable. */
  function Unflushed(db: DbState): seq<Batch>
    requires db.logfileNumber in db.logs && db.logNumber in db.logs
  {
    (if db.imm.Some? then db.logs[db.logNumber] else []) + db.logs[db.logfileNumber]
  }

  ghost predicate LogsOk(db: DbState) {
    && db.logfileNumber in db.logs && db.logNumber in db.logs
    && 0 < db.logNumber <= db.logfileNumber < db.nextFile
    && (db.imm.None? <==> db.logNumber == db.logfileNumber)
    && (forall n :: n in db.logs ==> n < db.nextFile)
    && (forall n :: n in db.logs && n >= db.logNumber ==> n == db.logNumber || n == db.logfileNumber)
    && db.mem == MemOf(db.logs[db.logfileNumber])
    && (db.imm.Some? ==> db.imm.value == MemOf(db.logs[db.logNumber]))
  }

  /** The oldest sequence number some reader may still ask for. */
  function Oldest(db: DbState): nat {
    if db.snapshots == [] then db.lastSequence else db.snapshots[0]
  }

  predicate SnapshotsOk(snapshots: seq<nat>, last: nat) {
    && (forall i :: 0 <= i < |snapshots| ==> snapshots[i] <= last)
    && (forall i, j :: 0 <= i < j < |snapshots| ==> snapshots[i] <= snapshots[j])
  }

  /** The tables show every reader at or above `oldest` exactly what the flushed batches say. */
  ghost predicate Stores(levels: Levels, flushed: seq<Batch>, oldest: nat) {
    Tables(levels) <= HistSet(flushed) && SameAnswers(HistSet(flushed), Tables(levels), oldest)
  }

  // ---- Manifest -------------------------------------------------------------------------------

  /** File numbers the manifest ever listed at a level. */
  ghost function Seen(manifest: seq<VersionEdit>, level: nat): set<nat> {
    Numbers(Accumulate(manifest, level).added)
  }

  /** Replaying the manifest gives the current lists of files. */
  ghost predicate Lists(manifest: seq<VersionEdit>, levels: Levels) {
    forall l :: 0 <= l < |levels| ==> NeverReadded([], manifest, l) && levels[l] == InstallAll([], manifest, l)
  }

  /** Files only ever move to deeper levels, and every number handed to a file is below `bound`. */
  ghost predicate Sinks(manifest: seq<VersionEdit>, levels: Levels, bound: nat) {
    && (forall l, m, f :: 0 <= l < m < |levels| && f in levels[l] ==> f.number !in Seen(manifest, m))
    && (forall l, n :: 0 <= l < |levels| && n in Seen(manifest, l) ==> n < bound)
    && (forall l, f :: 0 <= l < |levels| && f in levels[l] ==> f.number < bound)
  }

  /** The newest manifest record carries the counters recovery will start from. */
  ghost predicate Counters(edit: VersionEdit, db: DbState, flushed: seq<Batch>) {
    && edit.logNumber == Some(db.logNumber)
    && edit.nextFile.Some? && db.logNumber < edit.nextFile.value <= db.nextFile
    && edit.lastSequence.Some? && edit.lastSequence.value <= db.lastSequence
    && HistoryOk(flushed, edit.lastSequence.value)
    && Sinks(db.manifest, db.levels, edit.nextFile.value)
  }

  ghost predicate ManifestOk(db: DbState, flushed: seq<Batch>) {
    && db.manifest != []
    && Lists(db.manifest, db.levels)
    && Counters(db.manifest[|db.manifest| - 1], db, flushed)
  }

  ghost predicate OnDisk(levels: Levels, tables: set<nat>) {
    forall l, f :: 0 <= l < |levels| && f in levels[l] ==> f.number in tables
  }

  /** The invariant of every reachable state. `flushed` are the batches already in tables. */
  ghost predicate Inv(db: DbState, flushed: seq<Batch>) {
    && VersionOk(db.levels)
    && LogsOk(db)
    && HistoryOk(flushed + Unflushed(db), db.lastSequence) && db.lastSequence < MAX_SEQUENCE
    && Stores(db.levels, flushed, Oldest(db))
    && SnapshotsOk(db.snapshots, db.lastSequence)
    && ManifestOk(db, flushed)
    && OnDisk(db.levels, db.tables)
  }

  // ---- What a reader sees ---------------------------------------------------------------------

  /** Everything DBImpl::Get searches. */
  ghost function Contents(db: DbState): set<Entry> {
    Elements(db.mem) + (if db.imm.Some? then Elements(db.imm.value) else {}) + Tables(db.levels)
  }

  /** All batches that were committed and not lost in a crash. */
  function Committed(db: DbState, flushed: seq<Batch>): seq<Batch>
    requires db.logfileNumber in db.logs && db.logNumber in db.logs
  {
    flushed + Unflushed(db)
  }

  lemma InvParts(db: DbState, flushed: seq<Batch>)
    requires Inv(db, flushed)
    ensures VersionOk(db.levels) && LogsOk(db) && Stores(db.levels, flushed, Oldest(db))
    ensures HistoryOk(flushed + Unflushed(db), db.lastSequence) && db.lastSequence < MAX_SEQUENCE
    ensures SnapshotsOk(db.snapshots, db.lastSequence) && ManifestOk(db, flushed) && OnDisk(db.levels, db.tables)
  {
    hide VersionOk, LogsOk, Stores, HistoryOk, SnapshotsOk, ManifestOk, OnDisk;
  }

  lemma ToInv(db: DbState, flushed: seq<Batch>)
    requires VersionOk(db.levels) && LogsOk(db) && Stores(db.levels, flushed, Oldest(db))
    requires HistoryOk(flushed + Unflushed(db), db.lastSequence) && db.lastSequence < MAX_SEQUENCE
    requires SnapshotsOk(db.snapshots, db.lastSequence) && ManifestOk(db, flushed) && OnDisk(db.levels, db.tables)
    ensures Inv(db, flushed)
  {
    hide VersionOk, Stores, HistoryOk, SnapshotsOk, ManifestOk, OnDisk;
  }

  /** The memtables hold exactly the unflushed batches. */
  lemma MemtablesHoldUnflushed(db: DbState, last: nat)
    requires LogsOk(db) && HistoryOk(Unflushed(db), last)
    ensures Elements(db.mem) + (if db.imm.Some? then Elements(db.imm.value) else {}) == HistSet(Unflushed(db))
    ensures Sorted(db.mem) && (db.imm.Some? ==> Sorted(db.imm.value))
  {
    hide HistSet, MemOf, Sorted, Elements, HistoryOk;
    var a := if db.imm.Some? then db.logs[db.logNumber] else [];
    var b := db.logs[db.logfileNumber];
    HistoryOrder(a, b, last);
    HistSetAppend(a, b);
    MemOfEffect(a, last);
    MemOfEffect(b, last);
    NoBatches();
  }

  lemma NoBatches()
    ensures HistSet([]) == {}
  {
  }

  /** Readers of the whole database see the committed history. */
  lemma ReadsSeeHistory(db: DbState, flushed: seq<Batch>, k: UserKey, s: nat)
    requires Inv(db, flushed) && Oldest(db) <= s
    ensures Lookup(Contents(db), k, s) == Lookup(HistSet(Committed(db, flushed)), k, s)
  {
    hide *;
    InvParts(db, flushed);
    ReadsSeeHistoryFrom(db, flushed, k, s);
  }

  lemma ReadsSeeHistoryFrom(db: DbState, flushed: seq<Batch>, k: UserKey, s: nat)
    requires LogsOk(db) && Stores(db.levels, flushed, Oldest(db)) && Oldest(db) <= s
    requires HistoryOk(flushed + Unflushed(db), db.lastSequence)
    ensures Lookup(Contents(db), k, s) == Lookup(HistSet(Committed(db, flushed)), k, s)
  {
    hide HistSet, HistoryOk, MemOf, Tables, Elements, Lookup;
    var top := HistSet(Unflushed(db));
    var last := db.lastSequence;
    HistoryOrder(flushed, Unflushed(db), last);
    MemtablesHoldUnflushed(db, last);
    HistSetAppend(flushed, Unflushed(db));
    HistoryFacts(flushed + Unflushed(db), last);
    assert HistSet(flushed) + top == top + HistSet(flushed);
    assert Distinct(top + Tables(db.levels));
    LookupLayers(top, HistSet(flushed), Tables(db.levels), k, s);
  }
}
