/** Whole runs: any sequence of writes, memtable switches, flushes, compactions, trivial moves, snapshots,
    garbage collections and crashes. */
module Runs {
  import opened DbFormat
  import opened Visibility
  import opened Version
  import opened VersionEdits
  import opened CompactionWork
  import opened Install
  import opened Picking
  import opened CompactionSafety
  import opened History
  import opened Answers
  import opened State
  import opened Manifest
  import opened Steps
  import opened Recovery

  /** A database and, for the proof, the batches that are already in its tables. */
  datatype World = World(db: DbState, flushed: seq<Batch>)

  datatype Event =
    | DoWrite(ops: seq<Op>)
    | DoSwitch
    | DoFlush(level: nat, size: nat)
    | DoCompact(level: nat, in0: Level, in1: Level, outs: Level)
    | DoMove(level: nat, file: File)
    | DoTakeSnapshot
    | DoReleaseSnapshot(index: nat)
    | DoCollect
    | DoCrash(cut: nat, files: Level, next: nat, newLog: nat)

  const EMPTY_LEVELS: Levels := [[], [], [], [], [], [], []]

  /** The database just before DB::Open logs its first edit: NewDB has written an empty manifest with NextFile 2, and
      DB::Open has allocated log 3. */
  function Blank(): DbState {
    DbState([], None, EMPTY_LEVELS, [SnapshotEdit(EMPTY_LEVELS)], 0, 4, 3, 3, [], map[3 := []], {})
  }

  function FirstEdit(): VersionEdit { AddFilesEdit(0, []).(logNumber := Some(3)) }

  /** A new database. */
  function Created(): World { World(LogAndApply(Blank(), FirstEdit()), []) }

  /** What recovery may do after a crash that keeps `cut` records of the current log. */
  ghost predicate CanReopen(db: DbState, cut: nat, files: Level, next: nat, newLog: nat) {
    && db.logfileNumber in db.logs && db.logNumber in db.logs && cut <= |db.logs[db.logfileNumber]|
    && db.manifest != []
    && var rec := LastRecord(Crash(db, cut));
       && rec.nextFile.Some? && rec.lastSequence.Some?
       && HoldSurvivors(files, Survivors(db, cut), rec.nextFile.value, next)
       && Allocated(db, rec.nextFile.value, next, newLog)
  }

  /** Which events the code can perform in a state. */
  ghost predicate Enabled(w: World, ev: Event) {
    var db := w.db;
    match ev
    case DoWrite(ops) => db.logfileNumber in db.logs && db.lastSequence + |ops| < MAX_SEQUENCE
    case DoSwitch => db.imm.None?
    case DoFlush(level, size) =>
      db.imm.Some? && db.logNumber in db.logs && MayPlace(db.levels, level, FlushTables(db, size))
    case DoCompact(level, in0, in1, outs) => level + 1 < |db.levels| && Compacts(db, level, in0, in1, outs)
    case DoMove(level, f) => Chosen(db.levels, level, [f], [])
    case DoTakeSnapshot => true
    case DoReleaseSnapshot(i) => i < |db.snapshots|
    case DoCollect => true
    case DoCrash(cut, files, next, newLog) => CanReopen(db, cut, files, next, newLog)
  }

  /** A compaction that exposes an old value: the one event the code performs wrongly. */
  ghost predicate Exposing(w: World, ev: Event) {
    ev.DoCompact? && ev.level + 1 < |w.db.levels| && Exposes(w.db.levels, ev.level, ev.in0, ev.in1, Oldest(w.db))
  }

  ghost function After(w: World, ev: Event): World
    requires Enabled(w, ev)
  {
    var db := w.db;
    match ev
    case DoWrite(ops) => World(Write(db, ops), w.flushed)
    case DoSwitch => World(Switch(db), w.flushed)
    case DoFlush(level, size) => World(Flush(db, level, size), w.flushed + db.logs[db.logNumber])
    case DoCompact(level, in0, in1, outs) => World(Compact(db, level, in0, in1, outs), w.flushed)
    case DoMove(level, f) => World(Move(db, level, f), w.flushed)
    case DoTakeSnapshot => World(TakeSnapshot(db), w.flushed)
    case DoReleaseSnapshot(i) => World(ReleaseSnapshot(db, i), w.flushed)
    case DoCollect => World(Collect(db), w.flushed)
    case DoCrash(cut, files, next, newLog) =>
      var bs := Survivors(db, cut);
      var last := Max(LastRecord(Crash(db, cut)).lastSequence.value, MaxSequence(bs));
      World(Reopened(Crash(db, cut), db.levels, last, files, next, newLog), w.flushed + bs)
  }

  /** The event takes `w` to `after`. */
  ghost predicate Takes(w: World, ev: Event, after: World) {
    Enabled(w, ev) && after == After(w, ev)
  }

  ghost predicate Sound(w: World) {
    Inv(w.db, w.flushed) && w.db.logfileNumber in w.db.logs && w.db.logNumber in w.db.logs
  }

  function Hist(w: World): seq<Batch>
    requires w.db.logfileNumber in w.db.logs && w.db.logNumber in w.db.logs
  {
    Committed(w.db, w.flushed)
  }

  /** What an event does to the committed history: a write appends one batch, a crash keeps a prefix that
      contains everything flushed and the whole older log, and nothing else changes it. */
  ghost predicate HistoryStep(w: World, ev: Event, after: World)
    requires w.db.logfileNumber in w.db.logs && w.db.logNumber in w.db.logs
    requires after.db.logfileNumber in after.db.logs && after.db.logNumber in after.db.logs
  {
    match ev
    case DoWrite(ops) => Hist(after) == Hist(w) + [Batch(w.db.lastSequence + 1, ops)]
    case DoCrash(cut, _, _, _) =>
      cut <= |w.db.logs[w.db.logfileNumber]| &&
      var lost := |w.db.logs[w.db.logfileNumber]| - cut;
      && lost <= |Hist(w)| && Hist(after) == Hist(w)[..|Hist(w)| - lost]
    case _ => Hist(after) == Hist(w)
  }

  /** What an event does, field by field. */
  ghost predicate Effect(w: World, ev: Event, after: World) {
    var db, now := w.db, after.db;
    match ev
    case DoWrite(ops) =>
      && db.logfileNumber in db.logs
      && now == db.(mem := now.mem, lastSequence := db.lastSequence + |ops|, logs :=
                    db.logs[db.logfileNumber := db.logs[db.logfileNumber] + [Batch(db.lastSequence + 1, ops)]])
    case DoSwitch =>
      now == db.(mem := [], imm := Some(db.mem), nextFile := db.nextFile + 1, logfileNumber := db.nextFile,
                 logs := db.logs[db.nextFile := []])
    case DoFlush(level, size) =>
      && db.imm.Some?
      && var files := if db.imm.value == [] then [] else [MakeFile(db.nextFile, size, db.imm.value)];
         && FilesAdded(db.levels, now.levels, level, files)
         && now == db.(imm := None, levels := now.levels, manifest := now.manifest, logNumber := db.logfileNumber,
                       nextFile := db.nextFile + 1, tables := db.tables + Numbers(files))
    case DoCompact(level, in0, in1, outs) =>
      && FilesReplaced(db.levels, now.levels, level, in0, in1, outs)
      && now == db.(levels := now.levels, manifest := now.manifest, nextFile := db.nextFile + |outs|,
                    tables := db.tables + Numbers(outs))
    case DoMove(level, f) =>
      && FilesReplaced(db.levels, now.levels, level, [f], [], [f])
      && now == db.(levels := now.levels, manifest := now.manifest)
    case DoTakeSnapshot => now == db.(snapshots := db.snapshots + [db.lastSequence])
    case DoReleaseSnapshot(i) =>
      && i < |db.snapshots| && |now.snapshots| == |db.snapshots| - 1
      && (forall j :: 0 <= j < i ==> now.snapshots[j] == db.snapshots[j])
      && (forall j :: i <= j < |now.snapshots| ==> now.snapshots[j] == db.snapshots[j + 1])
      && now == db.(snapshots := now.snapshots)
    case DoCollect => OnlyObsoleteGone(db, now)
    case DoCrash(cut, files, next, newLog) =>
      && FilesAdded(db.levels, now.levels, 0, files)
      && now.mem == [] && now.imm == None && now.snapshots == [] && now.nextFile == next
      && now.logNumber == newLog == now.logfileNumber && newLog in now.logs && now.logs[newLog] == []
  }

  lemma LogsKnown(db: DbState, flushed: seq<Batch>)
    requires Inv(db, flushed)
    ensures LogsOk(db) && db.logfileNumber in db.logs && db.logNumber in db.logs
  {
    hide *;
    InvParts(db, flushed);
    CommittedIs(db, flushed);
  }

  /** StepKeepsInvariant, said with Takes. */
  lemma TakesKeepsInvariant(w: World, ev: Event, after: World)
    requires Sound(w) && Takes(w, ev, after) && !Exposing(w, ev)
    ensures Sound(after) && HistoryStep(w, ev, after) && Effect(w, ev, after)
  {
    hide Sound, Enabled, Exposing, After, HistoryStep, Effect;
    StepHasEffect(w, ev);
    StepKeepsInvariant(w, ev);
  }

  lemma CrashStep(w: World, cut: nat, files: Level, next: nat, newLog: nat)
    requires Sound(w) && Enabled(w, DoCrash(cut, files, next, newLog))
    ensures var after := After(w, DoCrash(cut, files, next, newLog));
            Sound(after) && HistoryStep(w, DoCrash(cut, files, next, newLog), after)
  {
    hide Inv, HoldSurvivors, Allocated, Reopened, MaxSequence, LogsOk, MemOf;
    var db := w.db;
    ReopenOk(db, w.flushed, cut, files, next, newLog);
    var after := After(w, DoCrash(cut, files, next, newLog));
    LogsKnown(db, w.flushed);
    LogsKnown(after.db, after.flushed);
    SurvivorsArePrefix(db, w.flushed, cut);
    var log := db.logs[db.logfileNumber];
    assert |log[cut..]| == |log| - cut;
  }

  /** One step: every event but an exposing compaction keeps the invariant. */
  lemma StepKeepsInvariant(w: World, ev: Event)
    requires Sound(w) && Enabled(w, ev) && !Exposing(w, ev)
    ensures Sound(After(w, ev)) && HistoryStep(w, ev, After(w, ev))
  {
    hide Inv, MayPlace, Compacts, Chosen, Exposes, FlushTables, Write, Switch, Flush, Compact, Move, TakeSnapshot,
      ReleaseSnapshot, Collect, LogsOk, Committed, Survivors, Reopened, CanReopen;
    match ev {
      case DoWrite(ops) => WriteOk(w.db, w.flushed, ops);
      case DoSwitch => SwitchOk(w.db, w.flushed);
      case DoFlush(level, size) => FlushOk(w.db, w.flushed, level, size);
      case DoCompact(level, in0, in1, outs) => CompactOk(w.db, w.flushed, level, in0, in1, outs);
      case DoMove(level, f) => MoveOk(w.db, w.flushed, level, f);
      case DoTakeSnapshot => TakeSnapshotOk(w.db, w.flushed);
      case DoReleaseSnapshot(i) => ReleaseSnapshotOk(w.db, w.flushed, i);
      case DoCollect => CollectOk(w.db, w.flushed);
      case DoCrash(cut, files, next, newLog) => CrashStep(w, cut, files, next, newLog);
    }
    LogsKnown(After(w, ev).db, After(w, ev).flushed);
  }

  /** Every event changes the fields that it should and no others. */
  lemma StepHasEffect(w: World, ev: Event)
    requires Sound(w) && Enabled(w, ev)
    ensures Effect(w, ev, After(w, ev))
  {
    match ev {
      case DoFlush(level, size) => FlushHasEffect(w, level, size);
      case DoCompact(level, in0, in1, outs) => CompactHasEffect(w, level, in0, in1, outs);
      case DoMove(level, f) => MoveHasEffect(w, level, f);
      case DoCrash(cut, files, next, newLog) => CrashHasEffect(w, cut, files, next, newLog);
      case _ => SmallEffects(w, ev);
    }
  }

  lemma SmallEffects(w: World, ev: Event)
    requires Enabled(w, ev)
    requires ev.DoWrite? || ev.DoSwitch? || ev.DoTakeSnapshot? || ev.DoReleaseSnapshot? || ev.DoCollect?
    ensures Effect(w, ev, After(w, ev))
  {
    hide OnlyObsoleteGone, InsertBatch, Collect;
    CollectedExactly(w.db);
  }

  lemma FlushHasEffect(w: World, level: nat, size: nat)
    requires Sound(w) && Enabled(w, DoFlush(level, size))
    ensures Effect(w, DoFlush(level, size), After(w, DoFlush(level, size)))
  {
    hide Inv, MayPlace, FilesAdded, InstallEdit, AddFilesEdit, MakeFile, Numbers;
    FlushOk(w.db, w.flushed, level, size);
    EditLog(level, FlushTables(w.db, size), w.db.logfileNumber);
  }

  lemma EditLog(level: nat, files: Level, n: nat)
    ensures AddFilesEdit(level, files).(logNumber := Some(n)).logNumber == Some(n)
  {
  }

  lemma CompactHasEffect(w: World, level: nat, in0: Level, in1: Level, outs: Level)
    requires Sound(w) && Enabled(w, DoCompact(level, in0, in1, outs))
    ensures Effect(w, DoCompact(level, in0, in1, outs), After(w, DoCompact(level, in0, in1, outs)))
  {
    hide Inv, Compacts, FilesReplaced, InstallEdit, VersionOk, ManifestOk, LogsOk, Tables, Numbers, NumbersAt;
    CompactStructure(w.db, w.flushed, level, in0, in1, outs);
  }

  lemma MoveHasEffect(w: World, level: nat, f: File)
    requires Sound(w) && Enabled(w, DoMove(level, f))
    ensures Effect(w, DoMove(level, f), After(w, DoMove(level, f)))
  {
    hide Inv, Chosen, FilesReplaced, InstallEdit, Committed, NumbersAt;
    MoveOk(w.db, w.flushed, level, f);
  }

  lemma CrashHasEffect(w: World, cut: nat, files: Level, next: nat, newLog: nat)
    requires Sound(w) && Enabled(w, DoCrash(cut, files, next, newLog))
    ensures Effect(w, DoCrash(cut, files, next, newLog), After(w, DoCrash(cut, files, next, newLog)))
  {
    hide Inv, HoldSurvivors, Allocated, MaxSequence, FilesAdded, InstallEdit, SnapshotEdit, AddFilesEdit;
    ReopenOk(w.db, w.flushed, cut, files, next, newLog);
  }

  // ---- Runs -----------------------------------------------------------------------------------

  lemma EmptyVersion()
    ensures VersionOk(EMPTY_LEVELS) && Tables(EMPTY_LEVELS) == {}
    ensures forall l, f :: 0 <= l < |EMPTY_LEVELS| && f in EMPTY_LEVELS[l] ==> false
  {
    NoFiles(EMPTY_LEVELS);
  }

  lemma NoFiles(levels: Levels)
    requires |levels| == NUM_LEVELS && forall l :: 0 <= l < |levels| ==> levels[l] == []
    ensures VersionOk(levels) && Tables(levels) == {}
  {
    hide FileOk, Newer, BySmallest;
    assert forall l :: 0 <= l < |levels| ==> FilesOk(levels[l]) && SmallestSorted(levels[l]) && Disjoint(levels[l]);
    assert NewerByNumber(levels[0]) && UniqueNumbers(levels) && Layered(levels);
  }

  lemma NothingStored(last: nat)
    ensures Stores(EMPTY_LEVELS, [], last) && HistoryOk([], last) && HistSet([]) == {} && EntriesOf([]) == {}
  {
    EmptyVersion();
    assert HistSet([]) == {};
  }

  lemma NothingFresh(db: DbState, edit: VersionEdit)
    requires edit.newFiles == FilesAt(0, [])
    ensures FreshTables(db.levels, []) && GoodEdit(db, Complete(db, edit), 0, [])
  {
  }

  lemma CreatedFrame()
    ensures var after := Created().db;
            && after == LogAndApply(Blank(), FirstEdit()) && FirstEdit().deletedFiles == {}
            && FirstEdit().newFiles == FilesAt(0, [])
            && LogAndApply(Blank(), FirstEdit()).logNumber < Blank().nextFile
            && LogsOk(after) && Unflushed(after) == [] && Oldest(after) == 0 && SnapshotsOk(after.snapshots, 0)
            && after.tables == {} + Numbers([]) && 0 < MAX_SEQUENCE && after.lastSequence == 0
    ensures Created().flushed == []
    ensures Blank().levels == EMPTY_LEVELS && Blank().manifest == [SnapshotEdit(EMPTY_LEVELS)]
    ensures Blank().lastSequence == 0
  {
    hide InstallEdit, SnapshotEdit;
  }

  lemma NoHistory(bs: seq<Batch>)
    requires bs == []
    ensures bs + bs == bs
  {
  }

  lemma CreatedSound()
    ensures Sound(Created()) && Hist(Created()) == []
  {
    var before, after := Blank(), Created().db;
    hide *;
    CreatedFrame();
    EmptyVersion();
    NothingStored(0);
    NothingFresh(before, FirstEdit());
    SnapshotTracks(before, 0);
    LevelZeroFree(EMPTY_LEVELS, []);
    NoHistory([]);
    AddTablesOk(before, 0, [], [], 0, [], FirstEdit(), 0);
    OnDiskEmpty(before.levels);
    OnDiskAfterAdd(before.levels, after.levels, 0, [], {});
    ToInv(after, []);
    CommittedIs(after, []);
    SoundFrom(Created());
  }

  lemma SoundFrom(w: World)
    requires Inv(w.db, w.flushed)
    ensures Sound(w) && w.db.logfileNumber in w.db.logs && w.db.logNumber in w.db.logs
    ensures Hist(w) == Committed(w.db, w.flushed)
  {
    hide Inv, Committed;
    LogsKnown(w.db, w.flushed);
  }

  lemma OnDiskEmpty(levels: Levels)
    requires forall l, f :: 0 <= l < |levels| && f in levels[l] ==> false
    ensures OnDisk(levels, {})
  {
  }

  ghost predicate Run(ws: seq<World>, evs: seq<Event>) {
    && |ws| == |evs| + 1 && ws[0] == Created()
    && forall i :: 0 <= i < |evs| ==> Enabled(ws[i], evs[i]) && ws[i + 1] == After(ws[i], evs[i])
  }

  /** No compaction of the run exposes an old value. */
  ghost predicate Harmless(ws: seq<World>, evs: seq<Event>)
    requires |ws| == |evs| + 1
  {
    forall i :: 0 <= i < |evs| ==> !Exposing(ws[i], evs[i])
  }

  lemma {:induction false} RunSound(ws: seq<World>, evs: seq<Event>, n: nat)
    requires Run(ws, evs) && Harmless(ws, evs) && n <= |evs|
    ensures Sound(ws[n])
    ensures n > 0 ==> Sound(ws[n - 1]) && HistoryStep(ws[n - 1], evs[n - 1], ws[n])
    ensures n > 0 ==> Effect(ws[n - 1], evs[n - 1], ws[n])
  {
    hide Sound, Enabled, Exposing, After, HistoryStep, Created, Effect;
    if n == 0 {
      CreatedSound();
    } else {
      RunSound(ws, evs, n - 1);
      StepKeepsInvariant(ws[n - 1], evs[n - 1]);
      StepHasEffect(ws[n - 1], evs[n - 1]);
    }
  }

  /** Main result: after any run, a read at any sequence number from the oldest live snapshot on (so at
      every live snapshot and at LastSequence) gives the newest committed entry at or below it. */
  lemma EveryReadIsRight(ws: seq<World>, evs: seq<Event>, k: UserKey, s: nat)
    requires Run(ws, evs) && Harmless(ws, evs) && Oldest(ws[|evs|].db) <= s
    ensures var w := ws[|evs|];
            Sound(w) && Lookup(Contents(w.db), k, s) == Lookup(HistSet(Hist(w)), k, s)
  {
    hide Inv, Enabled, Exposing, After, Created, HistSet, Contents, Lookup, Oldest;
    RunSound(ws, evs, |evs|);
    ReadsSeeHistory(ws[|evs|].db, ws[|evs|].flushed, k, s);
  }

  /** Live snapshots, and LastSequence, are among the sequence numbers of EveryReadIsRight. */
  lemma SnapshotsAreProtected(ws: seq<World>, evs: seq<Event>)
    requires Run(ws, evs) && Harmless(ws, evs)
    ensures var db := ws[|evs|].db;
            Oldest(db) <= db.lastSequence && forall s :: s in db.snapshots ==> Oldest(db) <= s <= db.lastSequence
  {
    hide Inv, Enabled, Exposing, After, Created;
    RunSound(ws, evs, |evs|);
    var db := ws[|evs|].db;
    InvParts(db, ws[|evs|].flushed);
  }

  ghost predicate NoCrash(evs: seq<Event>, from: nat) {
    forall i :: from <= i < |evs| ==> !evs[i].DoCrash?
  }

  /** History only grows between crashes, by batches with larger sequence numbers. */
  lemma {:induction false} HistoryGrows(ws: seq<World>, evs: seq<Event>, m: nat, n: nat) returns (more: seq<Batch>)
    requires Run(ws, evs) && Harmless(ws, evs) && NoCrash(evs, m) && m <= n <= |evs|
    ensures Sound(ws[m]) && Sound(ws[n]) && Hist(ws[n]) == Hist(ws[m]) + more
    ensures ws[m].db.lastSequence <= ws[n].db.lastSequence
    ensures forall i :: 0 <= i < |more| ==> more[i].first > ws[m].db.lastSequence
    decreases n - m
  {
    hide Inv, Enabled, Exposing, Created, Committed;
    RunSound(ws, evs, n);
    if n == m {
      more := [];
    } else {
      more := HistoryGrows(ws, evs, m, n - 1);
      SequenceGrows(ws[n - 1], evs[n - 1]);
      if evs[n - 1].DoWrite? {
        var b := Batch(ws[n - 1].db.lastSequence + 1, evs[n - 1].ops);
        assert Hist(ws[m]) + more + [b] == Hist(ws[m]) + (more + [b]);
        more := more + [b];
      }
    }
  }

  lemma SequenceGrows(w: World, ev: Event)
    requires Enabled(w, ev) && !ev.DoCrash?
    ensures w.db.lastSequence <= After(w, ev).db.lastSequence
  {
    hide MayPlace, Compacts, Chosen, InstallEdit, InsertBatch, FlushTables, Numbers;
  }

  lemma OnlyOlder(a: seq<Batch>, more: seq<Batch>, last: nat, k: UserKey, s: nat)
    requires HistoryOk(a + more, last) && forall i :: 0 <= i < |more| ==> more[i].first > s
    ensures Lookup(HistSet(a + more), k, s) == Lookup(HistSet(a), k, s)
  {
    HistSetAppend(a, more);
    HistoryFacts(a + more, last);
    forall e ensures !Visible(HistSet(more), k, s, e) {
      if e in HistSet(more) {
        var n, i :| 0 <= n < |more| && 0 <= i < |more[n].ops| && e == EntryAt(more[n], i);
        assert e.key.seqno > s;
      }
    }
    assert HistSet(more) + HistSet(a) == HistSet(a) + HistSet(more);
    LookupBelow(HistSet(more), HistSet(a), k, s);
  }

  // ---- Snapshots ------------------------------------------------------------------------------

  /** How many snapshots are live after n events. */
  function LiveSnapshots(evs: seq<Event>, n: nat): int
    requires n <= |evs|
  {
    if n == 0 then 0
    else match evs[n - 1]
         case DoTakeSnapshot => LiveSnapshots(evs, n - 1) + 1
         case DoReleaseSnapshot(_) => LiveSnapshots(evs, n - 1) - 1
         case DoCrash(_, _, _, _) => 0
         case _ => LiveSnapshots(evs, n - 1)
  }

  /** Where the snapshot that event m took is among the live ones after n events. It is live until it is released
      itself, or until a crash; releasing another one moves it at most. */
  function Place(evs: seq<Event>, m: nat, n: nat): Option<int>
    requires m < n <= |evs|
  {
    if n == m + 1 then (if evs[m].DoTakeSnapshot? then Some(LiveSnapshots(evs, m)) else None)
    else match Place(evs, m, n - 1)
         case None => None
         case Some(p) =>
           match evs[n - 1]
           case DoReleaseSnapshot(i) => if i == p then None else if i < p then Some(p - 1) else Some(p)
           case DoCrash(_, _, _, _) => None
           case _ => Some(p)
  }

  /** Every live snapshot is in the list, with the sequence number it was taken at. */
  lemma {:induction false} SnapshotsAreKept(ws: seq<World>, evs: seq<Event>, m: nat, n: nat)
    requires Run(ws, evs) && Harmless(ws, evs) && m < n <= |evs| && Place(evs, m, n).Some?
    ensures var p := Place(evs, m, n).value;
            0 <= p < |ws[n].db.snapshots| && ws[n].db.snapshots[p] == ws[m].db.lastSequence
    ensures forall i :: m < i < n ==> !evs[i].DoCrash?
  {
    hide Sound, Enabled, Exposing, After, Created, HistoryStep;
    RunSound(ws, evs, n);
    if n == m + 1 {
      SnapshotsCounted(ws, evs, m);
    } else {
      SnapshotsAreKept(ws, evs, m, n - 1);
    }
    SnapshotsChange(ws[n - 1], evs[n - 1], ws[n]);
  }

  lemma {:induction false} SnapshotsCounted(ws: seq<World>, evs: seq<Event>, n: nat)
    requires Run(ws, evs) && Harmless(ws, evs) && n <= |evs|
    ensures |ws[n].db.snapshots| == LiveSnapshots(evs, n)
  {
    hide Sound, Enabled, Exposing, After, HistoryStep;
    if n > 0 {
      hide Created;
      SnapshotsCounted(ws, evs, n - 1);
      RunSound(ws, evs, n);
      SnapshotsChange(ws[n - 1], evs[n - 1], ws[n]);
    }
  }

  /** And nothing else is in the list: every place belongs to a live snapshot. */
  lemma {:induction false} EverySnapshotWasTaken(ws: seq<World>, evs: seq<Event>, n: nat, p: nat) returns (m: nat)
    requires Run(ws, evs) && Harmless(ws, evs) && n <= |evs| && p < |ws[n].db.snapshots|
    ensures m < n && Place(evs, m, n) == Some(p)
  {
    hide Sound, Enabled, Exposing, After, HistoryStep;
    SnapshotsCounted(ws, evs, n);
    if n > 0 {
      hide Created;
      RunSound(ws, evs, n);
      SnapshotsChange(ws[n - 1], evs[n - 1], ws[n]);
      SnapshotsCounted(ws, evs, n - 1);
      if evs[n - 1].DoTakeSnapshot? && p == |ws[n - 1].db.snapshots| {
        m := n - 1;
      } else if evs[n - 1].DoReleaseSnapshot? && p >= evs[n - 1].index {
        m := EverySnapshotWasTaken(ws, evs, n - 1, p + 1);
      } else {
        m := EverySnapshotWasTaken(ws, evs, n - 1, p);
      }
    }
  }

  /** What Effect says about the list of snapshots. */
  lemma SnapshotsChange(w: World, ev: Event, after: World)
    requires Effect(w, ev, after)
    ensures ev.DoTakeSnapshot? ==> after.db.snapshots == w.db.snapshots + [w.db.lastSequence]
    ensures ev.DoReleaseSnapshot? ==>
              var i := ev.index;
              && i < |w.db.snapshots| && |after.db.snapshots| == |w.db.snapshots| - 1
              && (forall j :: 0 <= j < i ==> after.db.snapshots[j] == w.db.snapshots[j])
              && (forall j :: i <= j < |after.db.snapshots| ==> after.db.snapshots[j] == w.db.snapshots[j + 1])
    ensures ev.DoCrash? ==> after.db.snapshots == []
    ensures !ev.DoTakeSnapshot? && !ev.DoReleaseSnapshot? && !ev.DoCrash? ==> after.db.snapshots == w.db.snapshots
    ensures !ev.DoWrite? && !ev.DoCrash? ==> after.db.lastSequence == w.db.lastSequence
    ensures ev.DoWrite? ==> after.db.lastSequence == w.db.lastSequence + |ev.ops|
  {
    hide FilesAdded, FilesReplaced, MakeFile;
  }

  /** As long as a snapshot is neither released nor lost in a crash, reads at it show the database as it was when it
      was taken, whatever is written, flushed, moved or compacted and whichever other snapshots come and go. */
  lemma SnapshotsAreStable(ws: seq<World>, evs: seq<Event>, m: nat, k: UserKey)
    requires Run(ws, evs) && Harmless(ws, evs) && m < |evs| && Place(evs, m, |evs|).Some?
    ensures Sound(ws[m]) && ws[m].db.lastSequence in ws[|evs|].db.snapshots
    ensures Lookup(Contents(ws[|evs|].db), k, ws[m].db.lastSequence) ==
            Lookup(HistSet(Hist(ws[m])), k, ws[m].db.lastSequence)
  {
    var n, s := |evs|, ws[m].db.lastSequence;
    hide Inv, Enabled, Exposing, After, Created, HistSet, Contents, Lookup, Oldest, HistoryOk, Committed;
    SnapshotsAreKept(ws, evs, m, n);
    TakenIsNoCrash(evs, m, n);
    SnapshotsAreProtected(ws, evs);
    var more := HistoryGrows(ws, evs, m, n);
    EveryReadIsRight(ws, evs, k, s);
    InvParts(ws[n].db, ws[n].flushed);
    CommittedIs(ws[n].db, ws[n].flushed);
    OnlyOlder(Hist(ws[m]), more, ws[n].db.lastSequence, k, s);
  }

  lemma {:induction false} TakenIsNoCrash(evs: seq<Event>, m: nat, n: nat)
    requires m < n <= |evs| && Place(evs, m, n).Some?
    ensures evs[m].DoTakeSnapshot?
  {
    if n > m + 1 {
      TakenIsNoCrash(evs, m, n - 1);
    }
  }

  // ---- The last write wins --------------------------------------------------------------------

  /** The operations written by events m to n - 1. */
  function WrittenOps(evs: seq<Event>, m: nat, n: nat): seq<Op>
    requires m <= n <= |evs|
  {
    if n == m then []
    else WrittenOps(evs, m, n - 1) + if evs[n - 1].DoWrite? then evs[n - 1].ops else []
  }

  /** Between two states, reading the key n sequence numbers later gives what the first n operations say. */
  ghost predicate Answered(w: World, ops: seq<Op>, after: World, n: nat, k: UserKey)
    requires Sound(w) && Sound(after) && n <= |ops|
  {
    AfterOps(ops, n, k, Lookup(HistSet(Hist(w)), k, w.db.lastSequence),
             Lookup(HistSet(Hist(after)), k, w.db.lastSequence + n))
  }

  /** A write changes the answers as its operations say, one after the other. */
  lemma WriteAnswers(w: World, ops: seq<Op>, after: World, n: nat, k: UserKey)
    requires Sound(w) && Sound(after) && Effect(w, DoWrite(ops), after) && HistoryStep(w, DoWrite(ops), after)
    requires n <= |ops|
    ensures Answered(w, ops, after, n, k)
  {
    hide Inv, HistSet, Lookup, HistoryOk, Committed, AfterOps;
    InvParts(after.db, after.flushed);
    CommittedIs(after.db, after.flushed);
    LastOperationDecides(Hist(w), Batch(w.db.lastSequence + 1, ops), after.db.lastSequence, n, k);
  }

  lemma {:induction false} HistoryFollowsWrites(ws: seq<World>, evs: seq<Event>, m: nat, n: nat, k: UserKey)
    requires Run(ws, evs) && Harmless(ws, evs) && NoCrash(evs, m) && m <= n <= |evs|
    ensures Sound(ws[m]) && Sound(ws[n])
    ensures AfterOps(WrittenOps(evs, m, n), |WrittenOps(evs, m, n)|, k,
                     Lookup(HistSet(Hist(ws[m])), k, ws[m].db.lastSequence),
                     Lookup(HistSet(Hist(ws[n])), k, ws[n].db.lastSequence))
    decreases n - m
  {
    hide Inv, Enabled, Exposing, After, Created, HistSet, Lookup, Effect, HistoryStep, Committed, AfterOps;
    RunSound(ws, evs, n);
    if n == m {
      NoOps(k, Lookup(HistSet(Hist(ws[m])), k, ws[m].db.lastSequence));
    } else {
      HistoryFollowsWrites(ws, evs, m, n - 1, k);
      SnapshotsChange(ws[n - 1], evs[n - 1], ws[n]);
      OneMoreEvent(ws[n - 1], evs[n - 1], ws[n], k);
      AfterBoth(WrittenOps(evs, m, n - 1), if evs[n - 1].DoWrite? then evs[n - 1].ops else [], k,
                Lookup(HistSet(Hist(ws[m])), k, ws[m].db.lastSequence),
                Lookup(HistSet(Hist(ws[n - 1])), k, ws[n - 1].db.lastSequence),
                Lookup(HistSet(Hist(ws[n])), k, ws[n].db.lastSequence));
    }
  }

  lemma OneMoreEvent(w: World, ev: Event, after: World, k: UserKey)
    requires Sound(w) && Sound(after) && Effect(w, ev, after) && HistoryStep(w, ev, after) && !ev.DoCrash?
    ensures var ops := if ev.DoWrite? then ev.ops else [];
            AfterOps(ops, |ops|, k, Lookup(HistSet(Hist(w)), k, w.db.lastSequence),
                     Lookup(HistSet(Hist(after)), k, after.db.lastSequence))
  {
    hide Inv, HistSet, Lookup, Committed, Effect;
    SnapshotsChange(w, ev, after);
    if ev.DoWrite? {
      hide AfterOps;
      WriteAnswers(w, ev.ops, after, |ev.ops|, k);
    }
  }

  /** Main result, said with the writes of the run: where there was no crash since moment m, reading a key gives the
      value of the last Put written since then, nothing if the last operation on the key was a Delete, and what
      was read at moment m if there was none. In a run without a crash, that is nothing at all. */
  lemma LastWriteWins(ws: seq<World>, evs: seq<Event>, m: nat, k: UserKey)
    requires Run(ws, evs) && Harmless(ws, evs) && NoCrash(evs, m) && m <= |evs|
    ensures var w, ops := ws[|evs|].db, WrittenOps(evs, m, |evs|);
            AfterOps(ops, |ops|, k, Lookup(Contents(ws[m].db), k, ws[m].db.lastSequence),
                     Lookup(Contents(w), k, w.lastSequence))
    ensures m == 0 ==> Lookup(Contents(ws[m].db), k, ws[m].db.lastSequence) == None
  {
    hide Inv, Enabled, Exposing, After, Created, HistSet, Contents, Lookup, Oldest, AfterOps, Committed;
    HistoryFollowsWrites(ws, evs, m, |evs|, k);
    RunSound(ws, evs, m);
    InvParts(ws[m].db, ws[m].flushed);
    SnapshotsBelow(ws[m].db);
    ReadsSeeHistory(ws[m].db, ws[m].flushed, k, ws[m].db.lastSequence);
    SnapshotsAreProtected(ws, evs);
    EveryReadIsRight(ws, evs, k, ws[|evs|].db.lastSequence);
    if m == 0 {
      CreatedSound();
      NothingWritten(k, ws[m].db.lastSequence);
    }
  }

  lemma SnapshotsBelow(db: DbState)
    requires SnapshotsOk(db.snapshots, db.lastSequence)
    ensures Oldest(db) <= db.lastSequence
  {
  }

  lemma NothingWritten(k: UserKey, s: nat)
    ensures Lookup(HistSet([]), k, s) == None
  {
    assert HistSet([]) == {};
  }
}
