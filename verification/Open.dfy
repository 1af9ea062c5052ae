/** Opening a database after a crash, step by step (VersionSet::Recover in db/version_set.cc;
    DBImpl::Recover, RecoverLogFile and DB::Open in db/db_impl.cc). */
module Opening {
  import opened DbFormat
  import opened Version
  import opened VersionEdits
  import opened CompactionWork
  import opened CompactionSafety
  import opened History
  import opened State
  import opened Manifest
  import opened Steps
  import opened Recovery
  import opened Runs
  import opened Database

  // ---- VersionSet::Recover --------------------------------------------------------------------

  datatype Counter = LogNumber | NextFile | LastSequence

  function Value(e: VersionEdit, c: Counter): Option<nat> {
    match c case LogNumber => e.logNumber case NextFile => e.nextFile case LastSequence => e.lastSequence
  }

  /** The value of the last record that sets the counter; records behind it leave it alone. */
  function LastSet(manifest: seq<VersionEdit>, c: Counter): Option<nat> {
    if manifest == [] then None
    else if Value(manifest[|manifest| - 1], c).Some? then Value(manifest[|manifest| - 1], c)
    else LastSet(manifest[..|manifest| - 1], c)
  }

  lemma {:induction false} LastSetDecides(manifest: seq<VersionEdit>, c: Counter, i: nat)
    requires i < |manifest| && Value(manifest[i], c).Some?
    requires forall j :: i < j < |manifest| ==> Value(manifest[j], c).None?
    ensures LastSet(manifest, c) == Value(manifest[i], c)
  {
    if i < |manifest| - 1 {
      LastSetDecides(manifest[..|manifest| - 1], c, i);
    }
  }

  /** The engine's last record always sets all counters, so it decides them. */
  lemma LastRecordDecides(manifest: seq<VersionEdit>)
    ensures manifest != [] ==>
              var last := manifest[|manifest| - 1];
              && (last.logNumber.Some? ==> LastSet(manifest, LogNumber) == last.logNumber)
              && (last.nextFile.Some? ==> LastSet(manifest, NextFile) == last.nextFile)
              && (last.lastSequence.Some? ==> LastSet(manifest, LastSequence) == last.lastSequence)
  {
  }

  /** Replays the manifest through one Builder and picks up the last value of each counter. */
  method RecoverVersion(manifest: seq<VersionEdit>)
    returns (levels: Levels, logNumber: Option<nat>, nextFile: Option<nat>, lastSequence: Option<nat>)
    ensures |levels| == NUM_LEVELS
    ensures forall l :: 0 <= l < NUM_LEVELS ==>
              levels[l] == SaveLevel([], Accumulate(manifest, l).added, Accumulate(manifest, l).deleted)
    ensures logNumber == LastSet(manifest, LogNumber) && nextFile == LastSet(manifest, NextFile)
    ensures lastSequence == LastSet(manifest, LastSequence)
  {
    hide ApplyLevel, SaveLevel;
    logNumber, nextFile, lastSequence := None, None, None;
    var builder := new Builder(EMPTY_LEVELS);
    for i := 0 to |manifest|
      invariant builder.Valid() && fresh(builder) && builder.base == EMPTY_LEVELS
      invariant forall l :: 0 <= l < NUM_LEVELS ==> builder.levels[l] == Accumulate(manifest[..i], l)
      invariant logNumber == LastSet(manifest[..i], LogNumber) && nextFile == LastSet(manifest[..i], NextFile)
      invariant lastSequence == LastSet(manifest[..i], LastSequence)
    {
      var edit := manifest[i];
      assert manifest[..i + 1][..i] == manifest[..i];
      builder.Apply(edit);
      if edit.logNumber.Some? {
        logNumber := edit.logNumber;
      }
      if edit.nextFile.Some? {
        nextFile := edit.nextFile;
      }
      if edit.lastSequence.Some? {
        lastSequence := edit.lastSequence;
      }
    }
    assert manifest[..|manifest|] == manifest;
    levels := builder.SaveTo();
    assert forall l :: 0 <= l < NUM_LEVELS ==> EMPTY_LEVELS[l] == [];
  }

  /** What the manifest replay gives is the version of the crashed database. */
  lemma ReplayGivesVersion(db: DbState, flushed: seq<Batch>, levels: Levels)
    requires Inv(db, flushed) && |levels| == NUM_LEVELS
    requires forall l :: 0 <= l < NUM_LEVELS ==>
               levels[l] == SaveLevel([], Accumulate(db.manifest, l).added, Accumulate(db.manifest, l).deleted)
    ensures levels == db.levels
  {
    hide Inv, VersionOk, Accumulate, SaveLevel, InstallAll, NeverReadded;
    InvParts(db, flushed);
    VersionLayered(db.levels);
    ManifestParts(db, flushed);
    forall l | 0 <= l < NUM_LEVELS ensures levels[l] == db.levels[l] {
      ReplayEqualsInstalling([], db.manifest, l);
    }
  }

  // ---- Logs to replay, in order ---------------------------------------------------------------

  function InsertNumber(n: nat, ns: seq<nat>): (r: seq<nat>)
    requires forall i, j :: 0 <= i < j < |ns| ==> ns[i] < ns[j]
    requires n !in ns
    ensures forall i, j :: 0 <= i < j < |r| ==> r[i] < r[j]
    ensures forall x :: x in r <==> x == n || x in ns
  {
    if ns == [] then [n]
    else if n < ns[0] then [n] + ns
    else
      assert forall x :: x in ns <==> x == ns[0] || x in ns[1..];
      assert ns[0] < n;
      var rest := InsertNumber(n, ns[1..]);
      assert forall x :: x in ns[1..] ==> ns[0] < x by {
        assert forall j :: 0 <= j < |ns[1..]| ==> ns[1..][j] == ns[j + 1];
      }
      assert forall j :: 0 <= j < |rest| ==> rest[j] in rest;
      [ns[0]] + rest
  }

  /** The log files recovery must read, sorted by number. */
  method LogsToRecover(logs: map<nat, seq<Batch>>, minLog: nat) returns (ns: seq<nat>)
    ensures forall i, j :: 0 <= i < j < |ns| ==> ns[i] < ns[j]
    ensures forall n :: n in ns <==> n in logs && n >= minLog
  {
    ns := [];
    var rest := set n | n in logs && n >= minLog;
    while rest != {}
      invariant forall i, j :: 0 <= i < j < |ns| ==> ns[i] < ns[j]
      invariant forall n :: n in ns || n in rest <==> n in logs && n >= minLog
      invariant forall n :: n in ns ==> n !in rest
      decreases rest
    {
      var n :| n in rest;
      ns := InsertNumber(n, ns);
      rest := rest - {n};
    }
  }

  /** At most two logs are live: that of the immutable memtable and the current one. */
  lemma LiveLogs(db: DbState, logs: map<nat, seq<Batch>>, ns: seq<nat>)
    requires LogsOk(db) && logs.Keys == db.logs.Keys
    requires forall i, j :: 0 <= i < j < |ns| ==> ns[i] < ns[j]
    requires forall n :: n in ns <==> n in logs && n >= db.logNumber
    ensures ns == if db.imm.Some? then [db.logNumber, db.logfileNumber] else [db.logfileNumber]
  {
    hide MemOf;
    if db.imm.Some? {
      TwoNumbers(ns, db.logNumber, db.logfileNumber);
    } else {
      OneNumber(ns, db.logfileNumber);
    }
  }

  lemma TwoNumbers(ns: seq<nat>, a: nat, b: nat)
    requires forall i, j :: 0 <= i < j < |ns| ==> ns[i] < ns[j]
    requires a < b && forall n :: n in ns <==> n == a || n == b
    ensures ns == [a, b]
  {
    assert a in ns && b in ns;
    var i :| 0 <= i < |ns| && ns[i] == a;
    var j :| 0 <= j < |ns| && ns[j] == b;
    assert ns[0] in ns && ns[i + 1] in ns && ns[|ns| - 1] in ns;
  }

  lemma OneNumber(ns: seq<nat>, a: nat)
    requires forall i, j :: 0 <= i < j < |ns| ==> ns[i] < ns[j]
    requires forall n :: n in ns <==> n == a
    ensures ns == [a]
  {
    assert a in ns;
    assert ns[0] in ns && ns[|ns| - 1] in ns;
  }

  // ---- RecoverLogFile -------------------------------------------------------------------------

  lemma JoinContents(files: Level, f: File, done: seq<Batch>, pending: seq<Batch>)
    requires EntriesOf(files) == HistSet(done) && Elements(f.entries) == HistSet(pending)
    ensures EntriesOf(files + [f]) == HistSet(done + pending)
  {
    hide HistSet;
    HistSetAppend(done, pending);
    forall e | e in EntriesOf(files) ensures e in EntriesOf(files + [f]) {
      var g :| g in files && e in g.entries;
      assert g in files + [f];
    }
    forall e | e in Elements(f.entries) ensures e in EntriesOf(files + [f]) {
      assert f in files + [f];
    }
    forall e | e in EntriesOf(files + [f]) ensures e in EntriesOf(files) + Elements(f.entries) {
      var g :| g in files + [f] && e in g.entries;
    }
  }

  /** WriteLevel0Table during recovery: the pending batches become the next level-0 table. */
  lemma WriteRecovered(files: Level, done: seq<Batch>, pending: seq<Batch>, first: nat, next: nat, size: nat, last: nat)
    requires HoldSurvivors(files, done, first, next) && HistoryOk(done + pending, last) && first <= next
    ensures var mem := MemOf(pending);
            HoldSurvivors(if mem == [] then files else files + [MakeFile(next, size, mem)],
                          done + pending, first, next + 1)
  {
    var mem := MemOf(pending);
    hide HistSet, HistoryOk, MemOf, Sorted, EntriesOf;
    HistoryOrder(done, pending, last);
    MemOfEffect(pending, last);
    HistSetAppend(done, pending);
    if mem == [] {
      assert Elements(mem) == {};
    } else {
      var f := MakeFile(next, size, mem);
      JoinContents(files, f, done, pending);
      forall i | 0 <= i < |files| ensures Newer(f.entries, files[i].entries) {
        assert files[i] in files;
        OlderThanPending(files, files[i], f, done, pending);
      }
      assert FileOk(f);
    }
  }

  lemma OlderThanPending(files: Level, g: File, f: File, done: seq<Batch>, pending: seq<Batch>)
    requires g in files && EntriesOf(files) == HistSet(done) && Elements(f.entries) == HistSet(pending)
    requires forall x, y :: x in HistSet(done) && y in HistSet(pending) ==> x.key.seqno < y.key.seqno
    ensures Newer(f.entries, g.entries)
  {
    forall x, y | x in f.entries && y in g.entries ensures x.key.seqno > y.key.seqno {
      assert x in Elements(f.entries) && y in EntriesOf(files);
    }
  }

  lemma RaiseNext(files: Level, done: seq<Batch>, first: nat, next: nat, later: nat)
    requires HoldSurvivors(files, done, first, next) && next <= later
    ensures HoldSurvivors(files, done, first, later)
  {
    hide HistSet, EntriesOf, FileOk, Newer;
  }

  lemma MaxSequenceStep(bs: seq<Batch>, b: Batch)
    ensures MaxSequence(bs + [b]) == if End(b) > MaxSequence(bs) + 1 then End(b) - 1 else MaxSequence(bs)
  {
    assert (bs + [b])[..|bs|] == bs;
  }

  /** Replays one log file into level-0 tables; a memtable is written out whenever it is large enough,
      which may be after any record. */
  method RecoverLogFile(batches: seq<Batch>, files0: Level, next0: nat, max0: nat,
                        ghost done: seq<Batch>, ghost first: nat, ghost last: nat)
    returns (files: Level, next: nat, maxSequence: nat)
    requires HistoryOk(done + batches, last) && HoldSurvivors(files0, done, first, next0) && first <= next0
    requires max0 == MaxSequence(done)
    ensures HoldSurvivors(files, done + batches, first, next) && next0 <= next
    ensures maxSequence == MaxSequence(done + batches)
  {
    hide HistoryOk, HoldSurvivors, MemOf, InsertBatch, MaxSequence;
    files, next, maxSequence := files0, next0, max0;
    var mem: Option<seq<Entry>> := None;
    ghost var f := 0;
    ghost var inTables := done;
    assert done + batches[..0] == done;
    for i := 0 to |batches|
      invariant f <= i && inTables == done + batches[..f]
      invariant HoldSurvivors(files, inTables, first, next) && next0 <= next
      invariant mem.Some? ==> mem.value == MemOf(batches[f..i])
      invariant mem.None? ==> f == i
      invariant maxSequence == MaxSequence(done + batches[..i])
    {
      var batch := batches[i];
      if mem.None? {
        mem := Some([]);
        EmptyMem(batches, i);
      }
      assert batches[f..i + 1] == batches[f..i] + [batch];
      MemOfAppend(batches[f..i], batch);
      mem := Some(InsertBatch(mem.value, batch));
      assert done + batches[..i + 1] == done + batches[..i] + [batch];
      MaxSequenceStep(done + batches[..i], batch);
      FirstPositive(done, batches, i, last);
      var lastSeq := batch.first + |batch.ops| - 1;
      if lastSeq > maxSequence {
        maxSequence := lastSeq;
      }
      var full: bool := *;
      if full {
        var size: nat := *;
        PendingHistory(done, batches, f, i + 1, last);
        WriteRecovered(files, inTables, batches[f..i + 1], first, next, size, last);
        if mem.value != [] {
          files := files + [MakeFile(next, size, mem.value)];
        }
        next := next + 1;
        mem := None;
        inTables := inTables + batches[f..i + 1];
        assert batches[..f] + batches[f..i + 1] == batches[..i + 1];
        assert inTables == done + batches[..i + 1];
        f := i + 1;
      }
    }
    assert batches[..|batches|] == batches;
    if mem.Some? {
      var size: nat := *;
      PendingHistory(done, batches, f, |batches|, last);
      WriteRecovered(files, inTables, batches[f..|batches|], first, next, size, last);
      if mem.value != [] {
        files := files + [MakeFile(next, size, mem.value)];
      }
      next := next + 1;
      assert batches[..f] + batches[f..|batches|] == batches;
      assert inTables + batches[f..|batches|] == done + batches;
    }
  }

  lemma EmptyMem(batches: seq<Batch>, i: nat)
    requires i <= |batches|
    ensures MemOf(batches[i..i]) == []
  {
  }

  lemma FirstPositive(done: seq<Batch>, batches: seq<Batch>, i: nat, last: nat)
    requires HistoryOk(done + batches, last) && i < |batches|
    ensures batches[i].first >= 1
  {
    assert (done + batches)[|done| + i] == batches[i];
  }

  lemma PendingHistory(done: seq<Batch>, batches: seq<Batch>, f: nat, i: nat, last: nat)
    requires HistoryOk(done + batches, last) && f <= i <= |batches|
    ensures HistoryOk(done + batches[..f] + batches[f..i], last)
  {
    hide HistoryOk;
    assert done + batches[..f] + batches[f..i] == (done + batches)[..|done| + i];
    HistoryPrefix(done + batches, last, |done| + i);
  }

  // ---- DB::Open -------------------------------------------------------------------------------

  /** The batches of several logs, one after the other. */
  function ConcatLogs(logs: map<nat, seq<Batch>>, ns: seq<nat>): seq<Batch>
    requires forall n :: n in ns ==> n in logs
  {
    if ns == [] then [] else ConcatLogs(logs, ns[..|ns| - 1]) + logs[ns[|ns| - 1]]
  }

  lemma {:induction false} ConcatPrefix(logs: map<nat, seq<Batch>>, ns: seq<nat>, i: nat)
    requires i <= |ns| && forall n :: n in ns ==> n in logs
    ensures ConcatLogs(logs, ns[..i]) <= ConcatLogs(logs, ns)
  {
    if i == |ns| {
      assert ns[..i] == ns;
    } else {
      assert ns[..|ns| - 1][..i] == ns[..i];
      ConcatPrefix(logs, ns[..|ns| - 1], i);
    }
  }

  lemma ConcatStep(logs: map<nat, seq<Batch>>, ns: seq<nat>, i: nat, last: nat)
    requires i < |ns| && (forall n :: n in ns ==> n in logs) && HistoryOk(ConcatLogs(logs, ns), last)
    ensures ns[i] in logs && ConcatLogs(logs, ns[..i + 1]) == ConcatLogs(logs, ns[..i]) + logs[ns[i]]
    ensures HistoryOk(ConcatLogs(logs, ns[..i]) + logs[ns[i]], last)
  {
    hide HistoryOk;
    assert ns[..i + 1][..i] == ns[..i];
    assert ns[i] in ns;
    ConcatPrefix(logs, ns, i + 1);
    var part := ConcatLogs(logs, ns[..i + 1]);
    assert part == ConcatLogs(logs, ns)[..|part|];
    HistoryPrefix(ConcatLogs(logs, ns), last, |part|);
  }

  /** The logs found on disk hold exactly the surviving batches. */
  lemma SurvivorsFound(w: World, cut: nat, ns: seq<nat>)
    requires Sound(w) && cut <= |w.db.logs[w.db.logfileNumber]|
    requires forall i, j :: 0 <= i < j < |ns| ==> ns[i] < ns[j]
    requires forall n :: n in ns <==> n in Crash(w.db, cut).logs && n >= w.db.logNumber
    ensures ConcatLogs(Crash(w.db, cut).logs, ns) == Survivors(w.db, cut)
    ensures HistoryOk(Survivors(w.db, cut), w.db.lastSequence) && w.db.logfileNumber in ns
    ensures w.db.logNumber <= w.db.logfileNumber
  {
    hide *;
    CrashFacts(w, cut);
    InvParts(w.db, w.flushed);
    LogsKnown(w.db, w.flushed);
    CrashLogs(w.db, cut);
    LiveLogs(w.db, Crash(w.db, cut).logs, ns);
    LogsOrder(w.db);
    ConcatOfLive(w.db, cut, ns);
    SurvivorsAlone(w, cut);
  }

  lemma CrashLogs(db: DbState, cut: nat)
    requires db.logfileNumber in db.logs && cut <= |db.logs[db.logfileNumber]|
    ensures Crash(db, cut).logs.Keys == db.logs.Keys
  {
  }

  lemma SurvivorsAlone(w: World, cut: nat)
    requires Sound(w) && cut <= |w.db.logs[w.db.logfileNumber]|
    ensures HistoryOk(Survivors(w.db, cut), w.db.lastSequence)
  {
    hide Inv, HistoryOk, Survivors;
    InvParts(w.db, w.flushed);
    RecordParts(w.db, w.flushed, cut);
    SurvivorHistory(w.db, w.flushed, cut, LastRecord(Crash(w.db, cut)).lastSequence.value);
    HistoryOrder(w.flushed, Survivors(w.db, cut), w.db.lastSequence);
  }

  lemma ConcatOfLive(db: DbState, cut: nat, ns: seq<nat>)
    requires db.logfileNumber in db.logs && db.logNumber in db.logs && cut <= |db.logs[db.logfileNumber]|
    requires ns == if db.imm.Some? then [db.logNumber, db.logfileNumber] else [db.logfileNumber]
    requires db.imm.Some? ==> db.logNumber != db.logfileNumber
    requires forall n :: n in ns ==> n in Crash(db, cut).logs
    ensures ConcatLogs(Crash(db, cut).logs, ns) == Survivors(db, cut)
    ensures db.logfileNumber in ns
  {
    var logs := Crash(db, cut).logs;
    if db.imm.Some? {
      assert ns[..1] == [db.logNumber] && ns[..1][..0] == [];
      assert ConcatLogs(logs, [db.logNumber]) == [] + logs[db.logNumber];
    } else {
      assert ns[..0] == [];
    }
  }

  lemma LogsOrder(db: DbState)
    requires LogsOk(db)
    ensures db.logNumber <= db.logfileNumber && (db.imm.Some? ==> db.logNumber != db.logfileNumber)
  {
    hide MemOf;
  }

  /** No live table is missing, so recovery does not report corruption. */
  lemma NothingMissing(w: World, cut: nat)
    requires Sound(w) && cut <= |w.db.logs[w.db.logfileNumber]|
    ensures LiveTables(w.db.levels) <= Crash(w.db, cut).tables
  {
    hide Inv, VersionOk;
    InvParts(w.db, w.flushed);
  }

  lemma CrashFacts(w: World, cut: nat)
    requires Sound(w) && cut <= |w.db.logs[w.db.logfileNumber]|
    ensures Inv(w.db, w.flushed) && w.db.manifest != [] && Crash(w.db, cut).manifest == w.db.manifest
    ensures var rec := LastRecord(Crash(w.db, cut));
            rec.nextFile.Some? && rec.lastSequence.Some? && rec.logNumber == Some(w.db.logNumber)
  {
    hide Inv;
    InvParts(w.db, w.flushed);
    RecordParts(w.db, w.flushed, cut);
  }

  lemma NoSurvivorsYet(first: nat, next: nat)
    ensures HoldSurvivors([], [], first, next) && MaxSequence([]) == 0
  {
    assert HistSet([]) == {};
  }

  lemma ReopenedIs(w: World, cut: nat, files: Level, next: nat, newLog: nat, lastSequence: nat)
    requires Sound(w) && CanReopen(w.db, cut, files, next, newLog)
    requires lastSequence == Max(LastRecord(Crash(w.db, cut)).lastSequence.value, MaxSequence(Survivors(w.db, cut)))
    ensures var ev := DoCrash(cut, files, next, newLog);
            Enabled(w, ev) && !Exposing(w, ev) &&
            After(w, ev) ==
              World(LogAndApply(Replayed(Crash(w.db, cut), w.db.levels, lastSequence, files, next, newLog),
                                              AddFilesEdit(0, files).(logNumber := Some(newLog))),
                                  w.flushed + Survivors(w.db, cut))
  {
    hide Inv, CanReopen, LogAndApply, Replayed, AddFilesEdit, Survivors, Crash, MaxSequence, LastRecord;
    assert CanReopen(w.db, cut, files, next, newLog);
    CanReopenParts(w, cut, files, next, newLog);
  }

  lemma CanReopenParts(w: World, cut: nat, files: Level, next: nat, newLog: nat)
    requires CanReopen(w.db, cut, files, next, newLog)
    ensures w.db.logfileNumber in w.db.logs && w.db.logNumber in w.db.logs && cut <= |w.db.logs[w.db.logfileNumber]|
  {
    hide HoldSurvivors, Allocated, Survivors, Crash;
  }

  /** DB::Open on the files a crash left behind: the result is a database that satisfies the invariant and
      holds exactly the surviving prefix of the committed history. */
  method Open(disk: Disk, ghost w: World, ghost cut: nat) returns (db: DB, ghost ev: Event, ghost mid: World)
    requires Sound(w) && cut <= |w.db.logs[w.db.logfileNumber]| && disk == Crash(w.db, cut)
    ensures fresh(db) && ev.DoCrash? && ev.cut == cut && Takes(w, ev, mid) && Effect(w, ev, mid) && Sound(mid)
    ensures db.Valid() && HistoryStep(w, ev, mid) && Takes(mid, DoCollect, db.Now())
    ensures OnlyObsoleteGone(mid.db, db.View())
  {
    hide Inv, HistoryOk, HoldSurvivors, MaxSequence, VersionOk, ConcatLogs, LogAndApply, Replayed, Survivors, Enabled,
      After, Exposing, HistoryStep, Crash, Committed, Effect, OnlyObsoleteGone;
    hide LastSet;
    CrashFacts(w, cut);
    LastRecordDecides(disk.manifest);
    var levels, logNumber, nextFile, recorded := RecoverVersion(disk.manifest);
    ReplayGivesVersion(w.db, w.flushed, levels);
    NothingMissing(w, cut);
    assert LiveTables(levels) <= disk.tables;
    ghost var first := nextFile.value;
    var next := nextFile.value + 1; // the number itself goes to the new manifest
    var ns := LogsToRecover(disk.logs, logNumber.value);
    SurvivorsFound(w, cut, ns);
    var files, maxSequence := [], 0;
    NoSurvivorsYet(first, next);
    ghost var done: seq<Batch> := [];
    EmptyConcat(disk.logs);
    for i := 0 to |ns|
      invariant forall n :: n in ns ==> n in disk.logs
      invariant done == ConcatLogs(disk.logs, ns[..i])
      invariant HoldSurvivors(files, done, first, next) && maxSequence == MaxSequence(done) && first <= next
      invariant forall j :: 0 <= j < i ==> ns[j] < next
    {
      ConcatStep(disk.logs, ns, i, w.db.lastSequence);
      files, next, maxSequence :=
        RecoverLogFile(disk.logs[ns[i]], files, next, maxSequence, done, first, w.db.lastSequence);
      done := done + disk.logs[ns[i]];
      if next <= ns[i] {
        RaiseNext(files, done, first, next, ns[i] + 1);
        next := ns[i] + 1;
      }
    }
    assert ns[..|ns|] == ns;
    var lastSequence := recorded.value;
    if lastSequence < maxSequence {
      lastSequence := maxSequence;
    }
    var newLog := next;
    RaiseNext(files, done, first, next, next + 1);
    next := next + 1;
    ev := DoCrash(cut, files, next, newLog);
    assert CanReopen(w.db, cut, files, next, newLog);
    ReopenedIs(w, cut, files, next, newLog, lastSequence);
    db := new DB.FromState(Replayed(disk, levels, lastSequence, files, next, newLog), w.flushed + done);
    ReplayedLevels(disk, levels, lastSequence, files, next, newLog);
    db.LogAndApplyEdit(AddFilesEdit(0, files).(logNumber := Some(newLog)));
    mid := db.Now();
    TakesKeepsInvariant(w, ev, mid);
    db.RemoveObsoleteFiles();
  }

  lemma EmptyConcat(logs: map<nat, seq<Batch>>)
    ensures ConcatLogs(logs, []) == []
  {
  }

  lemma ReplayedLevels(disk: Disk, levels: Levels, lastSequence: nat, files: Level, next: nat, newLog: nat)
    ensures Replayed(disk, levels, lastSequence, files, next, newLog).levels == levels
  {
  }
}
