/** The one way a compaction can go wrong: a run in which a deleted value comes back, and a condition on
    the picked files under which no compaction can do this (VersionSet::SetupOtherInputs extends the
    `level` inputs over boundary files, but not the `level+1` inputs). */
module Exposure {
  import opened DbFormat
  import opened Visibility
  import opened Version
  import opened VersionEdits
  import opened Picking
  import opened CompactionWork
  import opened CompactionSafety
  import opened Install
  import opened History
  import opened State
  import opened Manifest
  import opened Steps
  import opened Recovery
  import opened Runs

  /** A file of the next level that a compaction leaves out holds no user key of the `level` inputs. */
  lemma LeftOutSharesNoKey(levels: Levels, level: nat, in0: Level, in1: Level, f: File, g: File, x: Entry, y: Entry)
    requires Chosen(levels, level, in0, in1) && FilesOk(levels[level]) && FilesOk(levels[level + 1])
    requires f in levels[level + 1] && f !in in1 && g in in0 && x in f.entries && y in g.entries
    ensures x.key.user != y.key.user
  {
    ChosenFiles(levels, level, in0, in1);
    FileBounds(f);
    FileBounds(g);
    assert !Overlaps(f, Some(SmallestKey(in0).user), Some(LargestKey(in0).user));
  }

  /** If the `level+1` inputs are closed too, what they leave out is newer than what they take. */
  lemma LeftOutIsNewer(levels: Levels, level: nat, in0: Level, in1: Level, e: Entry, r: Entry)
    requires VersionOk(levels) && Distinct(Tables(levels)) && Chosen(levels, level, in0, in1)
    requires Closed(levels[level + 1], in1)
    requires e in EntriesOf(in0 + in1) && r in Leftover(levels, level, in1) && e.key.user == r.key.user
    ensures r.key.seqno >= e.key.seqno && (r.key.seqno == e.key.seqno ==> r == e)
  {
    VersionLevel(levels, level);
    VersionLevel(levels, level + 1);
    hide VersionOk, Chosen, FilesOk;
    ChosenFiles(levels, level, in0, in1);
    var g :| g in in0 + in1 && e in g.entries;
    var f :| f in levels[level + 1] && f !in in1 && r in f.entries;
    if g in in0 {
      LeftOutSharesNoKey(levels, level, in0, in1, f, g, r, e);
      assert false;
    }
    assert NotOlder(f, g);
    assert e in Tables(levels) && r in Tables(levels);
  }

  /** Had the `level+1` inputs been extended over boundary files as the `level` inputs are, no value could
      return. */
  lemma ClosedNextLevelIsSafe(levels: Levels, level: nat, in0: Level, in1: Level, smallest: nat)
    requires VersionOk(levels) && Distinct(Tables(levels)) && Chosen(levels, level, in0, in1)
    requires Closed(levels[level + 1], in1)
    ensures !Exposes(levels, level, in0, in1, smallest)
  {
    hide VersionOk, Chosen, Closed;
    ChosenFiles(levels, level, in0, in1);
    forall k, e, r ensures !ExposesAt(levels, level, in0, in1, smallest, k, e, r) {
      if e in EntriesOf(in0 + in1) && r in Leftover(levels, level, in1) && e.key.user == r.key.user {
        LeftOutIsNewer(levels, level, in0, in1, e, r);
      }
    }
  }

  // ---- A run in which a deleted value comes back ------------------------------------------------

  /** The parts of a state the run is about; only levels 1 and 2 hold files. */
  ghost predicate Shows(db: DbState, mem: seq<Entry>, imm: Option<seq<Entry>>, one: Level, two: Level,
                        last: nat, next: nat, snapshots: seq<nat>) {
    && db.mem == mem && db.imm == imm && db.levels == [[], one, two, [], [], [], []]
    && db.lastSequence == last && db.nextFile == next && db.snapshots == snapshots
    && db.logfileNumber in db.logs && db.logNumber in db.logs
  }

  lemma ShowsWrite(db: DbState, ops: seq<Op>, one: Level, two: Level, last: nat, next: nat, snapshots: seq<nat>)
    requires Shows(db, [], None, one, two, last, next, snapshots)
    ensures Shows(Write(db, ops), InsertBatch([], Batch(last + 1, ops)), None, one, two, last + |ops|, next, snapshots)
  {
    hide InsertBatch;
  }

  lemma ShowsSwitch(db: DbState, mem: seq<Entry>, one: Level, two: Level, last: nat, next: nat, snapshots: seq<nat>)
    requires Shows(db, mem, None, one, two, last, next, snapshots)
    ensures Shows(Switch(db), [], Some(mem), one, two, last, next + 1, snapshots)
  {
  }

  lemma {:induction false} KeepAll(base: Level)
    ensures SaveLevel(base, [], {}) == base
  {
    if base != [] {
      KeepAll(base[1..]);
    }
  }

  lemma {:induction false} AddsElsewhere(st: LevelState, newFiles: seq<(nat, File)>, level: nat)
    requires SmallestSorted(st.added) && forall p :: p in newFiles ==> p.0 != level
    ensures AddAll(st, newFiles, level) == st
  {
    if newFiles != [] {
      AddsElsewhere(st, newFiles[1..], level);
    }
  }

  /** What the builder holds for one level, with the deletions written out. */
  lemma InstallIs(base: Level, edit: VersionEdit, level: nat, deleted: set<nat>)
    requires DeletedAt(edit, level) == deleted
    ensures var st := AddAll(LevelState(deleted, []), edit.newFiles, level);
            InstallLevel(base, edit, level) == SaveLevel(base, st.added, st.deleted)
  {
    assert {} + deleted == deleted;
  }

  /** An edit that does not mention a level leaves it alone. */
  lemma NotMentioned(base: Level, edit: VersionEdit, level: nat)
    requires forall p :: p in edit.newFiles ==> p.0 != level
    requires DeletedAt(edit, level) == {}
    ensures InstallLevel(base, edit, level) == base
  {
    InstallIs(base, edit, level, {});
    AddsElsewhere(LevelState({}, []), edit.newFiles, level);
    KeepAll(base);
  }

  /** A table that goes to an empty level is its only file. */
  lemma OnlyFile(edit: VersionEdit, level: nat, f: File)
    requires edit.newFiles == [(level, f)] && DeletedAt(edit, level) == {}
    ensures InstallLevel([], edit, level) == [f]
  {
    InstallIs([], edit, level, {});
    assert edit.newFiles[1..] == [];
    assert InsertFile(f, []) == [f];
    assert AddAll(LevelState({}, []), edit.newFiles, level) == LevelState({} - {f.number}, [f]);
    assert {} - {f.number} == {};
    assert [f][1..] == [];
  }

  /** The only file of a level is compacted away. */
  lemma OnlyFileGone(edit: VersionEdit, level: nat, f: File)
    requires (forall p :: p in edit.newFiles ==> p.0 != level) && DeletedAt(edit, level) == {f.number}
    ensures InstallLevel([f], edit, level) == []
  {
    InstallIs([f], edit, level, {f.number});
    AddsElsewhere(LevelState({f.number}, []), edit.newFiles, level);
    assert [f][1..] == [];
  }

  /** Two files are added to a level where another one was deleted. */
  lemma AddTwo(newFiles: seq<(nat, File)>, level: nat, n: nat, g: File, h: File)
    requires newFiles == [(level, g), (level, h)]
    requires BySmallest(g, h) && n != g.number && n != h.number && g.number != h.number
    ensures AddAll(LevelState({n}, []), newFiles, level) == LevelState({n}, [g, h])
  {
    hide BySmallest;
    var rest := newFiles[1..];
    assert rest == [(level, h)] && rest[1..] == [];
    assert InsertFile(g, []) == [g];
    NotBefore(g, h);
    assert [g][1..] == [] && InsertFile(h, [g]) == [g] + [h];
    assert {n} - {g.number} == {n} && {n} - {h.number} == {n};
    assert AddAll(LevelState({n}, [g]), rest, level) == LevelState({n}, [g, h]);
  }

  lemma NotBefore(g: File, h: File)
    requires BySmallest(g, h)
    ensures !BySmallest(h, g)
  {
  }

  /** Nothing is left of the deleted file. */
  lemma SaveTwo(f: File, g: File, h: File)
    requires BySmallest(g, h) && f.number != g.number && f.number != h.number
    ensures SaveLevel([f], [g, h], {f.number}) == [g, h]
  {
    hide BySmallest;
    assert [g, h][1..] == [h] && [h][1..] == [] && [f][1..] == [];
    assert SaveLevel([], [h], {f.number}) == [h];
    assert SaveLevel([], [g, h], {f.number}) == [g] + [h];
    assert SaveLevel([f], [h], {f.number}) == [h];
  }

  /** The only file of a level is replaced by two. */
  lemma OnlyFileSplit(edit: VersionEdit, level: nat, f: File, g: File, h: File)
    requires edit.newFiles == [(level, g), (level, h)] && DeletedAt(edit, level) == {f.number}
    requires BySmallest(g, h) && f.number != g.number && f.number != h.number && g.number != h.number
    ensures InstallLevel([f], edit, level) == [g, h]
  {
    hide BySmallest, AddAll, SaveLevel, InstallLevel;
    InstallIs([f], edit, level, {f.number});
    AddTwo(edit.newFiles, level, f.number, g, h);
    SaveTwo(f, g, h);
  }

  lemma ShowsFlush(db: DbState, level: nat, size: nat, imm: seq<Entry>, one: Level, two: Level, last: nat, next: nat,
                   snapshots: seq<nat>)
    requires Shows(db, [], Some(imm), one, two, last, next, snapshots) && imm != []
    requires (level == 1 && one == []) || (level == 2 && two == [])
    ensures var f := MakeFile(next, size, imm);
            Shows(Flush(db, level, size), [], None, if level == 1 then [f] else one, if level == 2 then [f] else two,
                  last, next + 1, snapshots)
  {
    var f := MakeFile(next, size, imm);
    var edit := AddFilesEdit(level, [f]).(logNumber := Some(db.logfileNumber));
    var numbered := db.(nextFile := db.nextFile + 1, tables := db.tables + Numbers([f]));
    var full := Complete(numbered, edit);
    assert full.newFiles == [(level, f)];
    hide InstallLevel, MakeFile;
    forall l: nat | l < 7 && l != level ensures InstallLevel(db.levels[l], full, l) == db.levels[l] {
      NotMentioned(db.levels[l], full, l);
    }
    OnlyFile(full, level, f);
    assert InstallEdit(db.levels, full) ==
      [[], if level == 1 then [f] else one, if level == 2 then [f] else two, [], [], [], []];
  }

  /** The values that are written, and the sizes of the table files by number. */
  datatype Values = Values(first: Value, returning: Value, second: Value, sizes: nat -> nat)

  function First(v: Values): Entry { Entry(InternalKey(1, 1, TypeValue), v.first) }

  function Old(v: Values): Entry { Entry(InternalKey(2, 2, TypeValue), v.returning) }

  const GONE := Entry(InternalKey(2, 3, TypeDeletion), "")

  function Second(v: Values): Entry { Entry(InternalKey(1, 4, TypeValue), v.second) }

  function T5(v: Values): File { MakeFile(5, v.sizes(5), [First(v), Old(v)]) }

  function T7(v: Values): File { MakeFile(7, v.sizes(7), [GONE]) }

  function T8(v: Values): File { MakeFile(8, v.sizes(8), [First(v), GONE]) }

  function T9(v: Values): File { MakeFile(9, v.sizes(9), [Old(v)]) }

  function T11(v: Values): File { MakeFile(11, v.sizes(11), [Second(v)]) }

  function T12(v: Values): File { MakeFile(12, v.sizes(12), [Second(v)]) }

  lemma OneFileChosen(levels: Levels, level: nat, f: File, g: File)
    requires 0 < level && level + 1 < |levels| && levels[level] == [f]
    requires Overlapping(levels[level + 1], Some(f.smallest.user), Some(f.largest.user)) == [g]
    ensures Chosen(levels, level, [f], [g])
  {
    assert [f] == levels[level][0..1];
    assert IsRun(levels[level], [f]);
    assert [f][..0] == [];
  }

  /** It is what the code settles on when it picks that file, whatever the size limit for larger sets. */
  lemma OneFilePicked(levels: Levels, level: nat, f: File, g: File, limit: nat)
    requires 0 < level && level + 1 < |levels| && levels[level] == [f] && FileOk(f)
    requires Overlapping(levels[level + 1], Some(f.smallest.user), Some(f.largest.user)) == [g]
    ensures PickedFrom(levels, level, 0, limit, [f], [g])
  {
    var fs := levels[level];
    assert [f][..0] == [];
    FileBounds(f);
    NoBoundary(f);
    assert [f] + BoundaryFiles(fs, LargestKey([f])) == [f];
    var b, e := Some(SmallestKey([f] + [g]).user), Some(LargestKey([f] + [g]).user);
    RangeGrows([f], [f] + [g]);
    assert Overlaps(f, b, e);
    assert fs[1..] == [] && Overlapping(fs, b, e) == [f];
    assert Gathered(fs, level, b, e, [f]);
    assert Wider(levels, level, [f], [g], [f]);
    assert Settled(levels, level, [f], limit, [f], [g], [f]);
  }

  lemma NoBoundary(f: File)
    requires FileOk(f)
    ensures LargestKey([f]) == f.largest && BoundaryFiles([f], f.largest) == []
  {
    assert [f][..0] == [];
    FileBounds(f);
  }

  lemma FirstMerge(v: Values)
    ensures MergeFiles([T7(v), T5(v)]) == [First(v), GONE, Old(v)]
  {
    assert [T7(v), T5(v)][1..] == [T5(v)] && [T5(v)][1..] == [];
    assert MergeFiles([T5(v)]) == [First(v), Old(v)];
    assert [First(v), Old(v)][1..] == [Old(v)] && [GONE][1..] == [];
    assert Merge([GONE], [Old(v)]) == [GONE] + [Old(v)];
  }

  lemma SecondMerge(v: Values)
    ensures MergeFiles([T11(v), T8(v)]) == [Second(v), First(v), GONE]
  {
    assert [T11(v), T8(v)][1..] == [T8(v)] && [T8(v)][1..] == [];
    assert MergeFiles([T8(v)]) == [First(v), GONE];
    assert [Second(v)][1..] == [] && !Less(First(v).key, Second(v).key);
    assert Merge([Second(v)], [First(v), GONE]) == [Second(v)] + [First(v), GONE];
  }

  lemma FirstOutput(v: Values, levels: Levels)
    ensures CompactionOutput([T8(v), T9(v)], [First(v), GONE, Old(v)], levels, 1, 2, 8)
  {
    var input, outs := [First(v), GONE, Old(v)], [T8(v), T9(v)];
    forall e | e in input ensures !Dropped(input, levels, 1, 2, e) {
      hide BaseLevel;
    }
    hide Dropped;
    forall e ensures InFiles(outs, e) <==> e in input {
      assert T8(v) in outs && T9(v) in outs;
    }
  }

  lemma SecondOutput(v: Values, levels: Levels)
    requires BaseLevel(levels, 1, 2)
    ensures CompactionOutput([T12(v)], [Second(v), First(v), GONE], levels, 1, 4, 12)
  {
    hide BaseLevel;
    var input, outs := [Second(v), First(v), GONE], [T12(v)];
    assert Hidden(input, 4, First(v)) by {
      assert Second(v) in input;
    }
    assert Obsolete(levels, 1, 4, GONE);
    assert !Dropped(input, levels, 1, 4, Second(v));
    hide Dropped;
    forall e ensures InFiles(outs, e) <==> e == Second(v) {
      assert T12(v) in outs;
    }
  }

  /** With a snapshot at 2 the first compaction keeps all three entries; it may cut between the two
      entries for key 2: module OutputCut has the sizes with which it does. */
  lemma FirstCompaction(v: Values, db: DbState)
    requires Shows(db, [], None, [T7(v)], [T5(v)], 3, 8, [2])
    ensures Compacts(db, 1, [T7(v)], [T5(v)], [T8(v), T9(v)]) && !Exposes(db.levels, 1, [T7(v)], [T5(v)], Oldest(db))
  {
    hide CompactionOutput, MergeFiles, Chosen;
    assert [T5(v)][1..] == [];
    OneFileChosen(db.levels, 1, T7(v), T5(v));
    FirstMerge(v);
    assert [T7(v)] + [T5(v)] == [T7(v), T5(v)];
    FirstOutput(v, db.levels);
    forall k, e, r ensures !ExposesAt(db.levels, 1, [T7(v)], [T5(v)], 2, k, e, r) {
      if e in EntriesOf([T7(v)] + [T5(v)]) && e.key.kind == TypeDeletion {
        assert e == GONE;
      }
    }
  }

  /** The second compaction takes T8(v) but leaves T9(v) behind, and drops the deletion. */
  lemma SecondCompaction(v: Values, db: DbState)
    requires Shows(db, [], None, [T11(v)], [T8(v), T9(v)], 4, 12, [])
    ensures Compacts(db, 1, [T11(v)], [T8(v)], [T12(v)])
    ensures ExposesAt(db.levels, 1, [T11(v)], [T8(v)], Oldest(db), 2, GONE, Old(v))
  {
    hide CompactionOutput, MergeFiles, Chosen, ExposesAt;
    assert [T8(v), T9(v)][1..] == [T9(v)] && [T9(v)][1..] == [];
    OneFileChosen(db.levels, 1, T11(v), T8(v));
    SecondMerge(v);
    assert [T11(v)] + [T8(v)] == [T11(v), T8(v)];
    SecondOutput(v, db.levels);
    ReturningValue(v, db);
  }

  lemma SecondPicked(v: Values, db: DbState)
    requires Shows(db, [], None, [T11(v)], [T8(v), T9(v)], 4, 12, [])
    ensures forall limit :: PickedFrom(db.levels, 1, 0, limit, [T11(v)], [T8(v)])
  {
    hide PickedFrom;
    assert [T8(v), T9(v)][1..] == [T9(v)] && [T9(v)][1..] == [];
    assert FileOk(T11(v));
    forall limit ensures PickedFrom(db.levels, 1, 0, limit, [T11(v)], [T8(v)]) {
      OneFilePicked(db.levels, 1, T11(v), T8(v), limit);
    }
  }

  lemma ReturningValue(v: Values, db: DbState)
    requires Shows(db, [], None, [T11(v)], [T8(v), T9(v)], 4, 12, [])
    ensures ExposesAt(db.levels, 1, [T11(v)], [T8(v)], Oldest(db), 2, GONE, Old(v))
  {
    var levels := db.levels;
    assert T8(v) in levels[2] && T9(v) in levels[2] && T11(v) in levels[1];
    assert T9(v) !in [T8(v)];
    assert GONE in T8(v).entries && Old(v) in T9(v).entries;
    assert T8(v) in [T11(v)] + [T8(v)];
    forall e | Visible(Tables(levels), 2, 4, e) ensures e.key.seqno <= 3 {
      var l, f: File :| 0 <= l < |levels| && f in levels[l] && e in f.entries;
    }
    forall e | Visible(Leftover(levels, 1, [T8(v)]), 2, 3, e) ensures e.key.seqno <= 2 {
      var f :| f in levels[2] && f !in [T8(v)] && e in f.entries;
    }
  }

  /** What the first compaction deletes and adds. */
  lemma FirstCompactionEdit(v: Values, db: DbState) returns (full: VersionEdit)
    requires Shows(db, [], None, [T7(v)], [T5(v)], 3, 8, [2])
    ensures full == Complete(db.(nextFile := 10, tables := db.tables + Numbers([T8(v), T9(v)])),
                             CompactionEdit(1, [T7(v)], [T5(v)], [T8(v), T9(v)]))
    ensures full.newFiles == [(2, T8(v)), (2, T9(v))] && full.deletedFiles == {(1, 7), (2, 5)}
    ensures DeletedAt(full, 1) == {7} && DeletedAt(full, 2) == {5}
  {
    var outs := [T8(v), T9(v)];
    full := Complete(db.(nextFile := 10, tables := db.tables + Numbers(outs)),
                     CompactionEdit(1, [T7(v)], [T5(v)], outs));
    assert full.deletedFiles == {(1, 7), (2, 5)} by {
      assert T7(v) in [T7(v)] && T5(v) in [T5(v)];
      assert NumbersAt(1, [T7(v)]) == {(1, 7)} && NumbersAt(2, [T5(v)]) == {(2, 5)};
    }
    assert (1, 7) in full.deletedFiles && (2, 5) in full.deletedFiles;
  }

  lemma ShowsFirstCompaction(v: Values, db: DbState)
    requires Shows(db, [], None, [T7(v)], [T5(v)], 3, 8, [2])
    ensures Shows(Compact(db, 1, [T7(v)], [T5(v)], [T8(v), T9(v)]), [], None, [], [T8(v), T9(v)], 3, 10, [2])
  {
    var full := FirstCompactionEdit(v, db);
    hide InstallLevel, CompactionEdit;
    forall l: nat | l < 7 && l != 1 && l != 2 ensures InstallLevel(db.levels[l], full, l) == db.levels[l] {
      NotMentioned(db.levels[l], full, l);
    }
    OnlyFileGone(full, 1, T7(v));
    OnlyFileSplit(full, 2, T5(v), T8(v), T9(v));
    assert InstallEdit(db.levels, full) == [[], [], [T8(v), T9(v)], [], [], [], []];
  }

  ghost predicate Good(ws: seq<World>, evs: seq<Event>) {
    Run(ws, evs) && Harmless(ws, evs)
  }

  lemma Extend(ws: seq<World>, evs: seq<Event>, ev: Event) returns (ws2: seq<World>, evs2: seq<Event>)
    requires Good(ws, evs) && |ws| == |evs| + 1 && Enabled(ws[|evs|], ev) && !Exposing(ws[|evs|], ev)
    ensures evs2 == evs + [ev] && ws2 == ws + [After(ws[|evs|], ev)]
    ensures Good(ws2, evs2) && |ws2| == |evs2| + 1 && ws2[|evs2|] == After(ws[|evs|], ev)
  {
    hide Enabled, Exposing, After, Created;
    evs2, ws2 := evs + [ev], ws + [After(ws[|evs|], ev)];
  }

  lemma WriteStep(w: World, ops: seq<Op>, one: Level, two: Level, last: nat, next: nat, snapshots: seq<nat>)
    requires Shows(w.db, [], None, one, two, last, next, snapshots) && last + |ops| < MAX_SEQUENCE
    ensures Enabled(w, DoWrite(ops)) && !Exposing(w, DoWrite(ops))
    ensures Shows(After(w, DoWrite(ops)).db, InsertBatch([], Batch(last + 1, ops)), None, one, two, last + |ops|, next,
                  snapshots)
  {
    hide InsertBatch;
    ShowsWrite(w.db, ops, one, two, last, next, snapshots);
  }

  lemma SwitchStep(w: World, mem: seq<Entry>, one: Level, two: Level, last: nat, next: nat, snapshots: seq<nat>)
    requires Shows(w.db, mem, None, one, two, last, next, snapshots)
    ensures Enabled(w, DoSwitch) && !Exposing(w, DoSwitch)
    ensures Shows(After(w, DoSwitch).db, [], Some(mem), one, two, last, next + 1, snapshots)
  {
    ShowsSwitch(w.db, mem, one, two, last, next, snapshots);
  }

  /** A flush to level 2 needs level 2 empty; to level 1 it needs level 1 empty. */
  lemma FlushStep(w: World, level: nat, size: nat, imm: seq<Entry>, one: Level, two: Level, last: nat, next: nat,
                  snapshots: seq<nat>)
    requires Shows(w.db, [], Some(imm), one, two, last, next, snapshots) && imm != []
    requires (level == 1 && one == []) || (level == 2 && one == [] && two == [])
    ensures Enabled(w, DoFlush(level, size)) && !Exposing(w, DoFlush(level, size))
    ensures var f := MakeFile(next, size, imm);
            Shows(After(w, DoFlush(level, size)).db, [], None,
                  if level == 1 then [f] else one, if level == 2 then [f] else two, last, next + 1, snapshots)
  {
    hide Flush;
    ShowsFlush(w.db, level, size, imm, one, two, last, next, snapshots);
    assert forall m :: 0 <= m <= level ==> w.db.levels[m] == [];
  }

  lemma SnapshotStep(w: World, one: Level, two: Level, last: nat, next: nat)
    requires Shows(w.db, [], None, one, two, last, next, [])
    ensures Enabled(w, DoTakeSnapshot) && !Exposing(w, DoTakeSnapshot)
    ensures Shows(After(w, DoTakeSnapshot).db, [], None, one, two, last, next, [last])
  {
  }

  lemma ReleaseStep(w: World, one: Level, two: Level, last: nat, next: nat, s: nat)
    requires Shows(w.db, [], None, one, two, last, next, [s])
    ensures Enabled(w, DoReleaseSnapshot(0)) && !Exposing(w, DoReleaseSnapshot(0))
    ensures Shows(After(w, DoReleaseSnapshot(0)).db, [], None, one, two, last, next, [])
  {
  }

  lemma FirstCompactionStep(v: Values, w: World)
    requires Shows(w.db, [], None, [T7(v)], [T5(v)], 3, 8, [2])
    ensures var ev := DoCompact(1, [T7(v)], [T5(v)], [T8(v), T9(v)]);
            Enabled(w, ev) && !Exposing(w, ev) && Shows(After(w, ev).db, [], None, [], [T8(v), T9(v)], 3, 10, [2])
  {
    hide Compacts, Exposes, Compact;
    FirstCompaction(v, w.db);
    ShowsFirstCompaction(v, w.db);
  }

  function Write1(v: Values): seq<Op> { [Put(1, v.first), Put(2, v.returning)] }

  const WRITE2 := [Delete(2)]

  function Write3(v: Values): seq<Op> { [Put(1, v.second)] }

  lemma Memtables(v: Values)
    ensures InsertBatch([], Batch(1, Write1(v))) == [First(v), Old(v)]
    ensures InsertBatch([], Batch(3, WRITE2)) == [GONE]
    ensures InsertBatch([], Batch(4, Write3(v))) == [Second(v)]
  {
    var b1, b2, b3 := Batch(1, Write1(v)), Batch(3, WRITE2), Batch(4, Write3(v));
    assert InsertOps([], b1, 1) == [First(v)] && [First(v)][1..] == [];
    assert EntryAt(b1, 1) == Old(v) && Insert([], Old(v)) == [Old(v)];
    assert Insert([First(v)], Old(v)) == [First(v)] + [Old(v)];
    assert InsertOps([], b1, 2) == [First(v), Old(v)];
    assert InsertOps([], b2, 1) == [GONE];
    assert InsertOps([], b3, 1) == [Second(v)];
  }

  lemma StartShows()
    ensures Shows(Created().db, [], None, [], [], 0, 4, [])
  {
    hide InstallEdit, SnapshotEdit, InstallLevel;
    CreatedFrame();
    var full := Complete(Blank(), FirstEdit());
    forall l: nat | l < 7 ensures InstallLevel(EMPTY_LEVELS[l], full, l) == [] {
      NotMentioned([], full, l);
    }
    assert InstallEdit(EMPTY_LEVELS, full) == EMPTY_LEVELS;
  }

  /** Two keys are written and flushed to level 2, and a snapshot is taken. */
  lemma FirstPart(v: Values) returns (ws: seq<World>, evs: seq<Event>)
    ensures Good(ws, evs) && |evs| == 4 && |ws| == 5 && Shows(ws[4].db, [], None, [], [T5(v)], 2, 6, [2])
  {
    hide Shows, Enabled, Exposing, After, Created, InsertBatch;
    ws, evs := [Created()], [];
    StartShows();
    Memtables(v);
    WriteStep(ws[0], Write1(v), [], [], 0, 4, []);
    ws, evs := Extend(ws, evs, DoWrite(Write1(v)));
    SwitchStep(ws[1], [First(v), Old(v)], [], [], 2, 4, []);
    ws, evs := Extend(ws, evs, DoSwitch);
    FlushStep(ws[2], 2, v.sizes(5), [First(v), Old(v)], [], [], 2, 5, []);
    ws, evs := Extend(ws, evs, DoFlush(2, v.sizes(5)));
    SnapshotStep(ws[3], [], [T5(v)], 2, 6);
    ws, evs := Extend(ws, evs, DoTakeSnapshot);
  }

  /** Key 2 is deleted, the deletion is flushed to level 1 and compacted into level 2, next to the entry it
      hides, which the snapshot still needs. */
  lemma SecondPart(v: Values) returns (ws: seq<World>, evs: seq<Event>)
    ensures Good(ws, evs) && |evs| == 8 && |ws| == 9 && Shows(ws[8].db, [], None, [], [T8(v), T9(v)], 3, 10, [2])
  {
    hide Good, Shows, Enabled, Exposing, After, Created, InsertBatch;
    ws, evs := FirstPart(v);
    Memtables(v);
    WriteStep(ws[4], WRITE2, [], [T5(v)], 2, 6, [2]);
    ws, evs := Extend(ws, evs, DoWrite(WRITE2));
    SwitchStep(ws[5], [GONE], [], [T5(v)], 3, 6, [2]);
    ws, evs := Extend(ws, evs, DoSwitch);
    FlushStep(ws[6], 1, v.sizes(7), [GONE], [], [T5(v)], 3, 7, [2]);
    ws, evs := Extend(ws, evs, DoFlush(1, v.sizes(7)));
    FirstCompactionStep(v, ws[7]);
    ws, evs := Extend(ws, evs, DoCompact(1, [T7(v)], [T5(v)], [T8(v), T9(v)]));
  }

  /** The snapshot is released, key 1 is overwritten and flushed to level 1. */
  lemma ThirdPart(v: Values) returns (ws: seq<World>, evs: seq<Event>)
    ensures Good(ws, evs) && |evs| == 12 && |ws| == 13
    ensures Shows(ws[12].db, [], None, [T11(v)], [T8(v), T9(v)], 4, 12, [])
  {
    hide Good, Shows, Enabled, Exposing, After, Created, InsertBatch;
    ws, evs := SecondPart(v);
    Memtables(v);
    ReleaseStep(ws[8], [], [T8(v), T9(v)], 3, 10, 2);
    ws, evs := Extend(ws, evs, DoReleaseSnapshot(0));
    WriteStep(ws[9], Write3(v), [], [T8(v), T9(v)], 3, 10, []);
    ws, evs := Extend(ws, evs, DoWrite(Write3(v)));
    SwitchStep(ws[10], [Second(v)], [], [T8(v), T9(v)], 4, 10, []);
    ws, evs := Extend(ws, evs, DoSwitch);
    FlushStep(ws[11], 1, v.sizes(11), [Second(v)], [], [T8(v), T9(v)], 4, 11, []);
    ws, evs := Extend(ws, evs, DoFlush(1, v.sizes(11)));
  }

  lemma ContentsAreTables(db: DbState)
    requires db.mem == [] && db.imm.None?
    ensures Contents(db) == Tables(db.levels)
  {
    hide Tables;
  }

  /** What the exposing compaction does to a reader, in any sound state with empty memtables. */
  lemma ExposedReader(w: World, level: nat, in0: Level, in1: Level, outs: Level, k: UserKey, e: Entry, r: Entry)
    requires Sound(w) && w.db.mem == [] && w.db.imm.None? && Compacts(w.db, level, in0, in1, outs)
    requires level + 1 < |w.db.levels| && ExposesAt(w.db.levels, level, in0, in1, Oldest(w.db), k, e, r)
    ensures var after := Compact(w.db, level, in0, in1, outs);
            && after.lastSequence == w.db.lastSequence && after.snapshots == w.db.snapshots
            && Lookup(Contents(w.db), k, Oldest(w.db)) == None
            && Lookup(Contents(after), k, Oldest(w.db)) == Some(r.value)
  {
    var db := w.db;
    var after := Compact(db, level, in0, in1, outs);
    assert after.mem == [] && after.imm.None? by {
      hide InstallEdit;
    }
    assert after.lastSequence == db.lastSequence && after.snapshots == db.snapshots by {
      hide InstallEdit;
    }
    assert Inv(db, w.flushed);
    hide *;
    InvParts(db, w.flushed);
    CompactStructure(db, w.flushed, level, in0, in1, outs);
    CompactSetting(db, level, in0, in1, outs);
    ExposedChangesAnswer(db.levels, level, in0, in1, MergeFiles(in0 + in1), Oldest(db), EntriesOf(outs), k, e, r);
    ContentsAreTables(db);
    ContentsAreTables(after);
  }

  /** A run whose last event, a compaction the code performs, makes a deleted value readable again: before
      and after it no snapshot is live and LastSequence is 4, the committed history says that key 2 is
      deleted, and a read says so only before. */
  lemma ADeletedValueComesBack(v: Values) returns (ws: seq<World>, evs: seq<Event>, ev: Event, after: World)
    ensures Good(ws, evs) && |evs| == 12 && |ws| == 13 && Takes(ws[12], ev, after) && Exposing(ws[12], ev)
    ensures ev.DoCompact? && forall limit :: PickedFrom(ws[12].db.levels, ev.level, 0, limit, ev.in0, ev.in1)
    ensures Sound(ws[12]) && Oldest(ws[12].db) == 4 == after.db.lastSequence
    ensures Lookup(HistSet(Hist(ws[12])), 2, 4) == None
    ensures Lookup(Contents(ws[12].db), 2, 4) == None && Lookup(Contents(after.db), 2, 4) == Some(v.returning)
  {
    hide Good, Shows, Enabled, Exposing, After, Created, Sound, Contents, Compacts, ExposesAt, Lookup, HistSet, Hist,
      PickedFrom;
    ws, evs := ThirdPart(v);
    var w := ws[12];
    ReadsInGoodRun(ws, evs, 2, 4);
    LastCompaction(v, w);
    ev := DoCompact(1, [T11(v)], [T8(v)], [T12(v)]);
    after := After(w, ev);
  }

  lemma ReadsInGoodRun(ws: seq<World>, evs: seq<Event>, k: UserKey, s: nat)
    requires Good(ws, evs) && |ws| == |evs| + 1
    ensures Sound(ws[|evs|])
    ensures Oldest(ws[|evs|].db) <= s ==> Lookup(Contents(ws[|evs|].db), k, s) == Lookup(HistSet(Hist(ws[|evs|])), k, s)
  {
    hide Sound, Run, Harmless, Contents, Lookup, HistSet, Hist, Oldest;
    RunSound(ws, evs, |evs|);
    if Oldest(ws[|evs|].db) <= s {
      EveryReadIsRight(ws, evs, k, s);
    }
  }

  lemma LastCompaction(v: Values, w: World)
    requires Sound(w) && Shows(w.db, [], None, [T11(v)], [T8(v), T9(v)], 4, 12, [])
    ensures var ev := DoCompact(1, [T11(v)], [T8(v)], [T12(v)]);
            && Enabled(w, ev) && Exposing(w, ev) && Oldest(w.db) == 4
            && After(w, ev).db.lastSequence == 4
            && (forall limit :: PickedFrom(w.db.levels, 1, 0, limit, [T11(v)], [T8(v)]))
            && Lookup(Contents(w.db), 2, 4) == None && Lookup(Contents(After(w, ev).db), 2, 4) == Some(v.returning)
  {
    hide Sound, Contents, Compacts, ExposesAt, Lookup, Compact, PickedFrom;
    SecondCompaction(v, w.db);
    SecondPicked(v, w.db);
    ExposedReader(w, 1, [T11(v)], [T8(v)], [T12(v)], 2, GONE, Old(v));
  }
}
