/** Version edits, the Builder that applies them, and manifest replay (db/version_edit.cc,
    VersionSet::Builder / LogAndApply / Recover / WriteSnapshot in db/version_set.cc). */
module VersionEdits {
  import opened DbFormat
  import opened Version

  datatype VersionEdit = VersionEdit(
    deletedFiles: set<(nat, nat)>,
    newFiles: seq<(nat, File)>,
    logNumber: Option<nat>,
    nextFile: Option<nat>,
    lastSequence: Option<nat>)

  function DeletedAt(edit: VersionEdit, level: nat): set<nat> {
    set p | p in edit.deletedFiles && p.0 == level :: p.1
  }

  ghost predicate AddsAt(newFiles: seq<(nat, File)>, level: nat, f: File) {
    (level, f) in newFiles
  }

  /** Pending changes to one level: deleted numbers, and added files in BySmallestKey order. */
  datatype LevelState = LevelState(deleted: set<nat>, added: Level)

  /** std::set::insert under BySmallestKey. */
  function InsertFile(f: File, fs: Level): (r: Level)
    requires SmallestSorted(fs)
    ensures SmallestSorted(r)
    ensures forall x :: x in r ==> x == f || x in fs
    ensures forall x :: x in fs ==> x in r
    ensures (forall x :: x in fs ==> x.number != f.number) ==> f in r
  {
    if fs == [] then [f]
    else if BySmallest(f, fs[0]) then
      assert ([f] + fs)[0] == f && forall i :: 1 <= i < |[f] + fs| ==> ([f] + fs)[i] == fs[i - 1];
      [f] + fs
    else if BySmallest(fs[0], f) then
      var rest := InsertFile(f, fs[1..]);
      assert forall x :: x in fs <==> x == fs[0] || x in fs[1..];
      assert forall x :: x in fs[1..] ==> BySmallest(fs[0], x) by {
        assert forall j :: 0 <= j < |fs[1..]| ==> fs[1..][j] == fs[j + 1];
      }
      assert forall j :: 0 <= j < |rest| ==> rest[j] in rest;
      [fs[0]] + rest
    else
      assert f.smallest == fs[0].smallest ==> f.number == fs[0].number;
      assert fs[0] in fs;
      SamePosition(f.smallest, fs[0].smallest);
      fs
  }

  /** Keys that compare equal are equal: nothing but the packed word and the user key is compared. */
  lemma SamePosition(a: InternalKey, b: InternalKey)
    ensures !Less(a, b) && !Less(b, a) ==> a == b
  {
  }

  /** The "Add new files" loop of Builder::Apply, for one level. */
  function AddAll(st: LevelState, newFiles: seq<(nat, File)>, level: nat): (r: LevelState)
    requires SmallestSorted(st.added)
    ensures SmallestSorted(r.added)
    decreases |newFiles|
  {
    if newFiles == [] then st
    else
      var (l, f) := newFiles[0];
      AddAll(if l == level then AddOne(st, f) else st, newFiles[1..], level)
  }

  lemma AddOneSorted(st: LevelState, f: File)
    requires SmallestSorted(st.added)
    ensures SmallestSorted(AddOne(st, f).added)
  {
  }

  /** A file is added; a deletion of its number is forgotten. */
  function AddOne(st: LevelState, f: File): LevelState
    requires SmallestSorted(st.added)
  {
    LevelState(st.deleted - {f.number}, InsertFile(f, st.added))
  }

  /** Builder::Apply, for one level: deletions first, then additions. */
  function ApplyLevel(st: LevelState, edit: VersionEdit, level: nat): (r: LevelState)
    requires SmallestSorted(st.added)
    ensures SmallestSorted(r.added)
  {
    AddAll(LevelState(st.deleted + DeletedAt(edit, level), st.added), edit.newFiles, level)
  }

  function MaybeAddFile(f: File, deleted: set<nat>): Level {
    if f.number in deleted then [] else [f]
  }

  /** Builder::SaveTo, for one level: merge, drop what is deleted. */
  function SaveLevel(base: Level, added: Level, deleted: set<nat>): Level
    decreases |base| + |added|
  {
    if added == [] then
      if base == [] then [] else MaybeAddFile(base[0], deleted) + SaveLevel(base[1..], [], deleted)
    else if base != [] && !BySmallest(added[0], base[0]) then
      MaybeAddFile(base[0], deleted) + SaveLevel(base[1..], added, deleted)
    else
      MaybeAddFile(added[0], deleted) + SaveLevel(base, added[1..], deleted)
  }

  lemma {:induction false} SaveLevelMembers(base: Level, added: Level, deleted: set<nat>)
    ensures forall f :: f in SaveLevel(base, added, deleted) <==> (f in base || f in added) && f.number !in deleted
    decreases |base| + |added|
  {
    if added == [] {
      if base != [] {
        assert forall x :: x in base <==> x == base[0] || x in base[1..];
        SaveLevelMembers(base[1..], [], deleted);
      }
    } else if base != [] && !BySmallest(added[0], base[0]) {
      assert forall x :: x in base <==> x == base[0] || x in base[1..];
      SaveLevelMembers(base[1..], added, deleted);
    } else {
      assert forall x :: x in added <==> x == added[0] || x in added[1..];
      SaveLevelMembers(base, added[1..], deleted);
    }
  }

  lemma Headed(f: File, rest: Level)
    requires SmallestSorted(rest) && forall x :: x in rest ==> BySmallest(f, x)
    ensures SmallestSorted([f] + rest)
  {
    assert forall j :: 0 <= j < |rest| ==> rest[j] in rest;
  }

  lemma TailOf(fs: Level)
    requires fs != [] && SmallestSorted(fs)
    ensures SmallestSorted(fs[1..]) && forall x :: x in fs[1..] ==> BySmallest(fs[0], x)
    ensures forall x :: x in fs <==> x == fs[0] || x in fs[1..]
  {
    assert forall j :: 0 <= j < |fs[1..]| ==> fs[1..][j] == fs[j + 1];
  }

  lemma HeadedMaybe(f: File, rest: Level, deleted: set<nat>)
    requires SmallestSorted(rest) && forall x :: x in rest ==> BySmallest(f, x)
    ensures SmallestSorted(MaybeAddFile(f, deleted) + rest)
  {
    hide SmallestSorted, BySmallest;
    Headed(f, rest);
    assert [] + rest == rest;
  }

  /** Merging two sorted lists without a common file gives a sorted list. */
  lemma {:induction false} SaveLevelSorted(base: Level, added: Level, deleted: set<nat>)
    requires SmallestSorted(base) && SmallestSorted(added)
    requires forall f, g :: f in base && g in added ==> f.number != g.number
    ensures SmallestSorted(SaveLevel(base, added, deleted))
    decreases |base| + |added|
  {
    hide SmallestSorted, BySmallest, MaybeAddFile;
    if added == [] {
      if base != [] {
        TailOf(base);
        SaveLevelSorted(base[1..], [], deleted);
        SaveLevelMembers(base[1..], [], deleted);
        HeadedMaybe(base[0], SaveLevel(base[1..], [], deleted), deleted);
      }
    } else if base != [] && !BySmallest(added[0], base[0]) {
      TailOf(base);
      assert base[0] in base && added[0] in added;
      SaveLevelSorted(base[1..], added, deleted);
      SaveLevelMembers(base[1..], added, deleted);
      BaseFirst(base, added);
      HeadedMaybe(base[0], SaveLevel(base[1..], added, deleted), deleted);
    } else {
      TailOf(added);
      SaveLevelSorted(base, added[1..], deleted);
      SaveLevelMembers(base, added[1..], deleted);
      AddedFirst(base, added);
      HeadedMaybe(added[0], SaveLevel(base, added[1..], deleted), deleted);
    }
  }

  /** The head of the list that the merge takes from comes before all that is left. */
  lemma BaseFirst(base: Level, added: Level)
    requires SmallestSorted(base) && SmallestSorted(added) && base != [] && added != []
    requires !BySmallest(added[0], base[0]) && added[0].number != base[0].number
    ensures forall x :: x in base[1..] || x in added ==> BySmallest(base[0], x)
  {
    TailOf(base);
    TailOf(added);
    SamePosition(base[0].smallest, added[0].smallest);
  }

  lemma AddedFirst(base: Level, added: Level)
    requires SmallestSorted(base) && SmallestSorted(added) && added != []
    requires base != [] ==> BySmallest(added[0], base[0])
    ensures forall x :: x in base || x in added[1..] ==> BySmallest(added[0], x)
  {
    TailOf(added);
    if base != [] {
      TailOf(base);
    }
  }

  /** A level list is determined by its members. */
  lemma {:induction false} SortedListsAgree(a: Level, b: Level)
    requires SmallestSorted(a) && SmallestSorted(b)
    requires forall f :: f in a <==> f in b
    ensures a == b
  {
    if a == [] {
      assert forall i :: 0 <= i < |b| ==> b[i] in b;
    } else {
      assert a[0] in a && a[0] in b;
      TailOf(a);
      TailOf(b);
      assert b[0] in b && b[0] in a;
      assert a[0] == b[0];
      forall f ensures f in a[1..] <==> f in b[1..] {
        if f == a[0] {
          assert !BySmallest(f, f);
        }
      }
      SortedListsAgree(a[1..], b[1..]);
      assert a == [a[0]] + a[1..] && b == [b[0]] + b[1..];
    }
  }

  function Numbers(fs: Level): set<nat> {
    set f | f in fs :: f.number
  }

  ghost function AddedNumbers(newFiles: seq<(nat, File)>, level: nat): set<nat> {
    set p | p in newFiles && p.0 == level :: p.1.number
  }

  /** The files an edit adds to a level have distinct numbers, none of them in `used`. */
  ghost predicate FreshAdds(newFiles: seq<(nat, File)>, level: nat, used: set<nat>) {
    && AddedNumbers(newFiles, level) !! used
    && forall i, j :: 0 <= i < j < |newFiles| && newFiles[i].0 == newFiles[j].0 == level ==>
         newFiles[i].1.number != newFiles[j].1.number
  }

  lemma {:induction false} AddAllEffect(st: LevelState, newFiles: seq<(nat, File)>, level: nat)
    requires SmallestSorted(st.added) && FreshAdds(newFiles, level, Numbers(st.added))
    ensures AddAll(st, newFiles, level).deleted == st.deleted - AddedNumbers(newFiles, level)
    ensures forall f :: f in AddAll(st, newFiles, level).added <==> f in st.added || AddsAt(newFiles, level, f)
    decreases |newFiles|
  {
    if newFiles != [] {
      var (l, f) := newFiles[0];
      var rest := newFiles[1..];
      assert forall p :: p in newFiles <==> p == newFiles[0] || p in rest;
      var next := if l == level then LevelState(st.deleted - {f.number}, InsertFile(f, st.added)) else st;
      assert (l, f) in newFiles;
      if l == level {
        assert f.number in AddedNumbers(newFiles, level);
        assert forall x :: x in st.added ==> x.number in Numbers(st.added);
        assert forall x :: x in next.added <==> x == f || x in st.added;
      }
      FreshTail(st, newFiles, level, next);
      AddAllEffect(next, rest, level);
      assert forall n :: n in AddedNumbers(newFiles, level) <==>
                         (l == level && n == f.number) || n in AddedNumbers(rest, level);
      assert forall x :: AddsAt(newFiles, level, x) <==> (l == level && x == f) || AddsAt(rest, level, x);
    }
  }

  lemma FreshTail(st: LevelState, newFiles: seq<(nat, File)>, level: nat, next: LevelState)
    requires newFiles != [] && FreshAdds(newFiles, level, Numbers(st.added))
    requires forall x :: x in next.added <==> x in st.added || (newFiles[0].0 == level && x == newFiles[0].1)
    ensures FreshAdds(newFiles[1..], level, Numbers(next.added))
  {
    var rest := newFiles[1..];
    forall n | n in AddedNumbers(rest, level) ensures n !in Numbers(next.added) {
      var p :| p in rest && p.0 == level && p.1.number == n;
      var i :| 0 <= i < |rest| && rest[i] == p;
      assert newFiles[i + 1] == p && p in newFiles;
      assert n in AddedNumbers(newFiles, level);
    }
    forall i, j | 0 <= i < j < |rest| && rest[i].0 == rest[j].0 == level
      ensures rest[i].1.number != rest[j].1.number
    {
      assert rest[i] == newFiles[i + 1] && rest[j] == newFiles[j + 1];
    }
  }

  const EMPTY_STATE := LevelState({}, [])

  /** One edit applied to one level of an existing version. */
  function InstallLevel(base: Level, edit: VersionEdit, level: nat): Level {
    var st := ApplyLevel(EMPTY_STATE, edit, level);
    SaveLevel(base, st.added, st.deleted)
  }

  lemma InstallLevelEffect(base: Level, edit: VersionEdit, level: nat)
    requires SmallestSorted(base) && FreshAdds(edit.newFiles, level, Numbers(base))
    ensures SmallestSorted(InstallLevel(base, edit, level))
    ensures forall f :: f in InstallLevel(base, edit, level) <==>
                        (f in base && f.number !in DeletedAt(edit, level)) || AddsAt(edit.newFiles, level, f)
  {
    var d := DeletedAt(edit, level);
    var st := ApplyLevel(EMPTY_STATE, edit, level);
    AddAllEffect(LevelState(d, []), edit.newFiles, level);
    assert LevelState({} + d, []) == LevelState(d, []);
    forall f, g | f in base && g in st.added ensures f.number != g.number {
      assert f.number in Numbers(base) && g.number in AddedNumbers(edit.newFiles, level) by {
        assert (level, g) in edit.newFiles;
      }
    }
    SaveLevelSorted(base, st.added, st.deleted);
    SaveLevelMembers(base, st.added, st.deleted);
    forall f | f in base ensures f.number !in AddedNumbers(edit.newFiles, level) {
      assert f.number in Numbers(base);
    }
    forall f | AddsAt(edit.newFiles, level, f) ensures f.number in AddedNumbers(edit.newFiles, level) {
      assert (level, f) in edit.newFiles;
    }
  }

  /** What one Builder holds for a level after Apply-ing all of `edits`, as VersionSet::Recover does. */
  function Accumulate(edits: seq<VersionEdit>, level: nat): (st: LevelState)
    ensures SmallestSorted(st.added)
  {
    if edits == [] then EMPTY_STATE
    else ApplyLevel(Accumulate(edits[..|edits| - 1], level), edits[|edits| - 1], level)
  }

  /** The same edits installed one by one, as a running database does. */
  function InstallAll(base: Level, edits: seq<VersionEdit>, level: nat): Level {
    if edits == [] then base
    else InstallLevel(InstallAll(base, edits[..|edits| - 1], level), edits[|edits| - 1], level)
  }

  /** No edit adds a file number to a level that listed it before. */
  ghost predicate NeverReadded(base: Level, edits: seq<VersionEdit>, level: nat) {
    edits == [] ||
    (var before := edits[..|edits| - 1];
     && NeverReadded(base, before, level)
     && FreshAdds(edits[|edits| - 1].newFiles, level, Numbers(base) + Numbers(Accumulate(before, level).added)))
  }

  ghost predicate Represents(base: Level, st: LevelState, files: Level) {
    forall f :: f in files <==> (f in base || f in st.added) && f.number !in st.deleted
  }

  lemma RepresentsStep(base: Level, st: LevelState, files: Level, edit: VersionEdit, level: nat)
    requires SmallestSorted(st.added) && SmallestSorted(files) && Represents(base, st, files)
    requires FreshAdds(edit.newFiles, level, Numbers(base) + Numbers(st.added))
    ensures Represents(base, ApplyLevel(st, edit, level), InstallLevel(files, edit, level))
    ensures SmallestSorted(InstallLevel(files, edit, level))
  {
    var d := DeletedAt(edit, level);
    AddAllEffect(LevelState(st.deleted + d, st.added), edit.newFiles, level);
    assert forall f :: f in base ==> f.number in Numbers(base);
    assert forall f :: f in st.added ==> f.number in Numbers(st.added);
    assert Numbers(files) <= Numbers(base) + Numbers(st.added);
    InstallLevelEffect(files, edit, level);
    forall f | AddsAt(edit.newFiles, level, f) ensures f.number in AddedNumbers(edit.newFiles, level) {
      assert (level, f) in edit.newFiles;
    }
  }

  lemma {:induction false} AccumulatedNumbersDiffer(base: Level, edits: seq<VersionEdit>, level: nat)
    requires NeverReadded(base, edits, level)
    ensures forall f, g :: f in base && g in Accumulate(edits, level).added ==> f.number != g.number
  {
    if edits != [] {
      var before, edit := edits[..|edits| - 1], edits[|edits| - 1];
      AccumulatedNumbersDiffer(base, before, level);
      var st := Accumulate(before, level);
      AddAllEffect(LevelState(st.deleted + DeletedAt(edit, level), st.added), edit.newFiles, level);
      forall f, g | f in base && AddsAt(edit.newFiles, level, g) ensures f.number != g.number {
        assert (level, g) in edit.newFiles && g.number in AddedNumbers(edit.newFiles, level);
        assert f.number in Numbers(base);
      }
    }
  }

  lemma {:induction false} AccumulateRepresents(base: Level, edits: seq<VersionEdit>, level: nat)
    requires SmallestSorted(base) && NeverReadded(base, edits, level)
    ensures Represents(base, Accumulate(edits, level), InstallAll(base, edits, level))
    ensures SmallestSorted(InstallAll(base, edits, level))
  {
    if edits != [] {
      var before, edit := edits[..|edits| - 1], edits[|edits| - 1];
      AccumulateRepresents(base, before, level);
      RepresentsStep(base, Accumulate(before, level), InstallAll(base, before, level), edit, level);
    }
  }

  /** Replaying a manifest through one Builder rebuilds exactly the list of files that installing the
      edits one after the other produced. */
  lemma ReplayEqualsInstalling(base: Level, edits: seq<VersionEdit>, level: nat)
    requires SmallestSorted(base) && NeverReadded(base, edits, level)
    ensures var st := Accumulate(edits, level);
            SaveLevel(base, st.added, st.deleted) == InstallAll(base, edits, level)
  {
    var st := Accumulate(edits, level);
    AccumulateRepresents(base, edits, level);
    AccumulatedNumbersDiffer(base, edits, level);
    SaveLevelSorted(base, st.added, st.deleted);
    SaveLevelMembers(base, st.added, st.deleted);
    SortedListsAgree(SaveLevel(base, st.added, st.deleted), InstallAll(base, edits, level));
  }

  /** `v` followed by the merge of what is left makes up the whole merge. */
  ghost predicate MergedSoFar(total: Level, v: Level, base: Level, pos: nat, added: Level, i: nat, deleted: set<nat>) {
    pos <= |base| && i <= |added| && total == v + SaveLevel(base[pos..], added[i..], deleted)
  }

  lemma TakeBase(total: Level, v: Level, base: Level, pos: nat, added: Level, i: nat, deleted: set<nat>)
    requires MergedSoFar(total, v, base, pos, added, i, deleted)
    requires pos < |base| && (i < |added| ==> !BySmallest(added[i], base[pos]))
    ensures MergedSoFar(total, v + MaybeAddFile(base[pos], deleted), base, pos + 1, added, i, deleted)
  {
    assert base[pos..][1..] == base[pos + 1..];
  }

  lemma TakeAdded(total: Level, v: Level, base: Level, pos: nat, added: Level, i: nat, deleted: set<nat>)
    requires MergedSoFar(total, v, base, pos, added, i, deleted)
    requires i < |added| && (pos < |base| ==> BySmallest(added[i], base[pos]))
    ensures MergedSoFar(total, v + MaybeAddFile(added[i], deleted), base, pos, added, i + 1, deleted)
  {
    assert added[i..][1..] == added[i + 1..];
  }

  /** VersionSet::Builder: gathers edits per level on top of a base version. */
  class Builder {
    const base: Levels
    var levels: seq<LevelState>

    ghost predicate Valid()
      reads this
    {
      |base| == |levels| == NUM_LEVELS && forall l :: 0 <= l < |levels| ==> SmallestSorted(levels[l].added)
    }

    constructor (base: Levels)
      requires |base| == NUM_LEVELS
      ensures Valid() && this.base == base
      ensures forall l :: 0 <= l < NUM_LEVELS ==> levels[l] == EMPTY_STATE
    {
      this.base := base;
      this.levels := seq(NUM_LEVELS, _ => EMPTY_STATE);
    }

    /** Builder::Apply: all deletions, each at its level, and then all additions, each of which also takes back a
        deletion of its number. A level that does not exist, which VersionEdit::DecodeFrom refuses, is passed over. */
    method Apply(edit: VersionEdit)
      requires Valid()
      modifies this`levels
      ensures Valid()
      ensures forall l :: 0 <= l < NUM_LEVELS ==> levels[l] == ApplyLevel(old(levels[l]), edit, l)
    {
      hide SmallestSorted, InsertFile;
      ghost var start := levels;
      DeleteFiles(edit);
      assert edit.newFiles[0..] == edit.newFiles;
      for i := 0 to |edit.newFiles|
        invariant Valid()
        invariant forall l :: 0 <= l < NUM_LEVELS ==>
                    AddAll(levels[l], edit.newFiles[i..], l) == ApplyLevel(start[l], edit, l)
      {
        var (level, f) := edit.newFiles[i];
        ghost var before := levels;
        assert edit.newFiles[i..][0] == edit.newFiles[i] && edit.newFiles[i..][1..] == edit.newFiles[i + 1..];
        if level < NUM_LEVELS {
          AddOneSorted(levels[level], f);
          levels := levels[level := AddOne(levels[level], f)];
        }
      }
      assert edit.newFiles[|edit.newFiles|..] == [];
    }

    /** The first loop of Apply; the files are taken in any order. */
    method DeleteFiles(edit: VersionEdit)
      requires Valid()
      modifies this`levels
      ensures Valid()
      ensures forall l :: 0 <= l < NUM_LEVELS ==>
                levels[l] == LevelState(old(levels[l].deleted) + DeletedAt(edit, l), old(levels[l].added))
    {
      hide SmallestSorted;
      ghost var start := levels;
      var rest := edit.deletedFiles;
      while rest != {}
        invariant Valid() && rest <= edit.deletedFiles
        invariant forall l :: 0 <= l < NUM_LEVELS ==> levels[l].added == start[l].added
        invariant forall l, n :: 0 <= l < NUM_LEVELS ==>
                    (n in levels[l].deleted <==>
                       n in start[l].deleted || ((l, n) in edit.deletedFiles && (l, n) !in rest))
        decreases |rest|
      {
        var p :| p in rest;
        var (level, number) := p;
        if level < NUM_LEVELS {
          levels := levels[level := levels[level].(deleted := levels[level].deleted + {number})];
        }
        rest := rest - {p};
      }
    }

    /** The merge loop of SaveTo for one level; std::upper_bound skips the base files that are not
        after the next added file. */
    static method MergeLevel(baseFiles: Level, added: Level, deleted: set<nat>) returns (v: Level)
      ensures v == SaveLevel(baseFiles, added, deleted)
    {
      v := [];
      var pos := 0;
      ghost var total := SaveLevel(baseFiles, added, deleted);
      assert baseFiles[0..] == baseFiles && added[0..] == added;
      for i := 0 to |added|
        invariant MergedSoFar(total, v, baseFiles, pos, added, i, deleted)
      {
        while pos < |baseFiles| && !BySmallest(added[i], baseFiles[pos])
          invariant MergedSoFar(total, v, baseFiles, pos, added, i, deleted)
        {
          TakeBase(total, v, baseFiles, pos, added, i, deleted);
          v := v + MaybeAddFile(baseFiles[pos], deleted);
          pos := pos + 1;
        }
        TakeAdded(total, v, baseFiles, pos, added, i, deleted);
        v := v + MaybeAddFile(added[i], deleted);
      }
      while pos < |baseFiles|
        invariant MergedSoFar(total, v, baseFiles, pos, added, |added|, deleted)
      {
        TakeBase(total, v, baseFiles, pos, added, |added|, deleted);
        v := v + MaybeAddFile(baseFiles[pos], deleted);
        pos := pos + 1;
      }
    }

    method SaveTo() returns (v: Levels)
      requires Valid()
      ensures |v| == NUM_LEVELS
      ensures forall l :: 0 <= l < NUM_LEVELS ==> v[l] == SaveLevel(base[l], levels[l].added, levels[l].deleted)
    {
      v := [];
      for l := 0 to NUM_LEVELS
        invariant |v| == l
        invariant forall m :: 0 <= m < l ==> v[m] == SaveLevel(base[m], levels[m].added, levels[m].deleted)
      {
        var files := MergeLevel(base[l], levels[l].added, levels[l].deleted);
        v := v + [files];
      }
    }
  }
}
