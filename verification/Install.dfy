/** Installing an edit keeps the structural invariant of a version (VersionSet::LogAndApply). */
module Install {
  import opened DbFormat
  import opened Visibility
  import opened Version
  import opened VersionEdits
  import opened Picking
  import opened CompactionWork
  import opened CompactionSafety

  function InstallEdit(levels: Levels, edit: VersionEdit): (r: Levels)
    ensures |r| == |levels|
    ensures forall l :: 0 <= l < |levels| ==> r[l] == InstallLevel(levels[l], edit, l)
  {
    seq(|levels|, l requires 0 <= l < |levels| => InstallLevel(levels[l], edit, l))
  }

  // ---- From membership to lists ---------------------------------------------------------------

  predicate Apart(f: File, g: File) {
    Less(f.largest, g.smallest) || Less(g.largest, f.smallest)
  }

  ghost predicate PairwiseApart(fs: Level) {
    forall f, g :: f in fs && g in fs && f != g ==> Apart(f, g)
  }

  lemma SortedApartIsDisjoint(fs: Level)
    requires FilesOk(fs) && SmallestSorted(fs) && PairwiseApart(fs)
    ensures Disjoint(fs)
  {
    forall i, j | 0 <= i < j < |fs| ensures Less(fs[i].largest, fs[j].smallest) {
      assert BySmallest(fs[i], fs[j]);
      FileBounds(fs[i]);
      FileBounds(fs[j]);
      assert fs[i] in fs && fs[j] in fs && fs[i] != fs[j];
      assert Apart(fs[i], fs[j]);
    }
  }

  lemma DisjointIsApart(fs: Level)
    requires Disjoint(fs)
    ensures PairwiseApart(fs)
  {
  }

  // ---- Adding files to level 0 ----------------------------------------------------------------

  /** A list of new tables, oldest first, all newer than everything stored. */
  ghost predicate FreshTables(levels: Levels, files: Level) {
    && FilesOk(files)
    && (forall i, j :: 0 <= i < j < |files| ==>
          files[i].number < files[j].number && Newer(files[j].entries, files[i].entries))
    && (forall l, f, g :: 0 <= l < |levels| && f in levels[l] && g in files ==> f.number < g.number)
    && (forall l, f, g :: 0 <= l < |levels| && f in levels[l] && g in files ==> Newer(g.entries, f.entries))
  }

  /** `after` lists the files of `before` that are not `gone`, and the `added` ones. */
  ghost predicate Updated(before: Level, after: Level, gone: Level, added: Level) {
    SmallestSorted(after) && forall f :: f in after <==> (f in before && f !in gone) || f in added
  }

  function OnlyAt(l: int, level: nat, files: Level): Level {
    if l == level then files else []
  }

  ghost predicate AddedAt(levels: Levels, after: Levels, level: nat, files: Level) {
    |after| == |levels| &&
    forall l :: 0 <= l < |after| ==> Updated(levels[l], after[l], [], OnlyAt(l, level, files))
  }

  lemma Unchanged(before: Level, after: Level)
    requires SmallestSorted(before) && Updated(before, after, [], [])
    ensures after == before
  {
    SortedListsAgree(after, before);
  }

  lemma AddedAtZeroOk(levels: Levels, after: Levels, files: Level)
    requires VersionOk(levels) && FreshTables(levels, files) && AddedAt(levels, after, 0, files)
    ensures VersionOk(after)
  {
    forall l | 0 <= l < |after| ensures FilesOk(after[l]) {}
    forall l | 1 <= l < |after| ensures Disjoint(after[l]) {
      Unchanged(levels[l], after[l]);
    }
    AddedUnique(levels, after, 0, files);
    AddedNewerByNumber(levels, after, files);
    forall l, m, f, g | 0 <= l < m < |after| && f in after[l] && g in after[m] ensures Newer(f.entries, g.entries) {
      assert g in levels[m];
    }
  }

  lemma AddedNewerByNumber(levels: Levels, after: Levels, files: Level)
    requires |levels| > 0 && NewerByNumber(levels[0]) && FreshTables(levels, files) && AddedAt(levels, after, 0, files)
    ensures NewerByNumber(after[0])
  {
    hide FileOk, Newer, SmallestSorted;
    assert Updated(levels[0], after[0], [], files);
    forall f, g | f in after[0] && g in after[0] && f.number > g.number ensures Newer(f.entries, g.entries) {
      if f in files && g in files {
        FreshOrder(levels, files, f, g);
      }
    }
  }

  lemma FreshOrder(levels: Levels, files: Level, f: File, g: File)
    requires FreshTables(levels, files) && f in files && g in files && f.number > g.number
    ensures Newer(f.entries, g.entries)
  {
    hide Newer, FileOk;
    var i :| 0 <= i < |files| && files[i] == f;
    var j :| 0 <= j < |files| && files[j] == g;
  }

  lemma AddedUnique(levels: Levels, after: Levels, level: nat, files: Level)
    requires UniqueNumbers(levels) && FreshTables(levels, files) && AddedAt(levels, after, level, files)
    ensures UniqueNumbers(after)
  {
    hide FileOk, Newer, SmallestSorted;
    forall l, m, f, g | 0 <= l < |after| && 0 <= m < |after| && f in after[l] && g in after[m]
      ensures f.number == g.number ==> f == g && l == m
    {
      assert Updated(levels[l], after[l], [], OnlyAt(l, level, files));
      assert Updated(levels[m], after[m], [], OnlyAt(m, level, files));
      if f !in levels[l] && g !in levels[m] {
        FreshNumbers(levels, files, f, g);
      }
    }
  }

  lemma FreshNumbers(levels: Levels, files: Level, f: File, g: File)
    requires FreshTables(levels, files) && f in files && g in files
    ensures f.number == g.number ==> f == g
  {
    var i :| 0 <= i < |files| && files[i] == f;
    var j :| 0 <= j < |files| && files[j] == g;
  }

  /** A flushed table that skips to a deeper level, over levels that hold none of its key range. */
  lemma AddedDeepOk(levels: Levels, after: Levels, level: nat, f: File)
    requires VersionOk(levels) && FreshTables(levels, [f]) && 0 < level < |levels| && AddedAt(levels, after, level, [f])
    requires forall m :: 0 <= m <= level ==> Clear(levels, m, f.smallest.user, f.largest.user)
    ensures VersionOk(after)
  {
    assert f in [f];
    VersionLayered(levels);
    VersionSorted(levels);
    AddedUnique(levels, after, level, [f]);
    AddedDeepLayered(levels, after, level, f);
    hide Layered, UniqueNumbers, FileOk;
    forall l | 0 <= l < |after| ensures FilesOk(after[l]) && SmallestSorted(after[l]) {
      assert Updated(levels[l], after[l], [], OnlyAt(l, level, [f]));
    }
    forall l | 1 <= l < |after| ensures Disjoint(after[l]) {
      if l == level {
        AddedDisjoint(levels, after, level, f);
      } else {
        Unchanged(levels[l], after[l]);
      }
    }
    Unchanged(levels[0], after[0]);
  }

  lemma AddedDisjoint(levels: Levels, after: Levels, level: nat, f: File)
    requires VersionOk(levels) && FreshTables(levels, [f]) && 0 < level < |levels| && AddedAt(levels, after, level, [f])
    requires Clear(levels, level, f.smallest.user, f.largest.user) && FilesOk(after[level])
    requires SmallestSorted(after[level])
    ensures Disjoint(after[level])
  {
    assert f in [f];
    VersionSorted(levels);
    hide Layered, UniqueNumbers, FileOk;
    assert Updated(levels[level], after[level], [], OnlyAt(level, level, [f]));
    DisjointIsApart(levels[level]);
    ClearIsApart(levels, level, f);
    SortedApartIsDisjoint(after[level]);
  }

  lemma ClearIsApart(levels: Levels, level: nat, f: File)
    requires level < |levels| && FilesOk(levels[level]) && FileOk(f)
    requires Clear(levels, level, f.smallest.user, f.largest.user)
    ensures forall g :: g in levels[level] ==> Apart(f, g) && Newer(g.entries, f.entries)
  {
    FileBounds(f);
    forall g | g in levels[level] ensures Apart(f, g) && Newer(g.entries, f.entries) {
      FileBounds(g);
      assert !Overlaps(g, Some(f.smallest.user), Some(f.largest.user));
    }
  }

  lemma AddedDeepLayered(levels: Levels, after: Levels, level: nat, f: File)
    requires Layered(levels) && FreshTables(levels, [f]) && level < |levels| && AddedAt(levels, after, level, [f])
    requires forall l :: 0 <= l < |levels| ==> FilesOk(levels[l])
    requires forall m :: 0 <= m <= level ==> Clear(levels, m, f.smallest.user, f.largest.user)
    ensures Layered(after)
  {
    assert f in [f];
    forall l, m, x, y | 0 <= l < m < |after| && x in after[l] && y in after[m] ensures Newer(x.entries, y.entries) {
      if y !in levels[m] {
        assert y == f;
        ClearIsApart(levels, l, f);
      }
    }
  }

  // ---- Replacing the inputs of a compaction by its output --------------------------------------

  ghost predicate Replaced(levels: Levels, after: Levels, level: nat, in0: Level, in1: Level, outs: Level) {
    |after| == |levels| &&
    forall l :: 0 <= l < |after| ==>
      Updated(levels[l], after[l], InputsAt(level, in0, in1, l), OnlyAt(l, level + 1, outs))
  }

  /** Output tables hold input entries only, and their numbers clash with no file that stays. */
  ghost predicate Replacement(levels: Levels, level: nat, in0: Level, in1: Level, outs: Level) {
    && FilesOk(outs) && Disjoint(outs)
    && (forall e :: InFiles(outs, e) ==> InFiles(in0, e) || InFiles(in1, e))
    && (forall f, g :: f in outs && g in outs && f.number == g.number ==> f == g)
    && (forall l, f, g :: 0 <= l < |levels| && f in levels[l] && !Consumed(level, in0, in1, l, f) && g in outs ==>
          f.number != g.number)
  }

  lemma ReplacedUnique(levels: Levels, after: Levels, level: nat, in0: Level, in1: Level, outs: Level)
    requires UniqueNumbers(levels) && Replacement(levels, level, in0, in1, outs)
    requires Replaced(levels, after, level, in0, in1, outs)
    ensures UniqueNumbers(after)
  {
  }

  /** An untouched file of the next level lies entirely on one side of the user-key range compacted. */
  predicate Beyond(g: File, in0: Level)
    requires in0 != []
  {
    g.smallest.user > LargestKey(in0).user || g.largest.user < SmallestKey(in0).user
  }

  lemma UnpickedIsBeyond(levels: Levels, level: nat, in0: Level, in1: Level, g: File)
    requires Chosen(levels, level, in0, in1) && g in levels[level + 1] && g !in in1
    ensures Beyond(g, in0)
  {
    assert !Overlaps(g, Some(SmallestKey(in0).user), Some(LargestKey(in0).user));
  }

  lemma RangeCovers(levels: Levels, level: nat, in0: Level, h: File, e: Entry)
    requires level < |levels| && FilesOk(levels[level]) && Startable(levels[level], level, in0)
    requires h in in0 && e in h.entries
    ensures SmallestKey(in0).user <= e.key.user <= LargestKey(in0).user
  {
    StartableFiles(levels[level], level, in0);
    FileBounds(h);
    assert !Less(h.smallest, SmallestKey(in0)) && !Less(LargestKey(in0), h.largest);
  }

  lemma PickedBesideUnpicked(fs: Level, lo: UserKey, hi: UserKey, g: File, h: File, e: Entry)
    requires FilesOk(fs) && Disjoint(fs) && g in fs && h in fs && g != h
    requires Overlaps(h, Some(lo), Some(hi)) && e in h.entries
    ensures g.smallest.user > hi ==> Less(e.key, g.smallest)
    ensures g.largest.user < lo ==> Less(g.largest, e.key)
  {
    FileBounds(g);
    FileBounds(h);
    DisjointIsApart(fs);
    assert Apart(g, h);
  }

  /** An input entry is on the same side of an unpicked file as the compacted range. */
  lemma InputBesideUnpicked(levels: Levels, level: nat, in0: Level, in1: Level, g: File, e: Entry)
    requires Chosen(levels, level, in0, in1) && LevelsSorted(levels)
    requires g in levels[level + 1] && g !in in1 && (InFiles(in0, e) || InFiles(in1, e))
    ensures g.smallest.user > LargestKey(in0).user ==> Less(e.key, g.smallest)
    ensures g.largest.user < SmallestKey(in0).user ==> Less(g.largest, e.key)
  {
    hide Closed, Startable, FileOk, Disjoint;
    if InFiles(in0, e) {
      var h :| h in in0 && e in h.entries;
      RangeCovers(levels, level, in0, h, e);
    } else {
      var h :| h in in1 && e in h.entries;
      PickedBesideUnpicked(levels[level + 1], SmallestKey(in0).user, LargestKey(in0).user, g, h, e);
    }
  }

  lemma OutputBesideUnpicked(levels: Levels, level: nat, in0: Level, in1: Level, outs: Level, g: File, o: File)
    requires Chosen(levels, level, in0, in1) && LevelsSorted(levels) && Replacement(levels, level, in0, in1, outs)
    requires g in levels[level + 1] && g !in in1 && o in outs
    ensures Apart(g, o)
  {
    hide Chosen, LevelsSorted, Disjoint, Sorted;
    assert FileOk(o);
    var first, last := o.entries[0], o.entries[|o.entries| - 1];
    assert first in o.entries && last in o.entries;
    assert InFiles(outs, first) && InFiles(outs, last);
    UnpickedIsBeyond(levels, level, in0, in1, g);
    InputBesideUnpicked(levels, level, in0, in1, g, first);
    InputBesideUnpicked(levels, level, in0, in1, g, last);
  }

  lemma ReplacedLevelApart(levels: Levels, after: Levels, level: nat, in0: Level, in1: Level, outs: Level)
    requires Chosen(levels, level, in0, in1) && LevelsSorted(levels) && Replacement(levels, level, in0, in1, outs)
    requires Replaced(levels, after, level, in0, in1, outs)
    ensures PairwiseApart(after[level + 1])
  {
    assert Updated(levels[level + 1], after[level + 1], in1, outs);
    DisjointIsApart(levels[level + 1]);
    DisjointIsApart(outs);
    hide Chosen, LevelsSorted, Replacement, Apart, Replaced;
    forall f, g | f in after[level + 1] && g in after[level + 1] && f != g ensures Apart(f, g) {
      if f in outs && g !in outs {
        OutputBesideUnpicked(levels, level, in0, in1, outs, g, f);
        ApartSymmetric(f, g);
      } else if g in outs && f !in outs {
        OutputBesideUnpicked(levels, level, in0, in1, outs, f, g);
      }
    }
  }

  lemma ApartSymmetric(f: File, g: File)
    ensures Apart(f, g) == Apart(g, f)
  {
  }

  lemma ReplacedFiles(levels: Levels, after: Levels, level: nat, in0: Level, in1: Level, outs: Level)
    requires LevelsSorted(levels) && FilesOk(outs) && Replaced(levels, after, level, in0, in1, outs)
    ensures forall l :: 0 <= l < |after| ==> FilesOk(after[l]) && SmallestSorted(after[l])
  {
    forall l | 0 <= l < |after| ensures FilesOk(after[l]) && SmallestSorted(after[l]) {
      assert Updated(levels[l], after[l], InputsAt(level, in0, in1, l), OnlyAt(l, level + 1, outs));
    }
  }

  lemma FewerApart(before: Level, after: Level, gone: Level)
    requires Disjoint(before) && Updated(before, after, gone, [])
    ensures PairwiseApart(after)
  {
    DisjointIsApart(before);
  }

  lemma ReplacedDisjointAt(levels: Levels, after: Levels, level: nat, in0: Level, in1: Level, outs: Level, l: nat)
    requires Chosen(levels, level, in0, in1) && LevelsSorted(levels) && Replacement(levels, level, in0, in1, outs)
    requires Replaced(levels, after, level, in0, in1, outs) && 1 <= l < |after|
    ensures Disjoint(after[l])
  {
    hide *;
    ReplacedParts(levels, after, level, in0, in1, outs, l);
    ReplacedFiles(levels, after, level, in0, in1, outs);
    if l == level + 1 {
      ReplacedLevelApart(levels, after, level, in0, in1, outs);
    } else {
      FewerApart(levels[l], after[l], InputsAt(level, in0, in1, l));
    }
    SortedApartIsDisjoint(after[l]);
  }

  lemma ReplacedParts(levels: Levels, after: Levels, level: nat, in0: Level, in1: Level, outs: Level, l: nat)
    requires LevelsSorted(levels) && Replacement(levels, level, in0, in1, outs)
    requires Replaced(levels, after, level, in0, in1, outs) && 1 <= l < |after|
    ensures FilesOk(outs) && |after| == |levels| && Disjoint(levels[l])
    ensures l != level + 1 ==> Updated(levels[l], after[l], InputsAt(level, in0, in1, l), [])
  {
    hide FilesOk, Disjoint, Updated;
  }

  lemma ReplacedDisjoint(levels: Levels, after: Levels, level: nat, in0: Level, in1: Level, outs: Level)
    requires Chosen(levels, level, in0, in1) && LevelsSorted(levels) && Replacement(levels, level, in0, in1, outs)
    requires Replaced(levels, after, level, in0, in1, outs)
    ensures forall l :: 1 <= l < |after| ==> Disjoint(after[l])
  {
    hide *;
    forall l | 1 <= l < |after| ensures Disjoint(after[l]) {
      ReplacedDisjointAt(levels, after, level, in0, in1, outs, l);
    }
  }

  lemma SameLevelNewer(levels: Levels, level: nat, in0: Level, f: File, h: File, x: Entry, y: Entry)
    requires level < |levels| && UniqueNumbers(levels) && FilesOk(levels[level]) && Distinct(Tables(levels))
    requires (level > 0 ==> Disjoint(levels[level])) && (level == 0 ==> NewerByNumber(levels[level]))
    requires f in levels[level] && h in levels[level] && f != h && NotOlder(f, h)
    requires x in f.entries && y in h.entries && x.key.user == y.key.user
    ensures x.key.seqno > y.key.seqno
  {
    hide Disjoint, NewerByNumber, UniqueNumbers, FileOk;
    assert x in Tables(levels) && y in Tables(levels);
    if x == y {
      SameLevelEntry(levels, level, f, h, x);
      assert false;
    }
  }

  lemma ShallowerNewer(levels: Levels, l: nat, m: nat, f: File, h: File, x: Entry, y: Entry)
    requires Layered(levels) && l < m < |levels| && f in levels[l] && h in levels[m]
    requires x in f.entries && y in h.entries && x.key.user == y.key.user
    ensures x.key.seqno > y.key.seqno
  {
    assert Newer(f.entries, h.entries);
  }

  /** Entries of the kept files at `level` and above it are newer than the input entries. */
  lemma NewerThanInput(levels: Levels, level: nat, in0: Level, in1: Level, l: nat, f: File, x: Entry, y: Entry)
    requires VersionOk(levels) && Distinct(Tables(levels)) && Chosen(levels, level, in0, in1)
    requires l <= level && f in levels[l] && !Consumed(level, in0, in1, l, f) && x in f.entries
    requires (InFiles(in0, y) || InFiles(in1, y)) && x.key.user == y.key.user
    ensures x.key.seqno > y.key.seqno
  {
    hide VersionOk, Layered, Distinct, Chosen, NotOlder, UniqueNumbers;
    ChosenFiles(levels, level, in0, in1);
    VersionLayered(levels);
    if InFiles(in1, y) {
      var h :| h in in1 && y in h.entries;
      ShallowerNewer(levels, l, level + 1, f, h, x, y);
    } else {
      var h :| h in in0 && y in h.entries;
      if l < level {
        ShallowerNewer(levels, l, level, f, h, x, y);
      } else {
        VersionNumbers(levels);
        VersionLevel(levels, level);
        SameLevelNewer(levels, level, in0, f, h, x, y);
      }
    }
  }

  lemma NewerThanDeeper(levels: Levels, level: nat, in0: Level, in1: Level, m: nat, g: File, x: Entry, y: Entry)
    requires Layered(levels) && Chosen(levels, level, in0, in1)
    requires level + 1 < m < |levels| && g in levels[m] && y in g.entries
    requires (InFiles(in0, x) || InFiles(in1, x)) && x.key.user == y.key.user
    ensures x.key.seqno > y.key.seqno
  {
    hide Chosen, Closed, Layered, FileOk;
    ChosenFiles(levels, level, in0, in1);
    if InFiles(in0, x) {
      var h :| h in in0 && x in h.entries;
      ShallowerNewer(levels, level, m, h, g, x, y);
    } else {
      var h :| h in in1 && x in h.entries;
      ShallowerNewer(levels, level + 1, m, h, g, x, y);
    }
  }

  lemma KeptNewerThanOutput(levels: Levels, level: nat, in0: Level, in1: Level, outs: Level, l: nat, f: File, o: File)
    requires VersionOk(levels) && Distinct(Tables(levels)) && Chosen(levels, level, in0, in1)
    requires Replacement(levels, level, in0, in1, outs) && o in outs
    requires l <= level && f in levels[l] && !Consumed(level, in0, in1, l, f)
    ensures Newer(f.entries, o.entries)
  {
    hide VersionOk, Distinct, Chosen, FileOk, Disjoint;
    forall x, y | x in f.entries && y in o.entries && x.key.user == y.key.user ensures x.key.seqno > y.key.seqno {
      assert InFiles(outs, y);
      NewerThanInput(levels, level, in0, in1, l, f, x, y);
    }
  }

  lemma OutputNewerThanDeeper(levels: Levels, level: nat, in0: Level, in1: Level, outs: Level, m: nat, g: File, o: File)
    requires Layered(levels) && Chosen(levels, level, in0, in1)
    requires Replacement(levels, level, in0, in1, outs) && o in outs
    requires level + 1 < m < |levels| && g in levels[m]
    ensures Newer(o.entries, g.entries)
  {
    hide Layered, Chosen, FileOk, Disjoint;
    forall x, y | x in o.entries && y in g.entries && x.key.user == y.key.user ensures x.key.seqno > y.key.seqno {
      assert InFiles(outs, x);
      NewerThanDeeper(levels, level, in0, in1, m, g, x, y);
    }
  }

  lemma ReplacedLayered(levels: Levels, after: Levels, level: nat, in0: Level, in1: Level, outs: Level)
    requires VersionOk(levels) && Distinct(Tables(levels)) && Chosen(levels, level, in0, in1)
    requires Replacement(levels, level, in0, in1, outs) && Replaced(levels, after, level, in0, in1, outs)
    ensures Layered(after)
  {
    hide VersionOk, Distinct, Chosen, Replacement, Newer;
    VersionLayered(levels);
    forall l, m, f, g | 0 <= l < m < |after| && f in after[l] && g in after[m] ensures Newer(f.entries, g.entries) {
      assert Updated(levels[l], after[l], InputsAt(level, in0, in1, l), OnlyAt(l, level + 1, outs));
      assert Updated(levels[m], after[m], InputsAt(level, in0, in1, m), OnlyAt(m, level + 1, outs));
      if m == level + 1 && g in outs {
        KeptNewerThanOutput(levels, level, in0, in1, outs, l, f, g);
      } else if l == level + 1 && f in outs {
        OutputNewerThanDeeper(levels, level, in0, in1, outs, m, g, f);
      }
    }
  }

  /** Main structural result: installing the output of a chosen compaction (or a trivial move) keeps every
      level sorted and disjoint and every layer newer than the ones below it. */
  lemma ReplacedOk(levels: Levels, after: Levels, level: nat, in0: Level, in1: Level, outs: Level)
    requires VersionOk(levels) && Distinct(Tables(levels)) && Chosen(levels, level, in0, in1)
    requires Replacement(levels, level, in0, in1, outs) && Replaced(levels, after, level, in0, in1, outs)
    ensures VersionOk(after)
  {
    hide *;
    VersionNumbers(levels);
    VersionSorted(levels);
    VersionLevel(levels, 0);
    ReplacementFiles(levels, level, in0, in1, outs);
    ReplacedUnique(levels, after, level, in0, in1, outs);
    ReplacedFiles(levels, after, level, in0, in1, outs);
    ReplacedDisjoint(levels, after, level, in0, in1, outs);
    ReplacedLayered(levels, after, level, in0, in1, outs);
    ReplacedLevelZero(levels, after, level, in0, in1, outs);
    ToVersionOk(after);
  }

  lemma ReplacementFiles(levels: Levels, level: nat, in0: Level, in1: Level, outs: Level)
    requires Replacement(levels, level, in0, in1, outs)
    ensures FilesOk(outs)
  {
    hide FilesOk, Disjoint;
  }

  lemma ReplacedLevelZero(levels: Levels, after: Levels, level: nat, in0: Level, in1: Level, outs: Level)
    requires |levels| == NUM_LEVELS && NewerByNumber(levels[0]) && Replaced(levels, after, level, in0, in1, outs)
    ensures 0 < |after| == NUM_LEVELS && NewerByNumber(after[0])
  {
    hide Newer;
    assert Updated(levels[0], after[0], InputsAt(level, in0, in1, 0), []);
  }

  lemma ToVersionOk(levels: Levels)
    requires |levels| == NUM_LEVELS && NewerByNumber(levels[0]) && UniqueNumbers(levels) && Layered(levels)
    requires forall l :: 0 <= l < |levels| ==> FilesOk(levels[l]) && SmallestSorted(levels[l])
    requires forall l :: 1 <= l < |levels| ==> Disjoint(levels[l])
    ensures VersionOk(levels)
  {
    hide FilesOk, SmallestSorted, Disjoint, NewerByNumber, UniqueNumbers, Layered;
  }

  lemma ReplacedContents(levels: Levels, after: Levels, level: nat, in0: Level, in1: Level, outs: Level)
    requires level + 1 < |levels| && Replaced(levels, after, level, in0, in1, outs)
    ensures Tables(after) == EntriesOf(outs) + Rest(levels, level, in0, in1)
  {
    var rest := Rest(levels, level, in0, in1);
    forall e | e in Tables(after) ensures e in EntriesOf(outs) + rest {
      var l, f :| 0 <= l < |after| && f in after[l] && e in f.entries;
    }
    forall e | e in EntriesOf(outs) ensures e in Tables(after) {
      var f :| f in outs && e in f.entries;
      assert f in after[level + 1];
    }
    forall e | e in rest ensures e in Tables(after) {
      var l, f := InRest(levels, level, in0, in1, e);
      assert f in after[l];
    }
  }
}
