/** When replaying a manifest through one Builder gives the files that installing its edits one by one gave
    (VersionSet::Builder, VersionSet::Recover in db/version_set.cc). */
module Replay {
  import opened DbFormat
  import opened Version
  import opened VersionEdits

  // ---- Lists of files, position by position --------------------------------------------------------

  /** What BySmallestKey compares. */
  datatype Slot = Slot(smallest: InternalKey, number: nat)

  function SlotOf(f: File): Slot { Slot(f.smallest, f.number) }

  /** The files of a list at one position, in their order. */
  function OnSlot(fs: Level, s: Slot): Level {
    if fs == [] then [] else (if SlotOf(fs[0]) == s then [fs[0]] else []) + OnSlot(fs[1..], s)
  }

  /** In BySmallestKey order, possibly with several files at one position. */
  ghost predicate Ascending(fs: Level) {
    forall i, j :: 0 <= i < j < |fs| ==> !BySmallest(fs[j], fs[i])
  }

  lemma {:induction false} SlotIsUsed(fs: Level, s: Slot)
    ensures OnSlot(fs, s) != [] <==> exists f :: f in fs && SlotOf(f) == s
  {
    if fs != [] {
      assert forall f :: f in fs <==> f == fs[0] || f in fs[1..];
      SlotIsUsed(fs[1..], s);
    }
  }

  lemma AscendingHead(fs: Level)
    requires Ascending(fs) && fs != []
    ensures Ascending(fs[1..]) && forall f :: f in fs ==> !BySmallest(f, fs[0])
  {
    assert forall j :: 0 <= j < |fs[1..]| ==> fs[1..][j] == fs[j + 1];
  }

  lemma AscendingCons(f: File, rest: Level)
    requires Ascending(rest) && forall x :: x in rest ==> !BySmallest(x, f)
    ensures Ascending([f] + rest)
  {
    assert forall j :: 0 <= j < |rest| ==> rest[j] in rest;
  }

  /** Positions are totally ordered. */
  lemma SameSlot(f: File, g: File)
    ensures !BySmallest(f, g) && !BySmallest(g, f) <==> SlotOf(f) == SlotOf(g)
  {
    SamePosition(f.smallest, g.smallest);
  }

  lemma SlotOrder(f: File, g: File, h: File)
    requires !BySmallest(g, f) && !BySmallest(h, g)
    ensures !BySmallest(h, f) && (BySmallest(f, g) || BySmallest(g, h) ==> BySmallest(f, h))
  {
  }

  /** Ordered lists are equal if they are at every position. */
  lemma {:induction false} AgreeBySlots(a: Level, b: Level)
    requires Ascending(a) && Ascending(b) && forall s :: OnSlot(a, s) == OnSlot(b, s)
    ensures a == b
    decreases |a|
  {
    hide Ascending, BySmallest, OnSlot;
    if a == [] || b == [] {
      OneIsEmpty(a, b);
    } else {
      AscendingHead(a);
      AscendingHead(b);
      SlotIsUsed(a, SlotOf(b[0]));
      SlotIsUsed(b, SlotOf(b[0]));
      SlotIsUsed(a, SlotOf(a[0]));
      SlotIsUsed(b, SlotOf(a[0]));
      assert a[0] in a && b[0] in b;
      var f :| f in a && SlotOf(f) == SlotOf(b[0]);
      var g :| g in b && SlotOf(g) == SlotOf(a[0]);
      SlotsOnly(f, b[0], a[0]);
      SlotsOnly(g, a[0], b[0]);
      SameSlot(a[0], b[0]);
      HeadOnSlot(a);
      HeadOnSlot(b);
      forall s ensures OnSlot(a[1..], s) == OnSlot(b[1..], s) {
        TailOnSlot(a, s);
        TailOnSlot(b, s);
      }
      AgreeBySlots(a[1..], b[1..]);
      assert a == [a[0]] + a[1..] && b == [b[0]] + b[1..];
    }
  }

  lemma OneIsEmpty(a: Level, b: Level)
    requires (a == [] || b == []) && forall s :: OnSlot(a, s) == OnSlot(b, s)
    ensures a == b
  {
    if a != [] {
      HeadOnSlot(a);
    } else if b != [] {
      HeadOnSlot(b);
    }
  }

  /** Only the position counts in a comparison. */
  lemma SlotsOnly(f: File, g: File, h: File)
    requires SlotOf(f) == SlotOf(g)
    ensures BySmallest(f, h) <==> BySmallest(g, h)
  {
  }

  lemma HeadOnSlot(fs: Level)
    requires fs != []
    ensures OnSlot(fs, SlotOf(fs[0])) != [] && OnSlot(fs, SlotOf(fs[0]))[0] == fs[0]
  {
  }

  lemma TailOnSlot(fs: Level, s: Slot)
    requires fs != []
    ensures OnSlot(fs, s) == (if SlotOf(fs[0]) == s then [fs[0]] else []) + OnSlot(fs[1..], s)
    ensures OnSlot(fs[1..], s) == if SlotOf(fs[0]) == s then OnSlot(fs, s)[1..] else OnSlot(fs, s)
  {
    assert [] + OnSlot(fs[1..], s) == OnSlot(fs[1..], s);
  }

  // ---- What the builder does at one position -------------------------------------------------------

  lemma OnSlotAppend(a: Level, b: Level, s: Slot)
    ensures OnSlot(a + b, s) == OnSlot(a, s) + OnSlot(b, s)
    decreases |a|
  {
    if a == [] {
      assert [] + b == b;
    } else {
      assert (a + b)[1..] == a[1..] + b;
      OnSlotAppend(a[1..], b, s);
    }
  }

  lemma SortedAscends(fs: Level)
    requires SmallestSorted(fs)
    ensures Ascending(fs)
  {
    forall i, j | 0 <= i < j < |fs| ensures !BySmallest(fs[j], fs[i]) {
      assert BySmallest(fs[i], fs[j]);
    }
  }

  /** A file before which nothing of the list stands has no file of the list at its position, if it comes first. */
  lemma NotInLater(f: File, fs: Level)
    requires Ascending(fs) && (fs != [] ==> BySmallest(f, fs[0]))
    ensures OnSlot(fs, SlotOf(f)) == []
  {
    SlotIsUsed(fs, SlotOf(f));
    if fs != [] {
      AscendingHead(fs);
      forall g | g in fs ensures SlotOf(g) != SlotOf(f) {
        SlotOrder(f, fs[0], g);
        SameSlot(f, g);
      }
    }
  }

  lemma MaybeOnSlot(f: File, deleted: set<nat>, rest: Level, s: Slot)
    ensures OnSlot(MaybeAddFile(f, deleted) + rest, s) ==
            (if SlotOf(f) == s && f.number !in deleted then [f] else []) + OnSlot(rest, s)
  {
    assert [] + rest == rest && [] + OnSlot(rest, s) == OnSlot(rest, s);
    assert ([f] + rest)[1..] == rest;
  }

  /** SaveTo drops a deleted number and puts the base files of a position before the added ones. */
  lemma {:induction false} SaveOnSlot(base: Level, added: Level, deleted: set<nat>, s: Slot)
    requires Ascending(base) && Ascending(added)
    ensures OnSlot(SaveLevel(base, added, deleted), s) ==
            if s.number in deleted then [] else OnSlot(base, s) + OnSlot(added, s)
    decreases |base| + |added|
  {
    hide Ascending, BySmallest, OnSlot, MaybeAddFile;
    EmptyOnSlot(s);
    if added == [] {
      if base != [] {
        AscendingHead(base);
        SaveOnSlot(base[1..], [], deleted, s);
        MaybeOnSlot(base[0], deleted, SaveLevel(base[1..], [], deleted), s);
        TailOnSlot(base, s);
      }
    } else if base != [] && !BySmallest(added[0], base[0]) {
      AscendingHead(base);
      SaveOnSlot(base[1..], added, deleted, s);
      MaybeOnSlot(base[0], deleted, SaveLevel(base[1..], added, deleted), s);
      TailOnSlot(base, s);
    } else {
      AscendingHead(added);
      SaveOnSlot(base, added[1..], deleted, s);
      MaybeOnSlot(added[0], deleted, SaveLevel(base, added[1..], deleted), s);
      TailOnSlot(added, s);
      NotInLater(added[0], base);
    }
  }

  lemma EmptyOnSlot(s: Slot)
    ensures OnSlot([], s) == []
  {
  }

  lemma {:induction false} SaveAscends(base: Level, added: Level, deleted: set<nat>)
    requires Ascending(base) && Ascending(added)
    ensures Ascending(SaveLevel(base, added, deleted))
    decreases |base| + |added|
  {
    hide Ascending, BySmallest, MaybeAddFile;
    if added == [] {
      if base == [] {
        NothingAscends();
      } else {
        AscendingHead(base);
        SaveAscends(base[1..], [], deleted);
        SaveLevelMembers(base[1..], [], deleted);
        MaybeAscends(base[0], SaveLevel(base[1..], [], deleted), deleted);
      }
    } else if base != [] && !BySmallest(added[0], base[0]) {
      AscendingHead(base);
      SaveAscends(base[1..], added, deleted);
      SaveLevelMembers(base[1..], added, deleted);
      AllLater(base[0], added);
      MaybeAscends(base[0], SaveLevel(base[1..], added, deleted), deleted);
    } else {
      AscendingHead(added);
      SaveAscends(base, added[1..], deleted);
      SaveLevelMembers(base, added[1..], deleted);
      if base != [] {
        NotBoth(added[0], base[0]);
      }
      AllLater(added[0], base);
      MaybeAscends(added[0], SaveLevel(base, added[1..], deleted), deleted);
    }
  }

  lemma NothingAscends()
    ensures Ascending([])
  {
  }

  lemma NotBoth(f: File, g: File)
    ensures BySmallest(f, g) ==> !BySmallest(g, f)
  {
  }

  /** What is not before the head of an ordered list is not before any of it. */
  lemma AllLater(f: File, fs: Level)
    requires Ascending(fs) && (fs != [] ==> !BySmallest(fs[0], f))
    ensures forall g :: g in fs ==> !BySmallest(g, f)
  {
    hide Ascending, BySmallest;
    if fs != [] {
      AscendingHead(fs);
      forall g | g in fs ensures !BySmallest(g, f) {
        SlotOrder(f, fs[0], g);
      }
    }
  }

  lemma MaybeAscends(f: File, rest: Level, deleted: set<nat>)
    requires Ascending(rest) && forall x :: x in rest ==> !BySmallest(x, f)
    ensures Ascending(MaybeAddFile(f, deleted) + rest)
  {
    hide Ascending, BySmallest;
    AscendingCons(f, rest);
    assert [] + rest == rest;
  }

  /** std::set::insert keeps the file that has the position already. */
  lemma {:induction false} InsertOnSlot(f: File, fs: Level, s: Slot)
    requires SmallestSorted(fs)
    ensures OnSlot(InsertFile(f, fs), s) == if SlotOf(f) == s && OnSlot(fs, s) == [] then [f] else OnSlot(fs, s)
  {
    if fs == [] {
      assert [f][1..] == [];
    } else {
      TailOf(fs);
      SortedAscends(fs);
      if BySmallest(f, fs[0]) {
        NotInLater(f, fs);
        assert ([f] + fs)[1..] == fs;
      } else if BySmallest(fs[0], f) {
        InsertOnSlot(f, fs[1..], s);
        var rest := InsertFile(f, fs[1..]);
        assert ([fs[0]] + rest)[1..] == rest;
        SameSlot(fs[0], f);
      } else {
        SameSlot(fs[0], f);
      }
    }
  }

  /** The first file that the list adds at a position of the level, if there is one. */
  function FirstAdded(newFiles: seq<(nat, File)>, level: nat, s: Slot): (r: Level)
    ensures |r| <= 1
  {
    if newFiles == [] then []
    else if newFiles[0].0 == level && SlotOf(newFiles[0].1) == s then [newFiles[0].1]
    else FirstAdded(newFiles[1..], level, s)
  }

  lemma {:induction false} AddAllOnSlot(st: LevelState, newFiles: seq<(nat, File)>, level: nat, s: Slot)
    requires SmallestSorted(st.added)
    ensures var r := AddAll(st, newFiles, level);
            && OnSlot(r.added, s) ==
                 (if OnSlot(st.added, s) != [] then OnSlot(st.added, s) else FirstAdded(newFiles, level, s))
            && (s.number in r.deleted <==> s.number in st.deleted && s.number !in AddedNumbers(newFiles, level))
    decreases |newFiles|
  {
    hide SmallestSorted, OnSlot, InsertFile;
    if newFiles != [] {
      var (l, f) := newFiles[0];
      var rest := newFiles[1..];
      assert forall p :: p in newFiles <==> p == newFiles[0] || p in rest;
      assert forall n :: n in AddedNumbers(newFiles, level) <==>
        (l == level && n == f.number) || n in AddedNumbers(rest, level) by {
        assert l == level ==> f.number in AddedNumbers(newFiles, level);
      }
      if l == level {
        AddOneSorted(st, f);
        InsertOnSlot(f, st.added, s);
        AddAllOnSlot(AddOne(st, f), rest, level, s);
      } else {
        AddAllOnSlot(st, rest, level, s);
      }
    }
  }

  // ---- Whole manifests -----------------------------------------------------------------------------

  /** What an edit adds at a position: the first of its files there. */
  function At(e: VersionEdit, level: nat, s: Slot): Level { FirstAdded(e.newFiles, level, s) }

  ghost predicate Adds(e: VersionEdit, level: nat, n: nat) { n in AddedNumbers(e.newFiles, level) }

  /** The edit takes the number off the level; additions in the same edit undo a deletion. */
  ghost predicate Drops(e: VersionEdit, level: nat, n: nat) { n in DeletedAt(e, level) && !Adds(e, level, n) }

  lemma {:induction false} AtAdds(newFiles: seq<(nat, File)>, level: nat, s: Slot)
    ensures FirstAdded(newFiles, level, s) != [] ==>
              s.number in AddedNumbers(newFiles, level) && SlotOf(FirstAdded(newFiles, level, s)[0]) == s
  {
    if newFiles != [] {
      assert forall p :: p in newFiles <==> p == newFiles[0] || p in newFiles[1..];
      AtAdds(newFiles[1..], level, s);
    }
  }

  /** The number is marked as deleted after a replay. */
  ghost predicate Gone(es: seq<VersionEdit>, level: nat, n: nat) {
    es != [] &&
    var before, e := es[..|es| - 1], es[|es| - 1];
    Drops(e, level, n) || (Gone(before, level, n) && !Adds(e, level, n))
  }

  /** What a replay holds at a position: the first file ever added there. */
  function Recorded(es: seq<VersionEdit>, level: nat, s: Slot): (r: Level)
    ensures |r| <= 1
  {
    if es == [] then []
    else if Recorded(es[..|es| - 1], level, s) != [] then Recorded(es[..|es| - 1], level, s)
    else At(es[|es| - 1], level, s)
  }

  /** What installing the edits one by one leaves at a position. */
  ghost function Installed(es: seq<VersionEdit>, level: nat, s: Slot): Level {
    if es == [] then []
    else
      var e := es[|es| - 1];
      if Drops(e, level, s.number) then [] else Installed(es[..|es| - 1], level, s) + At(e, level, s)
  }

  function Replayed(es: seq<VersionEdit>, level: nat): Level {
    var st := Accumulate(es, level);
    SaveLevel([], st.added, st.deleted)
  }

  lemma {:induction false} AccumulatedOnSlot(es: seq<VersionEdit>, level: nat, s: Slot)
    ensures OnSlot(Accumulate(es, level).added, s) == Recorded(es, level, s)
    ensures s.number in Accumulate(es, level).deleted <==> Gone(es, level, s.number)
  {
    hide OnSlot, AddAll, FirstAdded;
    if es == [] {
      EmptyOnSlot(s);
    } else {
      var before, e := es[..|es| - 1], es[|es| - 1];
      AccumulatedOnSlot(before, level, s);
      var st := Accumulate(before, level);
      AddAllOnSlot(LevelState(st.deleted + DeletedAt(e, level), st.added), e.newFiles, level, s);
    }
  }

  lemma ReplayedOnSlot(es: seq<VersionEdit>, level: nat, s: Slot)
    ensures Ascending(Replayed(es, level))
    ensures OnSlot(Replayed(es, level), s) == if Gone(es, level, s.number) then [] else Recorded(es, level, s)
  {
    hide OnSlot, Accumulate, SaveLevel, Recorded, Gone, Ascending, SmallestSorted;
    var st := Accumulate(es, level);
    NothingAscends();
    SortedAscends(st.added);
    SaveAscends([], st.added, st.deleted);
    SaveOnSlot([], st.added, st.deleted, s);
    EmptyOnSlot(s);
    AccumulatedOnSlot(es, level, s);
    assert [] + OnSlot(st.added, s) == OnSlot(st.added, s);
  }

  lemma InstallOnSlot(base: Level, e: VersionEdit, level: nat, s: Slot)
    requires Ascending(base)
    ensures Ascending(InstallLevel(base, e, level))
    ensures OnSlot(InstallLevel(base, e, level), s) ==
            if Drops(e, level, s.number) then [] else OnSlot(base, s) + At(e, level, s)
  {
    hide OnSlot, AddAll, SaveLevel, FirstAdded, Ascending;
    var st := ApplyLevel(EMPTY_STATE, e, level);
    EmptyOnSlot(s);
    AddAllOnSlot(LevelState({} + DeletedAt(e, level), []), e.newFiles, level, s);
    SortedAscends(st.added);
    SaveAscends(base, st.added, st.deleted);
    SaveOnSlot(base, st.added, st.deleted, s);
  }

  lemma {:induction false} InstalledOnSlot(es: seq<VersionEdit>, level: nat, s: Slot)
    ensures Ascending(InstallAll([], es, level))
    ensures OnSlot(InstallAll([], es, level), s) == Installed(es, level, s)
  {
    hide OnSlot, InstallLevel, Ascending, At, Drops;
    if es == [] {
      EmptyOnSlot(s);
      NothingAscends();
    } else {
      var before, e := es[..|es| - 1], es[|es| - 1];
      InstalledOnSlot(before, level, s);
      InstallOnSlot(InstallAll([], before, level), e, level, s);
    }
  }

  /** Replaying and installing agree exactly if they do at every position. */
  lemma AgreementBySlots(es: seq<VersionEdit>, level: nat)
    ensures Replayed(es, level) == InstallAll([], es, level) <==>
              forall s :: Installed(es, level, s) == if Gone(es, level, s.number) then [] else Recorded(es, level, s)
  {
    hide OnSlot, Replayed, InstallAll, Installed, Gone, Recorded, Ascending;
    forall s: Slot
      ensures Ascending(Replayed(es, level)) && Ascending(InstallAll([], es, level))
      ensures OnSlot(InstallAll([], es, level), s) == Installed(es, level, s)
      ensures OnSlot(Replayed(es, level), s) == if Gone(es, level, s.number) then [] else Recorded(es, level, s)
    {
      ReplayedOnSlot(es, level, s);
      InstalledOnSlot(es, level, s);
    }
    ReplayedOnSlot(es, level, Slot(InternalKey(0, 0, TypeValue), 0));
    InstalledOnSlot(es, level, Slot(InternalKey(0, 0, TypeValue), 0));
    if forall s :: Installed(es, level, s) == if Gone(es, level, s.number) then [] else Recorded(es, level, s) {
      AgreeBySlots(Replayed(es, level), InstallAll([], es, level));
    }
  }

  // ---- The condition on the edits ------------------------------------------------------------------

  /** The edits from this one on come after the last one that drops the number. */
  ghost function Since(es: seq<VersionEdit>, level: nat, n: nat): (r: nat)
    ensures r <= |es|
  {
    if es == [] then 0 else if Drops(es[|es| - 1], level, n) then |es| else Since(es[..|es| - 1], level, n)
  }

  /** The number has been added since it was last dropped. */
  ghost predicate Listed(es: seq<VersionEdit>, level: nat, n: nat) {
    exists j :: Since(es, level, n) <= j < |es| && Adds(es[j], level, n)
  }

  /** Edit i is the first one with a file at this position. */
  ghost predicate FirstAt(es: seq<VersionEdit>, level: nat, s: Slot, i: nat)
    ensures FirstAt(es, level, s, i) ==> i < |es|
  {
    i < |es| && At(es[i], level, s) != [] && forall h :: 0 <= h < i ==> At(es[h], level, s) == []
  }

  /** Edit j is the only one with a file at this position since the number was last dropped. */
  ghost predicate OnlyAt(es: seq<VersionEdit>, level: nat, s: Slot, j: nat)
    ensures OnlyAt(es, level, s, j) ==> j < |es|
  {
    && Since(es, level, s.number) <= j < |es| && At(es[j], level, s) != []
    && forall k :: Since(es, level, s.number) <= k < |es| && At(es[k], level, s) != [] ==> k == j
  }

  /** Every position ever recorded for a number that is still listed is recorded by exactly one edit since the number
      was last dropped, and with the file that was recorded there first. */
  ghost predicate Replayable(es: seq<VersionEdit>, level: nat) {
    forall s, i: nat :: FirstAt(es, level, s, i) && Listed(es, level, s.number) ==>
      exists j: nat :: OnlyAt(es, level, s, j) && At(es[j], level, s) == At(es[i], level, s)
  }

  lemma {:induction false} RecordedFirst(es: seq<VersionEdit>, level: nat, s: Slot) returns (i: nat)
    ensures Recorded(es, level, s) != [] ==> FirstAt(es, level, s, i) && Recorded(es, level, s) == At(es[i], level, s)
    ensures Recorded(es, level, s) == [] ==> forall h :: 0 <= h < |es| ==> At(es[h], level, s) == []
  {
    hide At;
    i := 0;
    if es != [] {
      var before := es[..|es| - 1];
      i := RecordedFirst(before, level, s);
      if Recorded(before, level, s) == [] {
        i := |es| - 1;
        assert forall h :: 0 <= h < |before| ==> before[h] == es[h];
      }
    }
  }

  lemma FirstIsUnique(es: seq<VersionEdit>, level: nat, s: Slot, i: nat, h: nat)
    requires FirstAt(es, level, s, i) && FirstAt(es, level, s, h)
    ensures i == h
  {
  }

  lemma {:induction false} NothingInstalled(es: seq<VersionEdit>, level: nat, s: Slot)
    ensures Installed(es, level, s) == [] <==>
              forall k :: Since(es, level, s.number) <= k < |es| ==> At(es[k], level, s) == []
  {
    hide At, Drops;
    if es != [] {
      var before := es[..|es| - 1];
      NothingInstalled(before, level, s);
      assert forall h :: 0 <= h < |before| ==> before[h] == es[h];
    }
  }

  lemma {:induction false} OneInstalled(es: seq<VersionEdit>, level: nat, s: Slot, j: nat)
    requires OnlyAt(es, level, s, j)
    ensures Installed(es, level, s) == At(es[j], level, s)
  {
    hide At, Drops;
    var before, last := es[..|es| - 1], |es| - 1;
    assert forall h :: 0 <= h < |before| ==> before[h] == es[h];
    if j == last {
      NothingInstalled(before, level, s);
      assert [] + At(es[j], level, s) == At(es[j], level, s);
    } else {
      OneInstalled(before, level, s, j);
      assert At(es[last], level, s) == [];
      assert At(es[j], level, s) + [] == At(es[j], level, s);
    }
  }

  lemma {:induction false} FindOnly(es: seq<VersionEdit>, level: nat, s: Slot) returns (j: nat)
    requires |Installed(es, level, s)| == 1
    ensures OnlyAt(es, level, s, j)
  {
    hide At, Drops;
    var before, last := es[..|es| - 1], |es| - 1;
    assert forall h :: 0 <= h < |before| ==> before[h] == es[h];
    if Installed(before, level, s) == [] {
      j := last;
      NothingInstalled(before, level, s);
    } else {
      j := FindOnly(before, level, s);
    }
  }

  /** A number that was added at all is gone exactly if it is not listed. */
  lemma {:induction false} GoneOrListed(es: seq<VersionEdit>, level: nat, n: nat, i: nat)
    requires i < |es| && Adds(es[i], level, n)
    ensures Gone(es, level, n) <==> !Listed(es, level, n)
  {
    hide Adds, Drops;
    var before, last := es[..|es| - 1], |es| - 1;
    assert forall h :: 0 <= h < |before| ==> before[h] == es[h];
    if Adds(es[last], level, n) {
      NotDropped(es[last], level, n);
    } else {
      GoneOrListed(before, level, n, i);
    }
  }

  lemma NotDropped(e: VersionEdit, level: nat, n: nat)
    requires Adds(e, level, n)
    ensures !Drops(e, level, n)
  {
  }

  /** Replaying a manifest from nothing gives what installing its edits one by one gave if and only if every position
      of a listed number is recorded by exactly one edit since the number was last dropped, and as it was first. */
  lemma ReplayEqualsInstallingIff(es: seq<VersionEdit>, level: nat)
    ensures Replayed(es, level) == InstallAll([], es, level) <==> Replayable(es, level)
  {
    hide Replayed, InstallAll, Installed, Gone, Recorded, At, Listed, FirstAt, OnlyAt, Since, Adds;
    AgreementBySlots(es, level);
    if Replayed(es, level) == InstallAll([], es, level) {
      forall s, i: nat | FirstAt(es, level, s, i) && Listed(es, level, s.number)
        ensures exists j: nat :: OnlyAt(es, level, s, j) && At(es[j], level, s) == At(es[i], level, s)
      {
        var j := AgreesThenOnly(es, level, s, i);
      }
    }
    if Replayable(es, level) {
      forall s: Slot
        ensures Installed(es, level, s) == if Gone(es, level, s.number) then [] else Recorded(es, level, s) {
        ReplayableThenAgrees(es, level, s);
      }
    }
  }

  lemma AgreesThenOnly(es: seq<VersionEdit>, level: nat, s: Slot, i: nat) returns (j: nat)
    requires Installed(es, level, s) == if Gone(es, level, s.number) then [] else Recorded(es, level, s)
    requires FirstAt(es, level, s, i) && Listed(es, level, s.number)
    ensures OnlyAt(es, level, s, j) && At(es[j], level, s) == At(es[i], level, s)
  {
    hide Installed, Gone, Recorded, Listed, OnlyAt, Since, FirstAdded;
    AtAdds(es[i].newFiles, level, s);
    GoneOrListed(es, level, s.number, i);
    var h := RecordedFirst(es, level, s);
    FirstIsUnique(es, level, s, i, h);
    j := FindOnly(es, level, s);
    OneInstalled(es, level, s, j);
  }

  lemma ReplayableThenAgrees(es: seq<VersionEdit>, level: nat, s: Slot)
    requires Replayable(es, level)
    ensures Installed(es, level, s) == if Gone(es, level, s.number) then [] else Recorded(es, level, s)
  {
    hide Installed, Gone, Recorded, OnlyAt, Since, FirstAdded;
    var i := RecordedFirst(es, level, s);
    NothingInstalled(es, level, s);
    if Recorded(es, level, s) != [] {
      AtAdds(es[i].newFiles, level, s);
      GoneOrListed(es, level, s.number, i);
      if Listed(es, level, s.number) {
        var j: nat :| OnlyAt(es, level, s, j) && At(es[j], level, s) == At(es[i], level, s);
        OneInstalled(es, level, s, j);
      } else {
        forall k | Since(es, level, s.number) <= k < |es| ensures At(es[k], level, s) == [] {
          AtAdds(es[k].newFiles, level, s);
        }
      }
    }
  }

  // ---- The input on which they differ --------------------------------------------------------------

  /** A file is added, its number is dropped, and a file with that number is added again. */
  function AddDropAdd(f: File, g: File): seq<VersionEdit> {
    [VersionEdit({}, [(1, f)], None, None, None), VersionEdit({(1, f.number)}, [], None, None, None),
     VersionEdit({}, [(1, g)], None, None, None)]
  }

  /** Installing lists the second file alone. A replay does so only if it is the same file: otherwise it lists the
      first one too, or instead. */
  lemma ReaddedNumber(f: File, g: File)
    requires f.number == g.number
    ensures InstallAll([], AddDropAdd(f, g), 1) == [g]
    ensures Replayed(AddDropAdd(f, g), 1) == [g] <==> f == g
  {
    hide Installed, Recorded, Gone, Replayed, InstallAll, OnSlot, AddDropAdd;
    var es := AddDropAdd(f, g);
    forall s: Slot
      ensures Installed(es, 1, s) == (if SlotOf(g) == s then [g] else [])
      ensures Recorded(es, 1, s) == (if SlotOf(f) == s then [f] else if SlotOf(g) == s then [g] else [])
      ensures !Gone(es, 1, f.number)
      ensures OnSlot(InstallAll([], es, 1), s) == OnSlot([g], s) && Ascending(InstallAll([], es, 1))
    {
      ThreeEdits(f, g, s);
      InstalledOnSlot(es, 1, s);
      OneOnSlot(g, s);
    }
    ThreeEdits(f, g, SlotOf(f));
    InstalledOnSlot(es, 1, SlotOf(f));
    AgreeBySlots(InstallAll([], es, 1), [g]);
    AgreementBySlots(es, 1);
    if f != g {
      assert Installed(es, 1, SlotOf(f)) != Recorded(es, 1, SlotOf(f));
    }
  }

  lemma OneOnSlot(g: File, s: Slot)
    ensures OnSlot([g], s) == if SlotOf(g) == s then [g] else []
  {
    assert [g][1..] == [];
  }

  lemma ThreeEdits(f: File, g: File, s: Slot)
    requires f.number == g.number
    ensures var es := AddDropAdd(f, g);
            && Installed(es, 1, s) == (if SlotOf(g) == s then [g] else [])
            && Recorded(es, 1, s) == (if SlotOf(f) == s then [f] else if SlotOf(g) == s then [g] else [])
            && !Gone(es, 1, f.number)
  {
    var es := AddDropAdd(f, g);
    var add, drop, again := es[0], es[1], es[2];
    OneFileAdded(f, s);
    OneFileAdded(g, s);
    assert At(drop, 1, s) == [] && !Adds(drop, 1, f.number);
    assert (1, f.number) in drop.deletedFiles && f.number in DeletedAt(drop, 1);
    assert DeletedAt(add, 1) == {} == DeletedAt(again, 1);
    hide At, Adds, DeletedAt;
    assert es[..2] == [add, drop] && [add, drop][..1] == [add] && [add][..0] == [];
    assert Installed([add], 1, s) == At(add, 1, s);
    assert Installed([add, drop], 1, s) == if s.number == f.number then [] else Installed([add], 1, s);
    assert Recorded([add], 1, s) == At(add, 1, s);
    assert Recorded([add, drop], 1, s) == At(add, 1, s);
  }

  lemma OneFileAdded(f: File, s: Slot)
    ensures var e := VersionEdit({}, [(1, f)], None, None, None);
            At(e, 1, s) == (if SlotOf(f) == s then [f] else []) && Adds(e, 1, f.number)
  {
    var newFiles := [(1, f)];
    assert newFiles[1..] == [];
    assert FirstAdded(newFiles[1..], 1, s) == [];
    assert newFiles[0] in newFiles;
  }
}
