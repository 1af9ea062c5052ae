/** Installing an edit also logs it: the manifest keeps listing the current version
    (VersionSet::LogAndApply, WriteSnapshot and Recover in db/version_set.cc). */
module Manifest {
  import opened DbFormat
  import opened Version
  import opened VersionEdits
  import opened CompactionSafety
  import opened Install
  import opened State

  // ---- Edits ----------------------------------------------------------------------------------

  function FilesAt(level: nat, fs: Level): (r: seq<(nat, File)>)
    ensures |r| == |fs| && forall i :: 0 <= i < |r| ==> r[i] == (level, fs[i])
  {
    seq(|fs|, i requires 0 <= i < |fs| => (level, fs[i]))
  }

  function NumbersAt(level: nat, fs: Level): set<(nat, nat)> {
    set f | f in fs :: (level, f.number)
  }

  function AddFilesEdit(level: nat, fs: Level): VersionEdit {
    VersionEdit({}, FilesAt(level, fs), None, None, None)
  }

  /** Compaction::AddInputDeletions plus the outputs (also a trivial move, with the file as its output). */
  function CompactionEdit(level: nat, in0: Level, in1: Level, outs: Level): VersionEdit {
    VersionEdit(NumbersAt(level, in0) + NumbersAt(level + 1, in1), FilesAt(level + 1, outs), None, None, None)
  }

  ghost predicate DistinctNumbers(fs: Level) {
    forall i, j :: 0 <= i < j < |fs| ==> fs[i].number != fs[j].number
  }

  lemma FilesAtAdds(level: nat, fs: Level, l: nat)
    ensures forall f :: AddsAt(FilesAt(level, fs), l, f) <==> f in OnlyAt(l, level, fs)
  {
    forall f | f in fs ensures (level, f) in FilesAt(level, fs) {
      var i :| 0 <= i < |fs| && fs[i] == f;
      assert FilesAt(level, fs)[i] == (level, f);
    }
  }

  lemma FilesAtFresh(level: nat, fs: Level, l: nat, used: set<nat>)
    requires DistinctNumbers(fs) && forall f :: f in OnlyAt(l, level, fs) ==> f.number !in used
    ensures FreshAdds(FilesAt(level, fs), l, used)
  {
    forall n | n in AddedNumbers(FilesAt(level, fs), l) ensures n !in used {
      var p :| p in FilesAt(level, fs) && p.0 == l && p.1.number == n;
      assert p.1 in fs;
    }
  }

  /** Which files an edit removes, said with files instead of numbers. */
  lemma DeletedMatches(levels: Levels, level: nat, in0: Level, in1: Level, l: nat, f: File)
    requires UniqueNumbers(levels) && Split(levels, level, in0, in1) && l < |levels| && f in levels[l]
    ensures f.number in DeletedAt(CompactionEdit(level, in0, in1, []), l) <==> f in InputsAt(level, in0, in1, l)
  {
    var deleted := NumbersAt(level, in0) + NumbersAt(level + 1, in1);
    if f in InputsAt(level, in0, in1, l) {
      assert (l, f.number) in deleted;
    }
    if (l, f.number) in deleted {
      if (l, f.number) in NumbersAt(level, in0) {
        var g :| g in in0 && (l, f.number) == (level, g.number);
        assert g in levels[level];
      } else {
        var g :| g in in1 && (l, f.number) == (level + 1, g.number);
        assert g in levels[level + 1];
      }
    }
  }

  // ---- The manifest after one more record -----------------------------------------------------

  /** All adds of the edit are numbers its level and all deeper ones never listed. */
  ghost predicate SinkingAdds(manifest: seq<VersionEdit>, edit: VersionEdit, size: nat, bound: nat) {
    forall l, f :: 0 <= l < size && AddsAt(edit.newFiles, l, f) ==>
      f.number < bound && forall m :: l <= m < size ==> f.number !in Seen(manifest, m)
  }

  lemma SeenStep(manifest: seq<VersionEdit>, edit: VersionEdit, l: nat)
    requires FreshAdds(edit.newFiles, l, Seen(manifest, l))
    ensures Seen(manifest + [edit], l) == Seen(manifest, l) + AddedNumbers(edit.newFiles, l)
  {
    assert (manifest + [edit])[..|manifest|] == manifest;
    var st := Accumulate(manifest, l);
    var dropped := LevelState(st.deleted + DeletedAt(edit, l), st.added);
    AddAllEffect(dropped, edit.newFiles, l);
    var after := Accumulate(manifest + [edit], l);
    assert after == AddAll(dropped, edit.newFiles, l);
    forall n | n in AddedNumbers(edit.newFiles, l) ensures n in Numbers(after.added) {
      var p :| p in edit.newFiles && p.0 == l && p.1.number == n;
      assert AddsAt(edit.newFiles, l, p.1);
    }
    forall n | n in Numbers(after.added) ensures n in Numbers(st.added) + AddedNumbers(edit.newFiles, l) {
      var f :| f in after.added && f.number == n;
      if AddsAt(edit.newFiles, l, f) {
        assert (l, f) in edit.newFiles;
      }
    }
  }

  lemma ListsStep(manifest: seq<VersionEdit>, levels: Levels, edit: VersionEdit)
    requires Lists(manifest, levels)
    requires forall l :: 0 <= l < |levels| ==> FreshAdds(edit.newFiles, l, Seen(manifest, l))
    ensures Lists(manifest + [edit], InstallEdit(levels, edit))
  {
    var longer, after := manifest + [edit], InstallEdit(levels, edit);
    assert longer[..|manifest|] == manifest;
    forall l | 0 <= l < |after| ensures NeverReadded([], longer, l) && after[l] == InstallAll([], longer, l) {
      assert Numbers([]) == {};
      assert {} + Seen(manifest, l) == Seen(manifest, l);
    }
  }

  /** The files listed at one level by the manifest were all seen there. */
  lemma ListedIsSeen(manifest: seq<VersionEdit>, levels: Levels, l: nat, f: File)
    requires Lists(manifest, levels) && l < |levels| && f in levels[l]
    ensures f.number in Seen(manifest, l)
  {
    AccumulateRepresents([], manifest, l);
    assert Represents([], Accumulate(manifest, l), levels[l]);
  }

  lemma ListedSorted(manifest: seq<VersionEdit>, levels: Levels, l: nat)
    requires Lists(manifest, levels) && l < |levels|
    ensures SmallestSorted(levels[l])
  {
    AccumulateRepresents([], manifest, l);
  }

  /** Membership after one more record. */
  lemma MembersStep(manifest: seq<VersionEdit>, levels: Levels, edit: VersionEdit, l: nat)
    requires Lists(manifest, levels) && l < |levels| && FreshAdds(edit.newFiles, l, Seen(manifest, l))
    ensures var after := InstallLevel(levels[l], edit, l);
            SmallestSorted(after) &&
            forall f :: f in after <==>
              (f in levels[l] && f.number !in DeletedAt(edit, l)) || AddsAt(edit.newFiles, l, f)
  {
    ListedSorted(manifest, levels, l);
    assert Numbers(levels[l]) <= Seen(manifest, l) by {
      forall f | f in levels[l] ensures f.number in Seen(manifest, l) {
        ListedIsSeen(manifest, levels, l, f);
      }
    }
    InstallLevelEffect(levels[l], edit, l);
  }

  lemma AddedIsListed(levels: Levels, edit: VersionEdit, m: nat, n: nat) returns (g: File)
    requires n in AddedNumbers(edit.newFiles, m)
    ensures g.number == n && AddsAt(edit.newFiles, m, g)
  {
    var p :| p in edit.newFiles && p.0 == m && p.1.number == n;
    g := p.1;
    assert (m, g) == p;
  }

  ghost predicate Members(levels: Levels, edit: VersionEdit, after: Levels) {
    |after| == |levels| &&
    forall l, f :: 0 <= l < |after| ==>
      (f in after[l] <==> (f in levels[l] && f.number !in DeletedAt(edit, l)) || AddsAt(edit.newFiles, l, f))
  }

  lemma SinksStep(manifest: seq<VersionEdit>, levels: Levels, edit: VersionEdit, after: Levels, bound: nat,
                  newBound: nat)
    requires Sinks(manifest, levels, bound) && bound <= newBound
    requires forall l :: 0 <= l < |levels| ==> FreshAdds(edit.newFiles, l, Seen(manifest, l))
    requires SinkingAdds(manifest, edit, |levels|, newBound)
    requires |after| == |levels| && Members(levels, edit, after) && UniqueNumbers(after)
    ensures Sinks(manifest + [edit], after, newBound)
  {
    var longer := manifest + [edit];
    hide FreshAdds, UniqueNumbers, Seen, Members;
    forall l, m, f | 0 <= l < m < |after| && f in after[l] ensures f.number !in Seen(longer, m) {
      SeenStep(manifest, edit, m);
      StaysAbove(manifest, levels, edit, after, bound, newBound, l, m, f);
    }
    forall l, n | 0 <= l < |after| && n in Seen(longer, l) ensures n < newBound {
      SeenStep(manifest, edit, l);
      if n in AddedNumbers(edit.newFiles, l) {
        var g := AddedIsListed(levels, edit, l, n);
      }
    }
    forall l, f | 0 <= l < |after| && f in after[l] ensures f.number < newBound {
      MemberAt(levels, edit, after, l, f);
    }
  }

  lemma MemberAt(levels: Levels, edit: VersionEdit, after: Levels, l: nat, f: File)
    requires Members(levels, edit, after) && l < |levels|
    ensures |after| == |levels|
    ensures f in after[l] ==> f in levels[l] || AddsAt(edit.newFiles, l, f)
    ensures AddsAt(edit.newFiles, l, f) ==> f in after[l]
  {
  }

  lemma StaysAbove(manifest: seq<VersionEdit>, levels: Levels, edit: VersionEdit, after: Levels, bound: nat,
                   newBound: nat, l: nat, m: nat, f: File)
    requires Sinks(manifest, levels, bound) && SinkingAdds(manifest, edit, |levels|, newBound)
    requires Members(levels, edit, after) && UniqueNumbers(after)
    requires l < m < |levels| && |after| == |levels| && f in after[l]
    ensures f.number !in Seen(manifest, m) + AddedNumbers(edit.newFiles, m)
  {
    hide Seen, Members;
    MemberAt(levels, edit, after, l, f);
    if f.number in AddedNumbers(edit.newFiles, m) {
      var g := AddedIsListed(levels, edit, m, f.number);
      MemberAt(levels, edit, after, m, g);
      assert false;
    }
  }
}
