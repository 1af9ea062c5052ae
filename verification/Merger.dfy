/** The merging iterator: several sorted runs walked as one, in both directions (table/merger.cc). */
module Merger {
  import opened DbFormat
  import opened Version

  /** An iterator over one sorted run (a memtable, a table, or the tables of a level), positioned at one entry
      or at none. */
  class ListIterator {
    const entries: seq<Entry>
    var pos: int

    constructor (entries: seq<Entry>)
      ensures this.entries == entries && !Valid()
    {
      this.entries := entries;
      this.pos := -1;
    }

    predicate Valid()
      reads this
    {
      0 <= pos < |entries|
    }

    method SeekToFirst()
      modifies this
      ensures pos == 0
    {
      pos := 0;
    }

    method SeekToLast()
      modifies this
      ensures pos == |entries| - 1
    {
      pos := |entries| - 1;
    }

    method Seek(target: InternalKey)
      modifies this
      ensures pos == Version.Seek(entries, target)
    {
      pos := Version.Seek(entries, target);
    }

    method Next()
      requires Valid()
      modifies this
      ensures pos == old(pos) + 1
    {
      pos := pos + 1;
    }

    method Prev()
      requires Valid()
      modifies this
      ensures pos == old(pos) - 1
    {
      pos := pos - 1;
    }
  }

  // ---- Cutting the merged list -----------------------------------------------------------------

  /** The entries of one child from position p on lie at or after place q of the merged list, and those before p
      before it. */
  ghost predicate Cut(es: seq<Entry>, p: int, merged: seq<Entry>, q: int) {
    && 0 <= p <= |es| && 0 <= q <= |merged|
    && (forall j :: 0 <= j < p ==> es[j] in merged[..q])
    && (forall j :: p <= j < |es| ==> es[j] in merged[q..])
  }

  lemma CutStart(es: seq<Entry>, merged: seq<Entry>)
    requires forall x :: x in es ==> x in merged
    ensures Cut(es, 0, merged, 0) && Cut(es, |es|, merged, |merged|)
  {
    assert merged[0..] == merged && merged[..|merged|] == merged;
  }

  /** Moving the cut over one merged entry moves the place in the child that holds it, and no other. */
  lemma CutStep(es: seq<Entry>, p: int, merged: seq<Entry>, q: nat)
    requires Sorted(es) && Sorted(merged) && q < |merged|
    ensures merged[q] !in es ==> (Cut(es, p, merged, q) <==> Cut(es, p, merged, q + 1))
    ensures 0 <= p < |es| && es[p] == merged[q] ==> (Cut(es, p, merged, q) <==> Cut(es, p + 1, merged, q + 1))
  {
    assert merged[..q + 1] == merged[..q] + [merged[q]];
    assert merged[q..] == [merged[q]] + merged[q + 1..];
    assert merged[q] !in merged[..q] && merged[q] !in merged[q + 1..];
  }

  /** Seeking cuts every run at the same place. */
  lemma SeekCuts(es: seq<Entry>, merged: seq<Entry>, target: InternalKey)
    requires Sorted(es) && Sorted(merged) && forall x :: x in es ==> x in merged
    ensures Cut(es, Seek(es, target), merged, Seek(merged, target))
  {
    var p, q := Seek(es, target), Seek(merged, target);
    forall j | 0 <= j < |es| ensures j < p ==> es[j] in merged[..q] ensures j >= p ==> es[j] in merged[q..] {
      assert es[j] in es;
      var i :| 0 <= i < |merged| && merged[i] == es[j];
      assert j < p ==> merged[..q][i] == es[j];
      assert j >= p ==> merged[q..][i - q] == es[j];
    }
  }

  lemma SeekOwnKey(merged: seq<Entry>, q: nat)
    requires Sorted(merged) && q < |merged|
    ensures Seek(merged, merged[q].key) == q
  {
    assert !Less(merged[q].key, merged[q].key);
  }

  datatype Direction = Forward | Reverse

  // ---- The iterator ----------------------------------------------------------------------------

  /** The children are distinct sorted runs that together hold each merged entry once. */
  ghost predicate Covers(children: seq<ListIterator>, merged: seq<Entry>) {
    && Sorted(merged)
    && (forall i, j :: 0 <= i < j < |children| ==> children[i] != children[j])
    && (forall i :: 0 <= i < |children| ==>
          Sorted(children[i].entries) && forall e :: e in children[i].entries ==> e in merged)
    && (forall i, j, e :: 0 <= i < j < |children| && e in children[i].entries ==> e !in children[j].entries)
    && (forall e :: e in merged ==> exists i :: 0 <= i < |children| && e in children[i].entries)
  }

  class MergingIterator {
    const children: seq<ListIterator>
    var current: int // index of the current child, -1 for none
    var direction: Direction
    ghost const merged: seq<Entry>
    ghost var pos: int

    ghost predicate Wired() {
      Covers(children, merged)
    }

    ghost predicate AllCut(shift: int, q: int)
      reads children
    {
      forall i :: 0 <= i < |children| ==> Cut(children[i].entries, children[i].pos + shift, merged, q)
    }

    /** The current child is at the merged entry; the others are at the next larger entry when moving forward,
        at the next smaller one when moving backward. */
    ghost predicate Consistent()
      reads this, children
      ensures Consistent() ==> Wired() && Sorted(merged) && -1 <= pos <= |merged| && (Valid() <==> 0 <= pos < |merged|)
    {
      && Wired() && -1 <= pos <= |merged| && -1 <= current < |children|
      && (Valid() <==> 0 <= pos < |merged|)
      && (Valid() ==> children[current].Valid() && children[current].entries[children[current].pos] == merged[pos])
      && (Valid() && direction == Forward ==> AllCut(0, pos))
      && (Valid() && direction == Reverse ==> AllCut(1, pos + 1))
    }

    predicate Valid()
      reads this
    {
      current >= 0
    }

    constructor (children: seq<ListIterator>, ghost merged: seq<Entry>)
      requires Covers(children, merged)
      ensures Consistent() && !Valid() && this.children == children && this.merged == merged
    {
      this.children, this.merged := children, merged;
      current, direction, pos := -1, Forward, -1;
    }

    /** The entry at place q is where some child stands. */
    lemma SmallestIs(q: nat) returns (c: nat)
      requires Wired() && AllCut(0, q) && q < |merged|
      ensures c < |children| && children[c].Valid() && children[c].entries[children[c].pos] == merged[q]
    {
      assert merged[q] in merged;
      c :| 0 <= c < |children| && merged[q] in children[c].entries;
      var es, p := children[c].entries, children[c].pos;
      var j :| 0 <= j < |es| && es[j] == merged[q];
      assert Cut(es, p + 0, merged, q);
      BothSides(merged, q, es[j]);
      assert merged[q..][0] == merged[q];
      AfterCut(merged, q, es[p]);
    }

    lemma NotBefore(q: nat, c: nat)
      requires Wired() && AllCut(0, q) && q < |merged| && c < |children| && children[c].Valid()
      ensures var e := children[c].entries[children[c].pos];
              e == merged[q] || Less(merged[q].key, e.key)
    {
      assert Cut(children[c].entries, children[c].pos + 0, merged, q);
      AfterCut(merged, q, children[c].entries[children[c].pos]);
    }

    lemma NoneAtEnd()
      requires AllCut(0, |merged|)
      ensures forall c :: 0 <= c < |children| ==> !children[c].Valid()
    {
      forall c | 0 <= c < |children| ensures !children[c].Valid() {
        CutAtEnd(children[c].entries, children[c].pos + 0, merged);
      }
    }

    method FindSmallest(ghost q: nat)
      requires Wired() && q <= |merged| && AllCut(0, q)
      modifies this`current, this`pos
      ensures pos == q && -1 <= current < |children| && (Valid() <==> q < |merged|)
      ensures Valid() ==> children[current].Valid() && children[current].entries[children[current].pos] == merged[q]
    {
      if q == |merged| {
        NoneAtEnd();
      }
      var smallest := -1;
      for i := 0 to |children|
        invariant -1 <= smallest < i
        invariant smallest == -1 ==> forall k :: 0 <= k < i ==> !children[k].Valid()
        invariant smallest >= 0 ==> children[smallest].Valid()
        invariant smallest >= 0 ==> forall k :: 0 <= k < i && children[k].Valid() ==>
                    !Less(children[k].entries[children[k].pos].key,
                          children[smallest].entries[children[smallest].pos].key)
      {
        var child := children[i];
        if child.Valid() {
          if smallest == -1 {
            smallest := i;
          } else if Less(child.entries[child.pos].key, children[smallest].entries[children[smallest].pos].key) {
            smallest := i;
          }
        }
      }
      current := smallest;
      pos := q;
      if q < |merged| {
        var c := SmallestIs(q);
        NotBefore(q, smallest);
      }
    }

    lemma LargestIs(q: nat) returns (c: nat)
      requires Wired() && q < |merged| && AllCut(1, q + 1)
      ensures c < |children| && children[c].Valid() && children[c].entries[children[c].pos] == merged[q]
    {
      assert merged[q] in merged;
      c :| 0 <= c < |children| && merged[q] in children[c].entries;
      var es, p := children[c].entries, children[c].pos;
      var j :| 0 <= j < |es| && es[j] == merged[q];
      assert Cut(es, p + 1, merged, q + 1);
      BothSides(merged, q + 1, es[j]);
      assert merged[..q + 1][q] == merged[q];
      BeforeCut(merged, q, es[p]);
    }

    lemma NotAfter(q: nat, c: nat)
      requires Wired() && AllCut(1, q + 1) && q < |merged| && c < |children| && children[c].Valid()
      ensures var e := children[c].entries[children[c].pos];
              e == merged[q] || Less(e.key, merged[q].key)
    {
      assert Cut(children[c].entries, children[c].pos + 1, merged, q + 1);
      BeforeCut(merged, q, children[c].entries[children[c].pos]);
    }

    lemma NoneAtStart()
      requires AllCut(1, 0)
      ensures forall c :: 0 <= c < |children| ==> !children[c].Valid()
    {
      forall c | 0 <= c < |children| ensures !children[c].Valid() {
        CutAtStart(children[c].entries, children[c].pos + 1, merged);
      }
    }

    method FindLargest(ghost q: int)
      requires Wired() && -1 <= q < |merged| && AllCut(1, q + 1)
      modifies this`current, this`pos
      ensures pos == q && -1 <= current < |children| && (Valid() <==> q >= 0)
      ensures Valid() ==> children[current].Valid() && children[current].entries[children[current].pos] == merged[q]
    {
      if q == -1 {
        NoneAtStart();
      }
      var largest := -1;
      for i := |children| downto 0
        invariant largest == -1 || i <= largest < |children|
        invariant largest == -1 ==> forall k :: i <= k < |children| ==> !children[k].Valid()
        invariant largest >= 0 ==> children[largest].Valid()
        invariant largest >= 0 ==> forall k :: i <= k < |children| && children[k].Valid() ==>
                    !Less(children[largest].entries[children[largest].pos].key,
                          children[k].entries[children[k].pos].key)
      {
        var child := children[i];
        if child.Valid() {
          if largest == -1 {
            largest := i;
          } else if Less(children[largest].entries[children[largest].pos].key, child.entries[child.pos].key) {
            largest := i;
          }
        }
      }
      current := largest;
      pos := q;
      if q >= 0 {
        var c := LargestIs(q);
        NotAfter(q, largest);
      }
    }

    method SeekToFirst()
      requires Wired()
      modifies this`current, this`direction, this`pos, children
      ensures Consistent() && pos == 0
    {
      for i := 0 to |children|
        invariant forall k :: 0 <= k < i ==> children[k].pos == 0
      {
        children[i].SeekToFirst();
      }
      forall i | 0 <= i < |children| ensures Cut(children[i].entries, children[i].pos + 0, merged, 0) {
        CutStart(children[i].entries, merged);
      }
      FindSmallest(0);
      direction := Forward;
    }

    method SeekToLast()
      requires Wired()
      modifies this`current, this`direction, this`pos, children
      ensures Consistent() && pos == |merged| - 1
    {
      for i := 0 to |children|
        invariant forall k :: 0 <= k < i ==> children[k].pos == |children[k].entries| - 1
      {
        children[i].SeekToLast();
      }
      forall i | 0 <= i < |children| ensures Cut(children[i].entries, children[i].pos + 1, merged, |merged|) {
        CutStart(children[i].entries, merged);
      }
      FindLargest(|merged| - 1);
      direction := Reverse;
    }

    method Seek(target: InternalKey)
      requires Wired()
      modifies this`current, this`direction, this`pos, children
      ensures Consistent() && pos == Version.Seek(merged, target)
    {
      for i := 0 to |children|
        invariant forall k :: 0 <= k < i ==> children[k].pos == Version.Seek(children[k].entries, target)
      {
        children[i].Seek(target);
      }
      ghost var q := Version.Seek(merged, target);
      forall i | 0 <= i < |children| ensures Cut(children[i].entries, children[i].pos + 0, merged, q) {
        SeekCuts(children[i].entries, merged, target);
      }
      FindSmallest(q);
      direction := Forward;
    }

    function Key(): (k: InternalKey)
      requires Consistent() && Valid()
      reads this, children
      ensures k == merged[pos].key
    {
      children[current].entries[children[current].pos].key
    }

    function GetValue(): (v: Value)
      requires Consistent() && Valid()
      reads this, children
      ensures v == merged[pos].value
    {
      children[current].entries[children[current].pos].value
    }

    /** No other child holds the current key. */
    lemma OthersSkip(q: nat, i: nat, p: int)
      requires Wired() && q < |merged| && 0 <= current < |children| && i < |children| && i != current
      requires merged[q] in children[current].entries
      ensures Cut(children[i].entries, p, merged, q) <==> Cut(children[i].entries, p, merged, q + 1)
      ensures 0 <= p < |children[i].entries| ==> children[i].entries[p].key != merged[q].key
    {
      assert merged[q] !in children[i].entries;
      CutStep(children[i].entries, p, merged, q);
      if 0 <= p < |children[i].entries| {
        SameKeySameEntry(merged, q, children[i].entries[p]);
      }
    }

    lemma CurrentSteps(q: nat, p: nat)
      requires Wired() && q < |merged| && 0 <= current < |children|
      requires p < |children[current].entries| && children[current].entries[p] == merged[q]
      ensures Cut(children[current].entries, p, merged, q) <==> Cut(children[current].entries, p + 1, merged, q + 1)
    {
      CutStep(children[current].entries, p, merged, q);
    }

    lemma ChildFacts(i: nat)
      requires Wired() && i < |children|
      ensures Sorted(merged) && Sorted(children[i].entries) && forall e :: e in children[i].entries ==> e in merged
    {
      hide Sorted;
    }

    lemma OthersDiffer()
      requires Wired() && 0 <= current < |children|
      ensures forall i :: 0 <= i < |children| && i != current ==> children[i] != children[current]
    {
    }

    /** The part of Next that turns around: every other child goes to its first entry after the current key. */
    method TurnForward()
      requires Consistent() && Valid() && direction == Reverse
      modifies this`direction, children
      ensures Consistent() && direction == Forward
    {
      hide Cut, Sorted, Wired, Covers, Version.Seek;
      OthersDiffer();
      ghost var q, c := pos, children[current];
      var key := Key();
      CurrentSteps(q, c.pos);
      SeekOwnKey(merged, q);
      for i := 0 to |children|
        invariant c.pos == old(c.pos)
        invariant forall k :: 0 <= k < i && k != current ==> Cut(children[k].entries, children[k].pos, merged, q)
      {
        if i != current {
          var child := children[i];
          ChildFacts(i);
          child.Seek(key);
          SeekCuts(child.entries, merged, key);
          OthersSkip(q, i, child.pos);
          if child.Valid() && child.entries[child.pos].key == key {
            assert false; // only the current child holds this key
          }
        }
      }
      assert Cut(c.entries, c.pos, merged, q);
      direction := Forward;
    }

    /** Stepping the current child forward moves every cut past the current entry. */
    lemma ReadyToStep()
      requires Consistent() && Valid() && direction == Forward
      ensures forall i :: 0 <= i < |children| ==>
                Cut(children[i].entries, if i == current then children[i].pos + 1 else children[i].pos, merged, pos + 1)
    {
      hide Cut, Sorted;
      CurrentSteps(pos, children[current].pos);
      forall i | 0 <= i < |children| && i != current
        ensures Cut(children[i].entries, children[i].pos, merged, pos + 1) {
        OthersSkip(pos, i, children[i].pos);
      }
    }

    /** current_->Next(): every cut moves past the current entry. */
    method StepForward()
      requires Consistent() && Valid() && direction == Forward
      modifies children
      ensures AllCut(0, pos + 1)
    {
      hide Cut, Sorted, Wired, Covers, Version.Seek;
      OthersDiffer();
      ReadyToStep();
      children[current].Next();
    }

    method Next()
      requires Consistent() && Valid()
      modifies this`current, this`direction, this`pos, children
      ensures Consistent() && pos == old(pos) + 1
    {
      if direction != Forward {
        TurnForward();
      }
      hide Cut, Sorted, Wired, Covers, AllCut, Version.Seek;
      StepForward();
      FindSmallest(pos + 1);
    }

    /** The part of Prev that turns around: every other child goes to its last entry before the current key. */
    method TurnBackward()
      requires Consistent() && Valid() && direction == Forward
      modifies this`direction, children
      ensures Consistent() && direction == Reverse
    {
      hide Cut, Sorted, Wired, Covers, Version.Seek;
      OthersDiffer();
      ghost var q, c := pos, children[current];
      var key := Key();
      CurrentSteps(q, c.pos);
      SeekOwnKey(merged, q);
      for i := 0 to |children|
        invariant c.pos == old(c.pos)
        invariant forall k :: 0 <= k < i && k != current ==>
                    Cut(children[k].entries, children[k].pos + 1, merged, q + 1)
      {
        if i != current {
          var child := children[i];
          ChildFacts(i);
          child.Seek(key);
          SeekCuts(child.entries, merged, key);
          OthersSkip(q, i, child.pos);
          if child.Valid() {
            child.Prev();
          } else {
            child.SeekToLast();
          }
        }
      }
      assert Cut(c.entries, c.pos + 1, merged, q + 1);
      direction := Reverse;
    }

    lemma ReadyToStepBack()
      requires Consistent() && Valid() && direction == Reverse
      ensures forall i :: 0 <= i < |children| ==>
                Cut(children[i].entries, if i == current then children[i].pos else children[i].pos + 1, merged, pos)
    {
      hide Cut, Sorted;
      CurrentSteps(pos, children[current].pos);
      forall i | 0 <= i < |children| && i != current
        ensures Cut(children[i].entries, children[i].pos + 1, merged, pos) {
        OthersSkip(pos, i, children[i].pos + 1);
      }
    }

    /** current_->Prev(): every cut moves before the current entry. */
    method StepBack()
      requires Consistent() && Valid() && direction == Reverse
      modifies children
      ensures AllCut(1, pos)
    {
      hide Cut, Sorted, Wired, Covers, Version.Seek;
      OthersDiffer();
      ReadyToStepBack();
      children[current].Prev();
    }

    method Prev()
      requires Consistent() && Valid()
      modifies this`current, this`direction, this`pos, children
      ensures Consistent() && pos == old(pos) - 1
    {
      if direction != Reverse {
        TurnBackward();
      }
      hide Cut, Sorted, Wired, Covers, AllCut, Version.Seek;
      StepBack();
      FindLargest(pos - 1);
    }
  }

  lemma SameKeySameEntry(merged: seq<Entry>, q: nat, e: Entry)
    requires Sorted(merged) && q < |merged| && e in merged && e != merged[q]
    ensures e.key != merged[q].key
  {
    var k :| 0 <= k < |merged| && merged[k] == e;
    assert k < q ==> Less(merged[k].key, merged[q].key);
    assert k > q ==> Less(merged[q].key, merged[k].key);
  }

  lemma CutAfter(es: seq<Entry>, p: int, merged: seq<Entry>, q: int, j: nat)
    requires Cut(es, p, merged, q) && p <= j < |es|
    ensures 0 <= q <= |merged| && es[j] in merged[q..]
  {
  }

  lemma CutBefore(es: seq<Entry>, p: int, merged: seq<Entry>, q: int, j: nat)
    requires Cut(es, p, merged, q) && j < p
    ensures 0 <= q <= |merged| && p <= |es| && es[j] in merged[..q]
  {
  }

  lemma CutAtEnd(es: seq<Entry>, p: int, merged: seq<Entry>)
    requires Cut(es, p, merged, |merged|)
    ensures p == |es|
  {
    assert p <= |es|;
    hide Cut;
    if p < |es| {
      CutAfter(es, p, merged, |merged|, p);
      assert false;
    }
  }

  lemma CutAtStart(es: seq<Entry>, p: int, merged: seq<Entry>)
    requires Cut(es, p, merged, 0)
    ensures p == 0
  {
    assert 0 <= p <= |es|;
    hide Cut;
    if p > 0 {
      CutBefore(es, p, merged, 0, 0);
      assert false;
    }
  }

  lemma BothSides(merged: seq<Entry>, q: int, e: Entry)
    requires Sorted(merged) && 0 <= q <= |merged|
    ensures !(e in merged[..q] && e in merged[q..])
  {
  }

  lemma AfterCut(merged: seq<Entry>, q: nat, e: Entry)
    requires Sorted(merged) && q < |merged| && e in merged[q..]
    ensures e == merged[q] || Less(merged[q].key, e.key)
  {
    var k :| 0 <= k < |merged[q..]| && merged[q..][k] == e;
    assert merged[q + k] == e;
  }

  lemma BeforeCut(merged: seq<Entry>, q: nat, e: Entry)
    requires Sorted(merged) && q < |merged| && e in merged[..q + 1]
    ensures e == merged[q] || Less(e.key, merged[q].key)
  {
    var k :| 0 <= k < |merged[..q + 1]| && merged[..q + 1][k] == e;
    assert merged[k] == e;
  }
}