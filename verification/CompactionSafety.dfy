/** What a compaction does to readers: exactly when installing its output changes no answer. */
module CompactionSafety {
  import opened DbFormat
  import opened Visibility
  import opened Version
  import opened Picking
  import opened CompactionWork

  ghost function EntriesOf(fs: Level): set<Entry> {
    set f, e | f in fs && e in f.entries :: e
  }

  /** Entries of the files a compaction does not touch. */
  ghost function Rest(levels: Levels, level: nat, in0: Level, in1: Level): set<Entry> {
    set l, f, e | 0 <= l < |levels| && f in levels[l] && !Consumed(level, in0, in1, l, f) && e in f.entries :: e
  }

  /** The input files a compaction takes from level `l`. */
  function InputsAt(level: nat, in0: Level, in1: Level, l: int): Level {
    if l == level then in0 else if l == level + 1 then in1 else []
  }

  predicate Consumed(level: nat, in0: Level, in1: Level, l: int, f: File) {
    f in InputsAt(level, in0, in1, l)
  }

  /** Entries of the `level+1` files left out of the compaction. */
  ghost function Leftover(levels: Levels, level: nat, in1: Level): set<Entry>
    requires level + 1 < |levels|
  {
    set f, e | f in levels[level + 1] && f !in in1 && e in f.entries :: e
  }

  /** The compaction consumes a deletion of `k`, drops it as obsolete, and leaves an older value of `k` in
      a `level+1` file it did not pick: SetupOtherInputs does not extend the `level+1` inputs over
      boundary files. */
  ghost predicate ExposesAt(levels: Levels, level: nat, in0: Level, in1: Level, smallest: nat, k: UserKey, e: Entry,
                            r: Entry)
    requires level + 1 < |levels|
  {
    && Newest(Tables(levels), k, smallest, e)
    && e in EntriesOf(in0 + in1) && e.key.kind == TypeDeletion && BaseLevel(levels, level, k)
    && Newest(Leftover(levels, level, in1), k, e.key.seqno, r) && r.key.kind == TypeValue
  }

  ghost predicate Exposes(levels: Levels, level: nat, in0: Level, in1: Level, smallest: nat)
    requires level + 1 < |levels|
  {
    exists k, e, r :: ExposesAt(levels, level, in0, in1, smallest, k, e, r)
  }

  /** Membership of the entry sets a compaction works on. */
  ghost predicate Split(levels: Levels, level: nat, in0: Level, in1: Level) {
    && level + 1 < |levels|
    && (forall f :: f in in0 ==> f in levels[level])
    && (forall f :: f in in1 ==> f in levels[level + 1])
  }

  lemma TablesSplit(levels: Levels, level: nat, in0: Level, in1: Level)
    requires Split(levels, level, in0, in1)
    ensures Tables(levels) == EntriesOf(in0 + in1) + Rest(levels, level, in0, in1)
  {
    var all, parts := Tables(levels), EntriesOf(in0 + in1) + Rest(levels, level, in0, in1);
    forall e | e in all ensures e in parts {
      var l, f :| 0 <= l < |levels| && f in levels[l] && e in f.entries;
      if Consumed(level, in0, in1, l, f) {
        assert f in in0 + in1;
      }
    }
    forall e | e in EntriesOf(in0 + in1) ensures e in all {
      var f :| f in in0 + in1 && e in f.entries;
      if f in in0 {
        assert f in levels[level];
      } else {
        assert f in levels[level + 1];
      }
    }
  }

  /** Distinct entries: of two entries for one user key, the one ordered first is strictly newer. */
  lemma EarlierIsNewer(es: set<Entry>, x: Entry, y: Entry)
    requires Distinct(es) && x in es && y in es && x.key.user == y.key.user
    ensures Less(x.key, y.key) <==> x.key.seqno > y.key.seqno
  {
  }

  /** The part of the argument that needs no levels: I holds the input, R the rest, and the input
      loses `Dropped` entries. */
  ghost predicate Keeps(input: seq<Entry>, levels: Levels, level: nat, smallest: nat, kept: set<Entry>) {
    forall e :: e in kept <==> e in input && !Dropped(input, levels, level, smallest, e)
  }

  /** An entry that a reader at or above the smallest snapshot sees is dropped only as an obsolete
      deletion. */
  lemma NewestIsNotHidden(f: set<Entry>, input: seq<Entry>, k: UserKey, s: nat, smallest: nat, e: Entry)
    requires Distinct(f) && smallest <= s && Newest(f, k, s, e) && forall x :: x in input ==> x in f
    ensures !Hidden(input, smallest, e)
  {
    if Hidden(input, smallest, e) {
      var x :| x in input && x.key.user == e.key.user && Less(x.key, e.key) && x.key.seqno <= smallest;
      EarlierIsNewer(f, x, e);
      assert Visible(f, k, s, x);
      assert false;
    }
  }

  /** Below a dropped deletion the input keeps nothing. */
  lemma NothingKeptBelow(f: set<Entry>, input: seq<Entry>, levels: Levels, level: nat, smallest: nat, kept: set<Entry>,
                         e: Entry, x: Entry)
    requires Distinct(f) && (forall y :: y in input ==> y in f)
    requires Keeps(input, levels, level, smallest, kept)
    requires e in input && Obsolete(levels, level, smallest, e)
    requires x in f && x.key.user == e.key.user && x.key.seqno <= e.key.seqno
    ensures x !in kept
  {
    if x in input && x != e {
      EarlierIsNewer(f, e, x);
      assert Hidden(input, smallest, x);
    }
  }

  lemma AnswerKept(f: set<Entry>, g: set<Entry>, k: UserKey, s: nat, e: Entry)
    requires Distinct(f) && g <= f && Newest(f, k, s, e) && e in g
    ensures Lookup(g, k, s) == Lookup(f, k, s)
  {
    assert Distinct(g);
    forall x | Visible(g, k, s, x) ensures x.key.seqno <= e.key.seqno {
      assert Visible(f, k, s, x);
    }
    assert Newest(g, k, s, e);
    LookupIs(f, k, s, e);
    LookupIs(g, k, s, e);
  }

  /** The answer changes at (k, s) only if a dropped deletion was the newest entry, and then readers see
      whatever the untouched files hold below it. */
  lemma AfterDropping(f: set<Entry>, rest: set<Entry>, input: seq<Entry>, levels: Levels, level: nat, smallest: nat,
                      kept: set<Entry>, k: UserKey, s: nat, e: Entry)
    requires Distinct(f) && f == Elements(input) + rest && Keeps(input, levels, level, smallest, kept)
    requires smallest <= s && Newest(f, k, s, e)
    ensures e in kept + rest ==> Lookup(kept + rest, k, s) == Lookup(f, k, s)
    ensures e !in kept + rest ==> Obsolete(levels, level, smallest, e)
    ensures e !in kept + rest ==> Lookup(kept + rest, k, s) == Lookup(rest, k, e.key.seqno) && Lookup(f, k, s) == None
  {
    NewestIsNotHidden(f, input, k, s, smallest, e);
    if e in kept + rest {
      AnswerKept(f, kept + rest, k, s, e);
    } else {
      assert e in input;
      LookupIs(f, k, s, e);
      forall x | x in f && x.key.user == k && x.key.seqno <= e.key.seqno ensures x !in kept {
        NothingKeptBelow(f, input, levels, level, smallest, kept, e, x);
      }
      assert Distinct(kept + rest) && Distinct(rest);
      SameBelow(f, kept, rest, k, s, e);
    }
  }

  lemma SameBelow(f: set<Entry>, kept: set<Entry>, rest: set<Entry>, k: UserKey, s: nat, e: Entry)
    requires Distinct(f) && kept + rest <= f && Newest(f, k, s, e)
    requires forall x :: x in f && x.key.user == k && x.key.seqno <= e.key.seqno ==> x !in kept
    ensures Lookup(kept + rest, k, s) == Lookup(rest, k, e.key.seqno)
  {
    assert Distinct(kept + rest) && Distinct(rest);
    forall x ensures Visible(kept + rest, k, s, x) <==> Visible(rest, k, e.key.seqno, x) {
      if Visible(kept + rest, k, s, x) {
        assert Visible(f, k, s, x);
      }
    }
    if w :| Visible(rest, k, e.key.seqno, w) {
      var n := NewestExists(rest, k, e.key.seqno, w);
      assert Newest(kept + rest, k, s, n);
      LookupIs(kept + rest, k, s, n);
      LookupIs(rest, k, e.key.seqno, n);
    }
  }

  /** Two files of one version that hold the same entry are the same file. */
  lemma EntryHasOneFile(levels: Levels, l: nat, m: nat, f: File, g: File, e: Entry)
    requires VersionOk(levels) && l < |levels| && m < |levels|
    requires f in levels[l] && g in levels[m] && e in f.entries && e in g.entries
    ensures l == m && f == g
  {
    assert l < m ==> Newer(f.entries, g.entries);
    assert m < l ==> Newer(g.entries, f.entries);
    SameLevelEntry(levels, l, f, g, e);
  }

  lemma SameLevelEntry(levels: Levels, l: nat, f: File, g: File, e: Entry)
    requires l < |levels| && UniqueNumbers(levels) && FilesOk(levels[l])
    requires (l > 0 ==> Disjoint(levels[l])) && (l == 0 ==> NewerByNumber(levels[l]))
    requires f in levels[l] && g in levels[l] && e in f.entries && e in g.entries
    ensures f == g
  {
    if l == 0 {
      assert f.number > g.number ==> Newer(f.entries, g.entries);
      assert g.number > f.number ==> Newer(g.entries, f.entries);
    } else {
      FileBounds(f);
      FileBounds(g);
      var i :| 0 <= i < |levels[l]| && levels[l][i] == f;
      var j :| 0 <= j < |levels[l]| && levels[l][j] == g;
    }
  }

  /** What an untouched file can still hold at or below an input entry's sequence number, when no deep
      level covers the key, sits in the unpicked files of the next level. */
  lemma OlderIsLeftover(levels: Levels, level: nat, in0: Level, in1: Level, e: Entry, l: nat, f: File, x: Entry)
    requires VersionOk(levels) && Distinct(Tables(levels))
    requires Split(levels, level, in0, in1) && Closed(levels[level], in0)
    requires e in EntriesOf(in0 + in1) && BaseLevel(levels, level, e.key.user)
    requires l < |levels| && f in levels[l] && !Consumed(level, in0, in1, l, f) && x in f.entries
    requires x.key.user == e.key.user && x.key.seqno <= e.key.seqno
    ensures l == level + 1 && f !in in1
  {
    hide VersionOk, Layered;
    var h :| h in in0 + in1 && e in h.entries;
    var m := if h in in0 then level else level + 1;
    assert h in levels[m];
    if l > level + 1 {
      VersionLevel(levels, l);
      CoversItsKeys(levels, l, f, x);
    } else {
      NotShallower(levels, l, m, f, h, x, e);
      if l == level {
        assert NotOlder(f, h);
        assert x in Tables(levels) && e in Tables(levels);
        assert x == e;
        EntryHasOneFile(levels, l, m, f, h, e);
      }
    }
  }

  lemma NotShallower(levels: Levels, l: nat, m: nat, f: File, h: File, x: Entry, e: Entry)
    requires VersionOk(levels) && l < |levels| && m < |levels| && f in levels[l] && h in levels[m]
    requires x in f.entries && e in h.entries && x.key.user == e.key.user && x.key.seqno <= e.key.seqno
    ensures l >= m
  {
    VersionLayered(levels);
    hide VersionOk;
    assert l < m ==> Newer(f.entries, h.entries);
  }

  lemma CoversItsKeys(levels: Levels, l: nat, f: File, x: Entry)
    requires l < |levels| && FilesOk(levels[l]) && f in levels[l] && x in f.entries
    ensures f.smallest.user <= x.key.user <= f.largest.user
  {
    FileBounds(f);
  }

  lemma InRest(levels: Levels, level: nat, in0: Level, in1: Level, x: Entry) returns (l: nat, f: File)
    requires x in Rest(levels, level, in0, in1)
    ensures l < |levels| && f in levels[l] && !Consumed(level, in0, in1, l, f) && x in f.entries
  {
    l, f :| 0 <= l < |levels| && f in levels[l] && !Consumed(level, in0, in1, l, f) && x in f.entries;
  }

  lemma LeftoverInRest(levels: Levels, level: nat, in0: Level, in1: Level)
    requires level + 1 < |levels|
    ensures Leftover(levels, level, in1) <= Rest(levels, level, in0, in1)
  {
    forall x | x in Leftover(levels, level, in1) ensures x in Rest(levels, level, in0, in1) {
      var f :| f in levels[level + 1] && f !in in1 && x in f.entries;
      assert !Consumed(level, in0, in1, level + 1, f);
    }
  }

  lemma RestIsLeftover(levels: Levels, level: nat, in0: Level, in1: Level, e: Entry)
    requires VersionOk(levels) && Distinct(Tables(levels))
    requires Split(levels, level, in0, in1) && Closed(levels[level], in0)
    requires e in EntriesOf(in0 + in1) && BaseLevel(levels, level, e.key.user)
    ensures var k := e.key.user;
            forall x :: Visible(Rest(levels, level, in0, in1), k, e.key.seqno, x) <==>
                        Visible(Leftover(levels, level, in1), k, e.key.seqno, x)
  {
    LeftoverInRest(levels, level, in0, in1);
    forall x | Visible(Rest(levels, level, in0, in1), e.key.user, e.key.seqno, x)
      ensures x in Leftover(levels, level, in1)
    {
      var l, f := InRest(levels, level, in0, in1, x);
      OlderIsLeftover(levels, level, in0, in1, e, l, f, x);
    }
  }

  lemma SameVisibleSameLookup(a: set<Entry>, b: set<Entry>, k: UserKey, s: nat)
    requires Distinct(a) && Distinct(b) && forall x :: Visible(a, k, s, x) <==> Visible(b, k, s, x)
    ensures Lookup(a, k, s) == Lookup(b, k, s)
    ensures forall x :: Newest(a, k, s, x) <==> Newest(b, k, s, x)
  {
    if w :| Visible(a, k, s, w) {
      var n := NewestExists(a, k, s, w);
      LookupIs(a, k, s, n);
      LookupIs(b, k, s, n);
    }
  }

  /** The facts about one chosen compaction that both directions of the theorem use. */
  ghost predicate Setting(levels: Levels, level: nat, in0: Level, in1: Level, input: seq<Entry>, smallest: nat,
                          kept: set<Entry>) {
    && VersionOk(levels) && Distinct(Tables(levels))
    && Split(levels, level, in0, in1) && Closed(levels[level], in0)
    && Elements(input) == EntriesOf(in0 + in1)
    && Keeps(input, levels, level, smallest, kept)
  }

  ghost predicate SameAnswers(a: set<Entry>, b: set<Entry>, smallest: nat) {
    forall k, s :: smallest <= s ==> Lookup(a, k, s) == Lookup(b, k, s)
  }

  /** A dropped deletion that was the newest entry leaves the answer unchanged. */
  lemma DroppedSafely(levels: Levels, level: nat, in0: Level, in1: Level, smallest: nat, k: UserKey, s: nat, e: Entry)
    requires VersionOk(levels) && Distinct(Tables(levels))
    requires Split(levels, level, in0, in1) && Closed(levels[level], in0)
    requires !Exposes(levels, level, in0, in1, smallest) && smallest <= s
    requires Newest(Tables(levels), k, s, e) && e in EntriesOf(in0 + in1) && Obsolete(levels, level, smallest, e)
    ensures Lookup(Rest(levels, level, in0, in1), k, e.key.seqno) == None
  {
    var f, rest, left := Tables(levels), Rest(levels, level, in0, in1), Leftover(levels, level, in1);
    RestIsLeftover(levels, level, in0, in1, e);
    TablesSplit(levels, level, in0, in1);
    LeftoverDistinct(levels, level, in1);
    assert Distinct(rest);
    SameVisibleSameLookup(rest, left, k, e.key.seqno);
    if r :| Newest(left, k, e.key.seqno, r) {
      NewestFromAbove(f, k, s, smallest, e);
      assert !ExposesAt(levels, level, in0, in1, smallest, k, e, r);
      LookupIs(left, k, e.key.seqno, r);
    }
  }

  lemma NewestFromAbove(f: set<Entry>, k: UserKey, s: nat, smallest: nat, e: Entry)
    requires smallest <= s && Newest(f, k, s, e) && e.key.seqno <= smallest
    ensures Newest(f, k, smallest, e)
  {
    forall x | Visible(f, k, smallest, x) ensures x.key.seqno <= e.key.seqno {
      assert Visible(f, k, s, x);
    }
  }

  lemma NotExposedKeepsAnswer(levels: Levels, level: nat, in0: Level, in1: Level, input: seq<Entry>, smallest: nat,
                              kept: set<Entry>, k: UserKey, s: nat)
    requires Setting(levels, level, in0, in1, input, smallest, kept)
    requires !Exposes(levels, level, in0, in1, smallest) && smallest <= s
    ensures Lookup(kept + Rest(levels, level, in0, in1), k, s) == Lookup(Tables(levels), k, s)
  {
    hide VersionOk, Tables, Rest, EntriesOf, Distinct, Closed, Exposes, Lookup, Dropped, BaseLevel;
    var f, rest := Tables(levels), Rest(levels, level, in0, in1);
    TablesSplit(levels, level, in0, in1);
    if w :| Visible(f, k, s, w) {
      var e := NewestExists(f, k, s, w);
      AfterDropping(f, rest, input, levels, level, smallest, kept, k, s, e);
      if e !in kept + rest {
        DroppedSafely(levels, level, in0, in1, smallest, k, s, e);
      }
    } else {
      NothingVisible(f, kept + rest, k, s);
    }
  }

  lemma NothingVisible(f: set<Entry>, g: set<Entry>, k: UserKey, s: nat)
    requires g <= f && forall x :: !Visible(f, k, s, x)
    ensures Lookup(f, k, s) == None == Lookup(g, k, s)
  {
    forall x ensures !Visible(g, k, s, x) {
      assert !Visible(f, k, s, x);
    }
  }

  lemma LeftoverDistinct(levels: Levels, level: nat, in1: Level)
    requires level + 1 < |levels| && Distinct(Tables(levels))
    ensures Distinct(Leftover(levels, level, in1)) && Leftover(levels, level, in1) <= Tables(levels)
  {
  }

  lemma ExposedChangesAnswer(levels: Levels, level: nat, in0: Level, in1: Level, input: seq<Entry>, smallest: nat,
                             kept: set<Entry>, k: UserKey, e: Entry, r: Entry)
    requires Setting(levels, level, in0, in1, input, smallest, kept)
    requires ExposesAt(levels, level, in0, in1, smallest, k, e, r)
    ensures Lookup(Tables(levels), k, smallest) == None
    ensures Lookup(kept + Rest(levels, level, in0, in1), k, smallest) == Some(r.value)
  {
    var f, rest := Tables(levels), Rest(levels, level, in0, in1);
    TablesSplit(levels, level, in0, in1);
    LookupIs(f, k, smallest, e);
    assert e in Elements(input) && Dropped(input, levels, level, smallest, e);
    RestIsLeftover(levels, level, in0, in1, e);
    var left := Leftover(levels, level, in1);
    LeftoverDistinct(levels, level, in1);
    SameVisibleSameLookup(rest, left, k, e.key.seqno);
    LookupIs(left, k, e.key.seqno, r);
    assert e !in rest by {
      if e in rest {
        NotConsumed(levels, level, in0, in1, e);
      }
    }
    AfterDropping(f, rest, input, levels, level, smallest, kept, k, smallest, e);
  }

  lemma NotConsumed(levels: Levels, level: nat, in0: Level, in1: Level, e: Entry)
    requires VersionOk(levels) && Split(levels, level, in0, in1)
    requires e in EntriesOf(in0 + in1)
    ensures e !in Rest(levels, level, in0, in1)
  {
    hide VersionOk;
    if e in Rest(levels, level, in0, in1) {
      var h :| h in in0 + in1 && e in h.entries;
      var m := if h in in0 then level else level + 1;
      var l, f :| 0 <= l < |levels| && f in levels[l] && !Consumed(level, in0, in1, l, f) && e in f.entries;
      EntryHasOneFile(levels, l, m, f, h, e);
      assert false;
    }
  }

  /** Main result: a compaction keeps every answer at or above the smallest snapshot if and only if it
      does not expose an old value in the next level. */
  lemma PreservesExactlyUnlessExposing(levels: Levels, level: nat, in0: Level, in1: Level, input: seq<Entry>,
                                       smallest: nat, kept: set<Entry>)
    requires Setting(levels, level, in0, in1, input, smallest, kept)
    ensures SameAnswers(Tables(levels), kept + Rest(levels, level, in0, in1), smallest) <==>
            !Exposes(levels, level, in0, in1, smallest)
  {
    if k, e, r :| ExposesAt(levels, level, in0, in1, smallest, k, e, r) {
      ExposedChangesAnswer(levels, level, in0, in1, input, smallest, kept, k, e, r);
    } else {
      forall k, s | smallest <= s
        ensures Lookup(Tables(levels), k, s) == Lookup(kept + Rest(levels, level, in0, in1), k, s)
      {
        NotExposedKeepsAnswer(levels, level, in0, in1, input, smallest, kept, k, s);
      }
    }
  }
}
