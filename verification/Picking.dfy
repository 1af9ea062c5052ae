/** Choosing the input files of a compaction and the level of a flush (db/version_set.cc). */
module Picking {
  import opened DbFormat
  import opened Version

  type Bound = Option<UserKey> // None is a null pointer: unbounded on that side

  predicate Overlaps(f: File, begin: Bound, end: Bound) {
    !(begin.Some? && f.largest.user < begin.value) && !(end.Some? && f.smallest.user > end.value)
  }

  predicate Within(f: File, begin: Bound, end: Bound) {
    (begin.Some? ==> f.smallest.user >= begin.value) && (end.Some? ==> f.largest.user <= end.value)
  }

  function Overlapping(fs: Level, begin: Bound, end: Bound): (r: Level)
    ensures forall f :: f in r <==> f in fs && Overlaps(f, begin, end)
    ensures |r| <= |fs|
  {
    if fs == [] then []
    else
      assert forall x :: x in fs <==> x == fs[0] || x in fs[1..];
      (if Overlaps(fs[0], begin, end) then [fs[0]] else []) + Overlapping(fs[1..], begin, end)
  }

  /** Every file the range touches lies inside it. */
  predicate ClosedRange(fs: Level, begin: Bound, end: Bound) {
    forall f :: f in fs && Overlaps(f, begin, end) ==> Within(f, begin, end)
  }

  /** [b, e] is part of [begin, end]. */
  predicate Inside(b: Bound, e: Bound, begin: Bound, end: Bound) {
    && (begin.None? || (b.Some? && begin.value <= b.value))
    && (end.None? || (e.Some? && e.value <= end.value))
  }

  lemma OverlappingAppend(fs: Level, f: File, begin: Bound, end: Bound)
    ensures Overlapping(fs + [f], begin, end) ==
            Overlapping(fs, begin, end) + (if Overlaps(f, begin, end) then [f] else [])
  {
    hide Overlaps;
    if fs == [] {
      assert [] + [f] == [f] && [f][1..] == [];
    } else {
      assert (fs + [f])[1..] == fs[1..] + [f];
      OverlappingAppend(fs[1..], f, begin, end);
    }
  }

  ghost function StartsBefore(fs: Level, b: Bound): set<nat> {
    if b.None? then {} else set i | 0 <= i < |fs| && fs[i].smallest.user < b.value
  }

  ghost function EndsAfter(fs: Level, e: Bound): set<nat> {
    if e.None? then {} else set i | 0 <= i < |fs| && fs[i].largest.user > e.value
  }

  /** What holds while scanning: `inputs` are the overlapping files among the first i, and on level 0
      they have not stuck out of the current bounds. */
  ghost predicate Scanned(fs: Level, level: nat, b: Bound, e: Bound, i: nat, inputs: Level) {
    && i <= |fs| && inputs == Overlapping(fs[..i], b, e)
    && (level == 0 ==> forall f :: f in inputs ==> Within(f, b, e))
  }

  lemma ScanOne(fs: Level, level: nat, b: Bound, e: Bound, i: nat, inputs: Level)
    requires Scanned(fs, level, b, e, i, inputs) && i < |fs|
    ensures !Overlaps(fs[i], b, e) ==> Scanned(fs, level, b, e, i + 1, inputs)
    ensures Overlaps(fs[i], b, e) && (level == 0 ==> Within(fs[i], b, e)) ==>
              Scanned(fs, level, b, e, i + 1, inputs + [fs[i]])
  {
    assert fs[..i + 1] == fs[..i] + [fs[i]];
    OverlappingAppend(fs[..i], fs[i], b, e);
    assert inputs + [] == inputs;
  }

  lemma ScanStart(fs: Level, level: nat, b: Bound, e: Bound)
    ensures Scanned(fs, level, b, e, 0, []) && Least(fs, b, e, b, e)
  {
  }

  lemma ScanEnd(fs: Level, level: nat, b: Bound, e: Bound, inputs: Level)
    requires Scanned(fs, level, b, e, |fs|, inputs)
    ensures inputs == Overlapping(fs, b, e) && (level == 0 ==> ClosedRange(fs, b, e))
  {
    assert fs[..|fs|] == fs;
  }

  /** Version::GetOverlappingInputs. On level 0 an added file that sticks out of the range widens it
      and restarts the scan; `lo` and `hi` are the bounds the last scan used. */
  method GetOverlappingInputs(fs: Level, level: nat, begin: Bound, end: Bound)
    returns (inputs: Level, ghost lo: Bound, ghost hi: Bound)
    requires FilesOk(fs)
    ensures inputs == Overlapping(fs, lo, hi)
    ensures level > 0 ==> lo == begin && hi == end && inputs == Overlapping(fs, begin, end)
    ensures Inside(begin, end, lo, hi)
    ensures level == 0 ==> ClosedRange(fs, lo, hi)
    ensures level == 0 ==> Least(fs, begin, end, lo, hi)
  {
    hide FilesOk, Least, Scanned, ClosedRange;
    inputs := [];
    var userBegin, userEnd := begin, end;
    var i := 0;
    ScanStart(fs, level, begin, end);
    while i < |fs|
      invariant i <= |fs|
      invariant level > 0 ==> userBegin == begin && userEnd == end
      invariant Inside(begin, end, userBegin, userEnd)
      invariant Scanned(fs, level, userBegin, userEnd, i, inputs)
      invariant level == 0 ==> Least(fs, begin, end, userBegin, userEnd)
      decreases |StartsBefore(fs, userBegin)|, |EndsAfter(fs, userEnd)|, |fs| - i
    {
      var f := fs[i];
      ScanOne(fs, level, userBegin, userEnd, i, inputs);
      i := i + 1;
      if userBegin.Some? && f.largest.user < userBegin.value {
        // completely before the range
      } else if userEnd.Some? && f.smallest.user > userEnd.value {
        // completely after the range
      } else {
        inputs := inputs + [f];
        if level == 0 {
          if userBegin.Some? && f.smallest.user < userBegin.value {
            WidenBegin(fs, i - 1, begin, end, userBegin, userEnd);
            userBegin := Some(f.smallest.user);
            ScanStart(fs, level, userBegin, userEnd);
            inputs := [];
            i := 0;
          } else if userEnd.Some? && f.largest.user > userEnd.value {
            WidenEnd(fs, i - 1, begin, end, userBegin, userEnd);
            userEnd := Some(f.largest.user);
            ScanStart(fs, level, userBegin, userEnd);
            inputs := [];
            i := 0;
          }
        }
      }
    }
    ScanEnd(fs, level, userBegin, userEnd, inputs);
    lo, hi := userBegin, userEnd;
  }

  /** [b, e] is inside every closed range that contains [begin, end]. */
  ghost predicate Least(fs: Level, begin: Bound, end: Bound, b: Bound, e: Bound) {
    forall x, y :: ClosedRange(fs, x, y) && Inside(begin, end, x, y) ==> Inside(b, e, x, y)
  }

  lemma WidenBegin(fs: Level, i: nat, begin: Bound, end: Bound, b: Bound, e: Bound)
    requires i < |fs| && Overlaps(fs[i], b, e) && b.Some? && fs[i].smallest.user < b.value
    requires Least(fs, begin, end, b, e)
    ensures Least(fs, begin, end, Some(fs[i].smallest.user), e)
    ensures |StartsBefore(fs, Some(fs[i].smallest.user))| < |StartsBefore(fs, b)|
  {
    forall x, y | ClosedRange(fs, x, y) && Inside(begin, end, x, y)
      ensures Inside(Some(fs[i].smallest.user), e, x, y)
    {
      assert Inside(b, e, x, y);
      assert fs[i] in fs && Overlaps(fs[i], x, y);
    }
    assert i in StartsBefore(fs, b);
    Shrinks(StartsBefore(fs, Some(fs[i].smallest.user)), StartsBefore(fs, b));
  }

  lemma WidenEnd(fs: Level, i: nat, begin: Bound, end: Bound, b: Bound, e: Bound)
    requires i < |fs| && Overlaps(fs[i], b, e) && e.Some? && fs[i].largest.user > e.value
    requires Least(fs, begin, end, b, e)
    ensures Least(fs, begin, end, b, Some(fs[i].largest.user))
    ensures |EndsAfter(fs, Some(fs[i].largest.user))| < |EndsAfter(fs, e)|
  {
    forall x, y | ClosedRange(fs, x, y) && Inside(begin, end, x, y)
      ensures Inside(b, Some(fs[i].largest.user), x, y)
    {
      assert Inside(b, e, x, y);
      assert fs[i] in fs && Overlaps(fs[i], x, y);
    }
    assert i in EndsAfter(fs, e);
    Shrinks(EndsAfter(fs, Some(fs[i].largest.user)), EndsAfter(fs, e));
  }

  lemma Shrinks(a: set<nat>, b: set<nat>)
    requires a < b
    ensures |a| < |b|
  {
    assert b == a + (b - a);
    assert |b| == |a| + |b - a|;
    assert b - a != {};
  }

  // ---- Boundary files -------------------------------------------------------------------------

  predicate IsBoundary(f: File, key: InternalKey) {
    Less(key, f.smallest) && f.smallest.user == key.user
  }

  ghost function StartsAfter(fs: Level, key: InternalKey): set<nat> {
    set i | 0 <= i < |fs| && Less(key, fs[i].smallest)
  }

  /** FindSmallestBoundaryFile: the boundary file of `key` with the smallest range start. */
  function SmallestBoundaryFile(fs: Level, key: InternalKey): (r: Option<File>)
    ensures r.None? ==> forall f :: f in fs ==> !IsBoundary(f, key)
    ensures r.Some? ==> r.value in fs && IsBoundary(r.value, key)
    ensures r.Some? ==> forall f :: f in fs && IsBoundary(f, key) ==> !Less(f.smallest, r.value.smallest)
  {
    if fs == [] then None
    else
      var before, f := fs[..|fs| - 1], fs[|fs| - 1];
      assert forall x :: x in fs <==> x in before || x == f;
      var r := SmallestBoundaryFile(before, key);
      if IsBoundary(f, key) && (r.None? || Less(f.smallest, r.value.smallest)) then Some(f) else r
  }

  /** The files AddBoundaryInputs appends when the largest chosen key is `key`. */
  function BoundaryFiles(fs: Level, key: InternalKey): Level
    requires FilesOk(fs)
    decreases |StartsAfter(fs, key)|
  {
    var r := SmallestBoundaryFile(fs, key);
    if r.None? then []
    else
      AfterShrinks(fs, key, r.value);
      [r.value] + BoundaryFiles(fs, r.value.largest)
  }

  lemma AfterShrinks(fs: Level, key: InternalKey, f: File)
    requires FilesOk(fs) && f in fs && IsBoundary(f, key)
    ensures |StartsAfter(fs, f.largest)| < |StartsAfter(fs, key)|
  {
    FileBounds(f);
    var i :| 0 <= i < |fs| && fs[i] == f;
    assert i in StartsAfter(fs, key) && i !in StartsAfter(fs, f.largest);
    Shrinks(StartsAfter(fs, f.largest), StartsAfter(fs, key));
  }

  method FindSmallestBoundaryFile(fs: Level, key: InternalKey) returns (r: Option<File>)
    ensures r == SmallestBoundaryFile(fs, key)
  {
    r := None;
    for i := 0 to |fs|
      invariant r == SmallestBoundaryFile(fs[..i], key)
    {
      var f := fs[i];
      assert fs[..i + 1][..i] == fs[..i];
      if Less(key, f.smallest) && f.smallest.user == key.user {
        if r.None? || Less(f.smallest, r.value.smallest) {
          r := Some(f);
        }
      }
    }
    assert fs[..|fs|] == fs;
  }

  /** FindLargestKey over a nonempty list. */
  function LargestKey(fs: Level): (key: InternalKey)
    requires fs != []
    ensures exists f :: f in fs && key == f.largest
    ensures forall f :: f in fs ==> !Less(key, f.largest)
  {
    var before, f := fs[..|fs| - 1], fs[|fs| - 1];
    assert forall x :: x in fs <==> x in before || x == f;
    if before == [] then f.largest
    else
      var key := LargestKey(before);
      if Less(key, f.largest) then f.largest else key
  }

  function SmallestKey(fs: Level): (key: InternalKey)
    requires fs != []
    ensures exists f :: f in fs && key == f.smallest
    ensures forall f :: f in fs ==> !Less(f.smallest, key)
  {
    var before, f := fs[..|fs| - 1], fs[|fs| - 1];
    assert forall x :: x in fs <==> x in before || x == f;
    if before == [] then f.smallest
    else
      var key := SmallestKey(before);
      if Less(f.smallest, key) then f.smallest else key
  }

  lemma RangeOfOne(fs: Level)
    requires fs != []
    ensures SmallestKey(fs[..1]) == fs[0].smallest && LargestKey(fs[..1]) == fs[0].largest
  {
    assert fs[..1] == [fs[0]];
  }

  lemma RangeStep(fs: Level, i: nat)
    requires 0 < i < |fs|
    ensures SmallestKey(fs[..i + 1]) ==
              (var k := SmallestKey(fs[..i]); if Less(fs[i].smallest, k) then fs[i].smallest else k)
    ensures LargestKey(fs[..i + 1]) ==
              (var k := LargestKey(fs[..i]); if Less(k, fs[i].largest) then fs[i].largest else k)
  {
    assert fs[..i + 1][..i] == fs[..i];
  }

  /** VersionSet::GetRange: the smallest and the largest key of a nonempty list of files. */
  method GetRange(fs: Level) returns (smallest: InternalKey, largest: InternalKey)
    requires fs != []
    ensures smallest == SmallestKey(fs) && largest == LargestKey(fs)
  {
    hide Less, SmallestKey, LargestKey;
    smallest, largest := fs[0].smallest, fs[0].largest;
    RangeOfOne(fs);
    for i := 1 to |fs|
      invariant smallest == SmallestKey(fs[..i]) && largest == LargestKey(fs[..i])
    {
      var f := fs[i];
      RangeStep(fs, i);
      if Less(f.smallest, smallest) {
        smallest := f.smallest;
      }
      if Less(largest, f.largest) {
        largest := f.largest;
      }
    }
    assert fs[..|fs|] == fs;
  }

  /** AddBoundaryInputs: terminates on any list of files. */
  method AddBoundaryInputs(fs: Level, compactionFiles: Level) returns (r: Level)
    requires FilesOk(fs)
    ensures compactionFiles == [] ==> r == []
    ensures compactionFiles != [] ==> r == compactionFiles + BoundaryFiles(fs, LargestKey(compactionFiles))
  {
    r := compactionFiles;
    if compactionFiles == [] {
      return;
    }
    var _, largestKey := GetRange(compactionFiles);
    ghost var added: Level := [];
    var continueSearching := true;
    while continueSearching
      invariant r == compactionFiles + added
      invariant BoundaryFiles(fs, LargestKey(compactionFiles)) ==
                added + if continueSearching then BoundaryFiles(fs, largestKey) else []
      decreases continueSearching, |StartsAfter(fs, largestKey)|
    {
      var smallest := FindSmallestBoundaryFile(fs, largestKey);
      if smallest.Some? {
        AfterShrinks(fs, largestKey, smallest.value);
        r := r + [smallest.value];
        added := added + [smallest.value];
        largestKey := smallest.value.largest;
      } else {
        continueSearching := false;
      }
    }
  }

  /** The run of files a..b of a sorted level ends at a user-key boundary. */
  predicate EndsClean(fs: Level, b: nat)
    requires 0 < b <= |fs|
  {
    b < |fs| ==> fs[b].smallest.user != fs[b - 1].largest.user
  }

  /** On a sorted level the files AddBoundaryInputs adds are exactly the next ones, up to the first
      file that starts at another user key. */
  lemma {:induction false} BoundaryFilesExtendRun(fs: Level, b: nat) returns (c: nat)
    requires FilesOk(fs) && Disjoint(fs) && 0 < b <= |fs|
    ensures b <= c <= |fs| && EndsClean(fs, c)
    ensures BoundaryFiles(fs, fs[b - 1].largest) == fs[b..c]
    decreases |fs| - b
  {
    hide FilesOk, Disjoint, SmallestBoundaryFile;
    BoundaryIsNext(fs, b);
    if b < |fs| && fs[b].smallest.user == fs[b - 1].largest.user {
      c := BoundaryFilesExtendRun(fs, b + 1);
      assert fs[b..c] == [fs[b]] + fs[b + 1..c];
    } else {
      c := b;
    }
  }

  lemma BoundaryAfter(fs: Level, b: nat, i: nat)
    requires FilesOk(fs) && Disjoint(fs) && 0 < b <= |fs| && i < |fs|
    ensures IsBoundary(fs[i], fs[b - 1].largest) ==> i >= b && fs[b].smallest.user == fs[b - 1].largest.user
    ensures IsBoundary(fs[i], fs[b - 1].largest) && i > b ==> Less(fs[b].smallest, fs[i].smallest)
    ensures i == b ==> Less(fs[b - 1].largest, fs[b].smallest)
  {
    FileBounds(fs[i]);
    FileBounds(fs[b - 1]);
    if i > b {
      FileBounds(fs[b]);
    }
  }

  lemma BoundaryIsNext(fs: Level, b: nat)
    requires FilesOk(fs) && Disjoint(fs) && 0 < b <= |fs|
    ensures SmallestBoundaryFile(fs, fs[b - 1].largest) ==
            if b < |fs| && fs[b].smallest.user == fs[b - 1].largest.user then Some(fs[b]) else None
  {
    hide FilesOk, Disjoint, FileOk;
    var key := fs[b - 1].largest;
    forall i | 0 <= i < |fs|
      ensures IsBoundary(fs[i], key) ==> i >= b && fs[b].smallest.user == key.user
      ensures IsBoundary(fs[i], key) && i > b ==> Less(fs[b].smallest, fs[i].smallest)
    {
      BoundaryAfter(fs, b, i);
    }
    if b < |fs| {
      BoundaryAfter(fs, b, b);
      assert fs[b] in fs;
    }
    var r := SmallestBoundaryFile(fs, key);
    if r.Some? {
      var i :| 0 <= i < |fs| && fs[i] == r.value;
      assert fs[b] in fs;
    }
  }

  // ---- Input sets of a compaction -------------------------------------------------------------

  /** No entry of `a` is older than an entry of `b` for the same user key. */
  predicate NotOlder(a: File, b: File) {
    forall x, y :: x in a.entries && y in b.entries && x.key.user == y.key.user ==> x.key.seqno >= y.key.seqno
  }

  /** No file left behind at the level holds an older entry for a user key that is compacted away. */
  ghost predicate Closed(fs: Level, inputs: Level) {
    forall f, g :: f in fs && f !in inputs && g in inputs ==> NotOlder(f, g)
  }

  ghost predicate IsRun(fs: Level, inputs: Level) {
    exists a, b :: 0 <= a < b <= |fs| && inputs == fs[a..b]
  }

  ghost predicate IsClosedRange(fs: Level, inputs: Level) {
    exists lo, hi :: ClosedRange(fs, lo, hi) && inputs == Overlapping(fs, lo, hi)
  }

  /** What a compaction may start from: an overlap-closed set on level 0, a run of files below. */
  ghost predicate Startable(fs: Level, level: nat, inputs: Level) {
    inputs != [] && if level == 0 then IsClosedRange(fs, inputs) else IsRun(fs, inputs)
  }

  lemma EarlierIsNotOlder(f: File, g: File)
    requires FileOk(f) && FileOk(g) && Less(f.largest, g.smallest)
    ensures NotOlder(f, g)
  {
    FileBounds(f);
    FileBounds(g);
  }

  lemma ApartIsNotOlder(f: File, g: File)
    requires FileOk(f) && FileOk(g) && (f.largest.user < g.smallest.user || g.largest.user < f.smallest.user)
    ensures NotOlder(f, g)
  {
    FileBounds(f);
    FileBounds(g);
  }

  /** Files from position b on start after the user keys of files before b. */
  lemma CleanEndSeparates(fs: Level, b: nat, i: nat, j: nat)
    requires FilesOk(fs) && Disjoint(fs) && 0 < b <= i < |fs| && j < b && EndsClean(fs, b)
    ensures fs[j].largest.user < fs[i].smallest.user
  {
    FileBounds(fs[b]);
    FileBounds(fs[b - 1]);
  }

  lemma RunIsClosed(fs: Level, a: nat, b: nat)
    requires FilesOk(fs) && Disjoint(fs) && a < b <= |fs| && EndsClean(fs, b)
    ensures Closed(fs, fs[a..b])
  {
    forall f, g | f in fs && f !in fs[a..b] && g in fs[a..b] ensures NotOlder(f, g) {
      var i :| 0 <= i < |fs| && fs[i] == f;
      var j :| a <= j < b && fs[j] == g;
      assert forall n :: a <= n < b ==> fs[a..b][n - a] == fs[n] && fs[n] in fs[a..b];
      if i >= b {
        CleanEndSeparates(fs, b, i, j);
        ApartIsNotOlder(f, g);
      } else {
        EarlierIsNotOlder(f, g);
      }
    }
  }

  lemma ClosedRangeIsClosed(fs: Level, lo: Bound, hi: Bound)
    requires FilesOk(fs) && ClosedRange(fs, lo, hi)
    ensures Closed(fs, Overlapping(fs, lo, hi))
  {
    forall f, g | f in fs && f !in Overlapping(fs, lo, hi) && g in Overlapping(fs, lo, hi) ensures NotOlder(f, g) {
      FileBounds(f);
      FileBounds(g);
    }
  }

  /** On level 0 there is never a boundary file to add. */
  lemma NoBoundaryAtLevelZero(fs: Level, lo: Bound, hi: Bound)
    requires FilesOk(fs) && ClosedRange(fs, lo, hi) && Overlapping(fs, lo, hi) != []
    ensures BoundaryFiles(fs, LargestKey(Overlapping(fs, lo, hi))) == []
  {
    var inputs := Overlapping(fs, lo, hi);
    var key := LargestKey(inputs);
    var g :| g in inputs && key == g.largest;
    forall f | f in fs ensures !IsBoundary(f, key) {
      FileBounds(f);
      FileBounds(g);
      assert IsBoundary(f, key) ==> Overlaps(f, lo, hi) && f in inputs;
    }
  }

  lemma NoneOverlap(fs: Level, lo: Bound, hi: Bound)
    requires FilesOk(fs) && Disjoint(fs) && fs != [] && Overlaps(fs[0], lo, hi)
    requires |fs| > 1 ==> !Overlaps(fs[1], lo, hi)
    ensures Overlapping(fs[1..], lo, hi) == []
  {
    var rest := fs[1..];
    forall f | f in rest ensures !Overlaps(f, lo, hi) {
      var i :| 0 <= i < |rest| && rest[i] == f;
      assert f == fs[i + 1];
      FileBounds(fs[0]);
      FileBounds(fs[1]);
      FileBounds(f);
    }
    OverlappingNothing(rest, lo, hi);
  }

  lemma {:induction false} OverlappingNothing(fs: Level, lo: Bound, hi: Bound)
    requires forall f :: f in fs ==> !Overlaps(f, lo, hi)
    ensures Overlapping(fs, lo, hi) == []
  {
    if fs != [] {
      assert fs[0] in fs;
      OverlappingNothing(fs[1..], lo, hi);
    }
  }

  lemma OverlappingStep(fs: Level, lo: Bound, hi: Bound)
    requires fs != []
    ensures Overlapping(fs, lo, hi) == (if Overlaps(fs[0], lo, hi) then [fs[0]] else []) + Overlapping(fs[1..], lo, hi)
  {
    hide Overlaps;
  }

  lemma FilesOfTail(fs: Level)
    requires FilesOk(fs) && Disjoint(fs) && fs != []
    ensures FilesOk(fs[1..]) && Disjoint(fs[1..])
  {
  }

  /** On a sorted level, the files that overlap a range form a run. */
  lemma {:induction false} OverlappingIsRun(fs: Level, lo: Bound, hi: Bound) returns (a: nat, b: nat)
    requires FilesOk(fs) && Disjoint(fs)
    ensures a <= b <= |fs| && Overlapping(fs, lo, hi) == fs[a..b]
    ensures fs != [] && Overlaps(fs[0], lo, hi) ==> a == 0 < b
  {
    hide FilesOk, Disjoint, Overlapping, Overlaps;
    if fs == [] {
      OverlappingNothing(fs, lo, hi);
      a, b := 0, 0;
    } else if Overlaps(fs[0], lo, hi) && (|fs| == 1 || !Overlaps(fs[1], lo, hi)) {
      NoneOverlap(fs, lo, hi);
      OverlappingStep(fs, lo, hi);
      a, b := 0, 1;
    } else {
      FilesOfTail(fs);
      a, b := OverlappingIsRun(fs[1..], lo, hi);
      ExtendRun(fs, lo, hi, a, b);
      if Overlaps(fs[0], lo, hi) {
        b := b + 1;
      } else {
        a, b := a + 1, b + 1;
      }
    }
  }

  lemma ExtendRun(fs: Level, lo: Bound, hi: Bound, a: nat, b: nat)
    requires fs != [] && a <= b <= |fs[1..]| && Overlapping(fs[1..], lo, hi) == fs[1..][a..b]
    ensures !Overlaps(fs[0], lo, hi) ==> Overlapping(fs, lo, hi) == fs[a + 1..b + 1]
    ensures Overlaps(fs[0], lo, hi) && a == 0 ==> Overlapping(fs, lo, hi) == fs[0..b + 1]
  {
    SliceOfTail(fs, a, b);
  }

  lemma SliceOfTail<T>(s: seq<T>, a: nat, b: nat)
    requires s != [] && a <= b <= |s| - 1
    ensures s[1..][a..b] == s[a + 1..b + 1]
    ensures a == 0 ==> [s[0]] + s[1..][a..b] == s[0..b + 1]
    ensures [] + s[1..][a..b] == s[a + 1..b + 1]
  {
  }

  lemma BoundaryClosesRun(fs: Level, a: nat, b: nat)
    requires FilesOk(fs) && Disjoint(fs) && a < b <= |fs|
    ensures var all := fs[a..b] + BoundaryFiles(fs, LargestKey(fs[a..b]));
            IsRun(fs, all) && Closed(fs, all)
  {
    RunLargest(fs, a, b);
    var c := BoundaryFilesExtendRun(fs, b);
    var tail := BoundaryFiles(fs, LargestKey(fs[a..b]));
    assert tail == fs[b..c];
    JoinRuns(fs, a, b, c);
    RunIsClosed(fs, a, c);
  }

  lemma JoinRuns(fs: Level, a: nat, b: nat, c: nat)
    requires a < b <= c <= |fs|
    ensures fs[a..b] + fs[b..c] == fs[a..c] && IsRun(fs, fs[a..c])
  {
  }

  lemma BoundaryClosesLevelZero(fs: Level, inputs: Level)
    requires FilesOk(fs) && IsClosedRange(fs, inputs) && inputs != []
    ensures inputs + BoundaryFiles(fs, LargestKey(inputs)) == inputs
    ensures Closed(fs, inputs)
  {
    var lo, hi :| ClosedRange(fs, lo, hi) && inputs == Overlapping(fs, lo, hi);
    NoBoundaryAtLevelZero(fs, lo, hi);
    ClosedRangeIsClosed(fs, lo, hi);
  }

  /** AddBoundaryInputs turns a startable set into a closed one that keeps its files. */
  lemma BoundaryCloses(fs: Level, level: nat, inputs: Level)
    requires FilesOk(fs) && Startable(fs, level, inputs) && (level > 0 ==> Disjoint(fs))
    ensures var all := inputs + BoundaryFiles(fs, LargestKey(inputs));
            Startable(fs, level, all) && Closed(fs, all)
  {
    if level == 0 {
      BoundaryClosesLevelZero(fs, inputs);
    } else {
      var a, b :| 0 <= a < b <= |fs| && inputs == fs[a..b];
      BoundaryClosesRun(fs, a, b);
    }
  }

  lemma RunLargest(fs: Level, a: nat, b: nat)
    requires FilesOk(fs) && Disjoint(fs) && a < b <= |fs|
    ensures LargestKey(fs[a..b]) == fs[b - 1].largest
  {
    var key := LargestKey(fs[a..b]);
    var f :| f in fs[a..b] && key == f.largest;
    var i :| 0 <= i < |fs[a..b]| && fs[a..b][i] == f;
    assert f == fs[a + i] && fs[b - 1] == fs[a..b][b - 1 - a];
    FileBounds(fs[b - 1]);
  }

  function TotalFileSize(fs: Level): nat {
    if fs == [] then 0 else fs[0].size + TotalFileSize(fs[1..])
  }

  /** The files of the next level whose user-key range meets that of `inputs`. */
  function NextLevelOverlaps(levels: Levels, level: nat, inputs: Level): Level
    requires level + 1 < |levels| && inputs != []
  {
    Overlapping(levels[level + 1], Some(SmallestKey(inputs).user), Some(LargestKey(inputs).user))
  }

  /** The input sets SetupOtherInputs settles on. */
  ghost predicate Chosen(levels: Levels, level: nat, in0: Level, in1: Level) {
    && level + 1 < |levels|
    && Startable(levels[level], level, in0) && Closed(levels[level], in0)
    && in1 == NextLevelOverlaps(levels, level, in0)
  }

  lemma ChosenFiles(levels: Levels, level: nat, in0: Level, in1: Level)
    requires Chosen(levels, level, in0, in1)
    ensures level + 1 < |levels| && in0 != [] && Closed(levels[level], in0)
    ensures forall f :: f in in0 ==> f in levels[level]
    ensures forall f :: f in in1 ==> f in levels[level + 1]
  {
    StartableFiles(levels[level], level, in0);
  }

  lemma RangeGrows(a: Level, b: Level)
    requires a != [] && b != [] && forall f :: f in a ==> f in b
    ensures SmallestKey(b).user <= SmallestKey(a).user && LargestKey(a).user <= LargestKey(b).user
  {
  }

  /** A wider range overlaps at least as many files, and the same ones if it overlaps as many. */
  lemma {:induction false} OverlappingGrows(fs: Level, b: Bound, e: Bound, x: Bound, y: Bound)
    requires Inside(b, e, x, y)
    ensures |Overlapping(fs, b, e)| <= |Overlapping(fs, x, y)|
    ensures |Overlapping(fs, b, e)| == |Overlapping(fs, x, y)| ==> Overlapping(fs, b, e) == Overlapping(fs, x, y)
  {
    if fs != [] {
      OverlappingGrows(fs[1..], b, e, x, y);
      assert Overlaps(fs[0], b, e) ==> Overlaps(fs[0], x, y);
    }
  }

  lemma KeepsFiles(fs: Level, some: Level, b: Bound, e: Bound)
    requires some != [] && forall f :: f in some ==> f in fs
    requires FilesOk(fs)
    requires Inside(Some(SmallestKey(some).user), Some(LargestKey(some).user), b, e)
    ensures forall f :: f in some ==> f in Overlapping(fs, b, e)
  {
    forall f | f in some ensures f in Overlapping(fs, b, e) {
      FileBounds(f);
      assert !Less(f.smallest, SmallestKey(some)) && !Less(LargestKey(some), f.largest);
      assert Overlaps(f, b, e);
    }
  }

  lemma StartableFiles(fs: Level, level: nat, inputs: Level)
    requires Startable(fs, level, inputs)
    ensures forall f :: f in inputs ==> f in fs
  {
  }

  /** The overlap set of a range is startable again: closed on level 0, a run below. */
  lemma OverlapIsStartable(fs: Level, level: nat, lo: Bound, hi: Bound)
    requires FilesOk(fs) && (level > 0 ==> Disjoint(fs)) && (level == 0 ==> ClosedRange(fs, lo, hi))
    requires Overlapping(fs, lo, hi) != []
    ensures Startable(fs, level, Overlapping(fs, lo, hi))
  {
    if level > 0 {
      var a, b := OverlappingIsRun(fs, lo, hi);
    }
  }

  /** The files that a scan for the range ends with: on level 0 those of the least closed range around it. */
  ghost predicate Gathered(fs: Level, level: nat, begin: Bound, end: Bound, inputs: Level) {
    if level == 0 then
      exists lo, hi ::
        && Inside(begin, end, lo, hi) && ClosedRange(fs, lo, hi) && Least(fs, begin, end, lo, hi)
        && inputs == Overlapping(fs, lo, hi)
    else inputs == Overlapping(fs, begin, end)
  }

  /** The larger `level` input set that is tried: everything that the range of the whole compaction overlaps, and its
      boundary files. */
  ghost predicate Wider(levels: Levels, level: nat, in0: Level, in1: Level, wider: Level)
    requires level + 1 < |levels| && FilesOk(levels[level]) && in0 != []
  {
    exists overlapped: Level ::
      && overlapped != []
      && Gathered(levels[level], level, Some(SmallestKey(in0 + in1).user), Some(LargestKey(in0 + in1).user), overlapped)
      && wider == overlapped + BoundaryFiles(levels[level], LargestKey(overlapped))
  }

  /** What SetupOtherInputs makes of `inputs`: it adds their boundary files and picks the next-level files; then it
      takes the wider set instead if that is larger, if it stays below the size limit, and if it meets no more
      next-level files. */
  ghost predicate Settled(levels: Levels, level: nat, inputs: Level, sizeLimit: nat, in0: Level, in1: Level,
                          wider: Level)
    requires level + 1 < |levels| && FilesOk(levels[level]) && inputs != []
  {
    var first := inputs + BoundaryFiles(levels[level], LargestKey(inputs));
    && in1 == NextLevelOverlaps(levels, level, first)
    && if in1 == [] then in0 == first
       else
         && Wider(levels, level, first, in1, wider) && wider != []
         && in0 == if |wider| > |first| && TotalFileSize(in1) + TotalFileSize(wider) < sizeLimit
                      && |NextLevelOverlaps(levels, level, wider)| == |in1| then wider else first
  }

  /** The first try at a larger `level` input set: everything the whole compaction range overlaps. */
  method ExpandInputs(levels: Levels, level: nat, in0: Level, in1: Level) returns (expanded0: Level)
    requires level + 1 < |levels| && LevelsSorted(levels) && Startable(levels[level], level, in0)
    ensures Startable(levels[level], level, expanded0) && Closed(levels[level], expanded0)
    ensures forall f :: f in in0 ==> f in expanded0
    ensures Wider(levels, level, in0, in1, expanded0)
  {
    var fs := levels[level];
    StartableFiles(fs, level, in0);
    var allStart, allLimit := GetRange(in0 + in1);
    RangeGrows(in0, in0 + in1);
    ghost var lo, hi;
    expanded0, lo, hi := GetOverlappingInputs(fs, level, Some(allStart.user), Some(allLimit.user));
    KeepsFiles(fs, in0, lo, hi);
    assert in0[0] in in0;
    OverlapIsStartable(fs, level, lo, hi);
    BoundaryCloses(fs, level, expanded0);
    assert Gathered(fs, level, Some(allStart.user), Some(allLimit.user), expanded0);
    expanded0 := AddBoundaryInputs(fs, expanded0);
  }

  /** VersionSet::SetupOtherInputs. `sizeLimit` is ExpandedCompactionByteSizeLimit. Growing the set of
      `level` files never changes the set of `level+1` files. */
  method SetupOtherInputs(levels: Levels, level: nat, inputs: Level, sizeLimit: nat)
    returns (in0: Level, in1: Level, ghost wider: Level)
    requires level + 1 < |levels| && LevelsSorted(levels) && Startable(levels[level], level, inputs)
    ensures Chosen(levels, level, in0, in1)
    ensures forall f :: f in inputs ==> f in in0
    ensures in1 == NextLevelOverlaps(levels, level, inputs + BoundaryFiles(levels[level], LargestKey(inputs)))
    ensures Settled(levels, level, inputs, sizeLimit, in0, in1, wider)
  {
    hide FilesOk, Startable, Closed, Disjoint, Wider;
    BoundaryCloses(levels[level], level, inputs);
    wider := [];
    in0 := AddBoundaryInputs(levels[level], inputs);
    var smallest, largest := GetRange(in0);
    ghost var lo, hi;
    in1, lo, hi := GetOverlappingInputs(levels[level + 1], level + 1, Some(smallest.user), Some(largest.user));
    if in1 != [] {
      var expanded0 := ExpandInputs(levels, level, in0, in1);
      wider := expanded0;
      assert in0[0] in expanded0;
      if |expanded0| > |in0| && TotalFileSize(in1) + TotalFileSize(expanded0) < sizeLimit {
        var newStart, newLimit := GetRange(expanded0);
        var expanded1;
        RangeGrows(in0, expanded0);
        OverlappingGrows(levels[level + 1], Some(smallest.user), Some(largest.user),
                         Some(newStart.user), Some(newLimit.user));
        expanded1, lo, hi := GetOverlappingInputs(levels[level + 1], level + 1,
                                                  Some(newStart.user), Some(newLimit.user));
        if |expanded1| == |in1| {
          in0, in1 := expanded0, expanded1;
        }
      }
    }
  }

  /** A single file is a run of its level. */
  lemma SingleIsRun(fs: Level, i: nat)
    requires i < |fs|
    ensures IsRun(fs, [fs[i]])
  {
    assert [fs[i]] == fs[i..i + 1];
  }

  /** The file ends after the compaction pointer. */
  predicate IsAfter(pointer: Option<InternalKey>, f: File) { pointer.None? || Less(pointer.value, f.largest) }

  /** VersionSet::PickCompaction, size-triggered: the first file after the compaction pointer, wrapping
      around to the first file of the level. */
  method PickCompaction(levels: Levels, level: nat, pointer: Option<InternalKey>, sizeLimit: nat)
    returns (in0: Level, in1: Level, ghost pick: nat)
    requires level + 1 < |levels| && LevelsSorted(levels) && levels[level] != []
    ensures Chosen(levels, level, in0, in1)
    ensures PickedFrom(levels, level, pick, sizeLimit, in0, in1)
    ensures if exists f :: f in levels[level] && IsAfter(pointer, f)
            then && IsAfter(pointer, levels[level][pick])
                 && forall i :: 0 <= i < pick ==> !IsAfter(pointer, levels[level][i])
            else pick == 0
  {
    hide PickedFrom, Chosen, IsAfter;
    var first := FirstAfter(levels[level], pointer);
    pick := first;
    in0, in1 := CompactFile(levels, level, first, sizeLimit);
  }

  method FirstAfter(fs: Level, pointer: Option<InternalKey>) returns (pick: nat)
    requires fs != []
    ensures pick < |fs|
    ensures if exists f :: f in fs && IsAfter(pointer, f)
            then IsAfter(pointer, fs[pick]) && forall i :: 0 <= i < pick ==> !IsAfter(pointer, fs[i])
            else pick == 0
  {
    for i := 0 to |fs|
      invariant forall j :: 0 <= j < i ==> !IsAfter(pointer, fs[j])
    {
      if pointer.None? || Less(pointer.value, fs[i].largest) {
        assert fs[i] in fs && IsAfter(pointer, fs[i]);
        return i;
      }
    }
    return 0; // wrap around
  }

  /** The file is among the inputs, which are settled from it alone, on level 0 from all that it overlaps with in
      turn. */
  ghost predicate PickedFrom(levels: Levels, level: nat, pick: nat, sizeLimit: nat, in0: Level, in1: Level) {
    && level + 1 < |levels| && FilesOk(levels[level]) && pick < |levels[level]| && levels[level][pick] in in0
    && var f := levels[level][pick];
       exists inputs: Level, wider: Level ::
         && inputs != [] && Settled(levels, level, inputs, sizeLimit, in0, in1, wider)
         && if level == 0 then Gathered(levels[0], 0, Some(f.smallest.user), Some(f.largest.user), inputs)
            else inputs == [f]
  }

  /** The common rest of PickCompaction, also used for a seek-triggered file. */
  method CompactFile(levels: Levels, level: nat, pick: nat, sizeLimit: nat) returns (in0: Level, in1: Level)
    requires level + 1 < |levels| && LevelsSorted(levels) && pick < |levels[level]|
    ensures Chosen(levels, level, in0, in1)
    ensures PickedFrom(levels, level, pick, sizeLimit, in0, in1)
  {
    hide Settled;
    var fs := levels[level];
    var inputs := [fs[pick]];
    if level == 0 {
      ghost var lo, hi;
      inputs, lo, hi := GetOverlappingInputs(fs, 0, Some(fs[pick].smallest.user), Some(fs[pick].largest.user));
      FileBounds(fs[pick]);
      assert Overlaps(fs[pick], lo, hi);
      assert Gathered(fs, 0, Some(fs[pick].smallest.user), Some(fs[pick].largest.user), inputs);
    } else {
      SingleIsRun(fs, pick);
    }
    ghost var wider;
    in0, in1, wider := SetupOtherInputs(levels, level, inputs, sizeLimit);
    assert fs[pick] in inputs;
  }

  lemma PrefixOfRun(fs: Level, inputs: Level, n: nat)
    requires IsRun(fs, inputs) && 0 < n <= |inputs|
    ensures IsRun(fs, inputs[..n])
  {
    var a, b :| 0 <= a < b <= |fs| && inputs == fs[a..b];
    assert inputs[..n] == fs[a..a + n];
  }

  /** A nonempty list of files is cut off behind the file with which its total size reaches the limit. */
  ghost predicate CutOff(all: Level, limit: nat, r: Level) {
    && r != [] && r <= all && (r == all || TotalFileSize(r) >= limit)
    && (|r| > 1 ==> TotalFileSize(r[..|r| - 1]) < limit)
  }

  /** Total size of the files that overlap the range. */
  function OverlapSize(fs: Level, begin: Bound, end: Bound): nat {
    if fs == [] then 0
    else (if Overlaps(fs[0], begin, end) then fs[0].size else 0) + OverlapSize(fs[1..], begin, end)
  }

  /** Of the files that overlap the range, all are there on level 0, and below it the first one and every other one
      before which the total size does not reach the limit. */
  ghost predicate Requested(fs: Level, level: nat, begin: Bound, end: Bound, fileLimit: nat, in0: Level) {
    forall p :: 0 <= p < |fs| && Overlaps(fs[p], begin, end) ==>
      || fs[p] in in0
      || (level > 0 && OverlapSize(fs[..p], begin, end) >= fileLimit
          && exists q :: 0 <= q < p && Overlaps(fs[q], begin, end))
  }

  /** VersionSet::CompactRange: a manual compaction. Below level 0 the run is cut off once it reaches the
      size limit of one output file. */
  method CompactRange(levels: Levels, level: nat, begin: Bound, end: Bound, fileLimit: nat, sizeLimit: nat)
    returns (any: bool, in0: Level, in1: Level, ghost inputs: Level, ghost wider: Level)
    requires level + 1 < |levels| && LevelsSorted(levels)
    ensures any <==> exists f :: f in levels[level] && Overlaps(f, begin, end)
    ensures any ==> Chosen(levels, level, in0, in1)
    ensures any ==> Requested(levels[level], level, begin, end, fileLimit, in0)
    ensures any && level == 0 ==> Gathered(levels[level], level, begin, end, inputs)
    ensures any && level > 0 ==> CutOff(Overlapping(levels[level], begin, end), fileLimit, inputs)
    ensures any ==> inputs != [] && Settled(levels, level, inputs, sizeLimit, in0, in1, wider)
  {
    hide Settled, Requested, Chosen, CutOff, Overlapping, Least, ClosedRange, TotalFileSize, FilesOk, Disjoint,
      Startable;
    in0, in1, inputs, wider := [], [], [], [];
    var files, lo, hi := GetOverlappingInputs(levels[level], level, begin, end);
    assert forall f :: Overlaps(f, begin, end) ==> Overlaps(f, lo, hi);
    if files == [] {
      any := false;
      NothingOverlaps(levels[level], begin, end, lo, hi);
      return;
    }
    any := true;
    LeastTouches(levels[level], level, begin, end, lo, hi);
    OverlapIsStartable(levels[level], level, lo, hi);
    if level > 0 {
      ghost var all := files;
      files := CutAtSize(files, fileLimit);
      CutIsStartable(levels[level], level, all, files, fileLimit);
      CutIsRequested(levels[level], level, begin, end, fileLimit, all, files);
    } else {
      assert Gathered(levels[level], level, begin, end, files);
    }
    inputs := files;
    StartableNotEmpty(levels[level], level, inputs);
    in0, in1, wider := SetupOtherInputs(levels, level, files, sizeLimit);
    RequestedGrows(levels[level], level, begin, end, fileLimit, files, in0);
  }

  lemma StartableNotEmpty(fs: Level, level: nat, inputs: Level)
    requires Startable(fs, level, inputs)
    ensures inputs != []
  {
  }

  lemma CutIsStartable(fs: Level, level: nat, all: Level, r: Level, limit: nat)
    requires level > 0 && Startable(fs, level, all) && CutOff(all, limit, r)
    ensures Startable(fs, level, r)
  {
    PrefixOfRun(fs, all, |r|);
    assert all[..|r|] == r;
  }

  /** The loop of CompactRange that keeps a compaction from becoming too large. */
  method CutAtSize(files: Level, limit: nat) returns (r: Level)
    requires files != []
    ensures CutOff(files, limit, r)
  {
    var total := 0;
    for i := 0 to |files|
      invariant total == TotalFileSize(files[..i])
      invariant i > 0 ==> total < limit
    {
      SizeMore(files, i);
      total := total + files[i].size;
      if total >= limit {
        assert files[..i + 1][..i] == files[..i];
        return files[..i + 1];
      }
    }
    assert files[..|files|] == files;
    SizeMore(files, |files| - 1);
    return files;
  }

  lemma RequestedGrows(fs: Level, level: nat, begin: Bound, end: Bound, fileLimit: nat, some: Level, more: Level)
    requires forall f :: f in some ==> f in more
    requires level == 0 ==> forall f :: f in fs && Overlaps(f, begin, end) ==> f in some
    requires level > 0 ==> Requested(fs, level, begin, end, fileLimit, some)
    ensures Requested(fs, level, begin, end, fileLimit, more)
  {
  }

  lemma {:induction false} SizeMore(fs: Level, i: nat)
    requires i < |fs|
    ensures TotalFileSize(fs[..i + 1]) == TotalFileSize(fs[..i]) + fs[i].size
  {
    if i > 0 {
      SizeMore(fs[1..], i - 1);
      assert fs[..i + 1][1..] == fs[1..][..i] && fs[..i][1..] == fs[1..][..i - 1];
    } else {
      assert fs[..1] == [fs[0]] && [fs[0]][1..] == [];
    }
  }

  /** Where in the list of overlapping files a file stands, and how large the ones before it are. */
  lemma {:induction false} OverlapIndex(fs: Level, p: nat, begin: Bound, end: Bound) returns (i: nat)
    requires p < |fs| && Overlaps(fs[p], begin, end)
    ensures i < |Overlapping(fs, begin, end)| && Overlapping(fs, begin, end)[i] == fs[p]
    ensures TotalFileSize(Overlapping(fs, begin, end)[..i]) == OverlapSize(fs[..p], begin, end)
    ensures i > 0 ==> exists q :: 0 <= q < p && Overlaps(fs[q], begin, end)
  {
    hide Overlaps, Overlapping, TotalFileSize, OverlapSize;
    var before := fs[..p];
    i := |Overlapping(before, begin, end)|;
    OverlapOfPrefix(fs, p + 1, begin, end);
    OverlapOfPrefix(fs, p, begin, end);
    OverlapSizeIs(before, begin, end);
    assert fs[..p + 1] == before + [fs[p]];
    OverlappingAppend(before, fs[p], begin, end);
    assert Overlapping(fs, begin, end)[..i] == Overlapping(before, begin, end);
    if i > 0 {
      var g := Overlapping(before, begin, end)[0];
      assert g in Overlapping(before, begin, end);
    }
  }

  lemma {:induction false} OverlapOfPrefix(fs: Level, n: nat, begin: Bound, end: Bound)
    requires n <= |fs|
    ensures Overlapping(fs[..n], begin, end) <= Overlapping(fs, begin, end)
    decreases |fs| - n
  {
    hide Overlaps, Overlapping;
    if n < |fs| {
      OverlapOfPrefix(fs, n + 1, begin, end);
      assert fs[..n + 1] == fs[..n] + [fs[n]];
      OverlappingAppend(fs[..n], fs[n], begin, end);
    } else {
      assert fs[..n] == fs;
    }
  }

  lemma {:induction false} OverlapSizeIs(fs: Level, begin: Bound, end: Bound)
    ensures OverlapSize(fs, begin, end) == TotalFileSize(Overlapping(fs, begin, end))
  {
    if fs != [] {
      var rest := Overlapping(fs[1..], begin, end);
      OverlapSizeIs(fs[1..], begin, end);
      hide Overlaps;
      assert ([fs[0]] + rest)[1..] == rest && [] + rest == rest;
    }
  }

  lemma {:induction false} SizeGrows(fs: Level, i: nat, j: nat)
    requires i <= j <= |fs|
    ensures TotalFileSize(fs[..i]) <= TotalFileSize(fs[..j])
    decreases j - i
  {
    if i < j {
      SizeGrows(fs, i, j - 1);
      SizeMore(fs, j - 1);
    }
  }

  lemma CutIsRequested(fs: Level, level: nat, begin: Bound, end: Bound, limit: nat, all: Level, r: Level)
    requires level > 0 && all == Overlapping(fs, begin, end) && CutOff(all, limit, r)
    ensures Requested(fs, level, begin, end, limit, r)
  {
    forall p | 0 <= p < |fs| && Overlaps(fs[p], begin, end)
      ensures || fs[p] in r
              || (OverlapSize(fs[..p], begin, end) >= limit && exists q :: 0 <= q < p && Overlaps(fs[q], begin, end))
    {
      var i := OverlapIndex(fs, p, begin, end);
      if i < |r| {
        assert r[i] == fs[p];
      } else {
        SizeGrows(all, |r|, i);
        assert all[..|r|] == r;
      }
    }
  }

  lemma NothingOverlaps(fs: Level, begin: Bound, end: Bound, lo: Bound, hi: Bound)
    requires Inside(begin, end, lo, hi) && Overlapping(fs, lo, hi) == []
    ensures forall f :: f in fs ==> !Overlaps(f, begin, end)
  {
    forall f | f in fs ensures !Overlaps(f, begin, end) {
      assert Overlaps(f, begin, end) ==> Overlaps(f, lo, hi);
      assert Overlaps(f, lo, hi) ==> f in Overlapping(fs, lo, hi);
    }
  }

  /** If the requested range touches no file, the scan does not widen it. */
  lemma LeastTouches(fs: Level, level: nat, begin: Bound, end: Bound, lo: Bound, hi: Bound)
    requires level == 0 ==> Least(fs, begin, end, lo, hi)
    requires level > 0 ==> lo == begin && hi == end
    requires Inside(begin, end, lo, hi) && Overlapping(fs, lo, hi) != []
    ensures exists f :: f in fs && Overlaps(f, begin, end)
  {
    var g := Overlapping(fs, lo, hi)[0];
    assert g in Overlapping(fs, lo, hi);
    if forall f :: f in fs ==> !Overlaps(f, begin, end) {
      assert ClosedRange(fs, begin, end) && Inside(begin, end, begin, end);
      assert Inside(lo, hi, begin, end);
      assert Overlaps(g, lo, hi) ==> Overlaps(g, begin, end);
      assert false;
    }
  }

  // ---- Flushes --------------------------------------------------------------------------------

  /** Sequence numbers fit the 56 bits an internal key has for them. */
  predicate SequencesFit(fs: Level) {
    forall f :: f in fs ==> f.largest.seqno <= MAX_SEQUENCE
  }

  /** SomeFileOverlapsRange with both ends given. */
  method SomeFileOverlapsRange(fs: Level, disjoint: bool, smallest: UserKey, largest: UserKey) returns (r: bool)
    requires FilesOk(fs) && (disjoint ==> Disjoint(fs))
    requires SequencesFit(fs) && smallest <= largest
    ensures r <==> exists f :: f in fs && Overlaps(f, Some(smallest), Some(largest))
  {
    if !disjoint {
      for i := 0 to |fs|
        invariant forall j :: 0 <= j < i ==> !Overlaps(fs[j], Some(smallest), Some(largest))
      {
        if smallest > fs[i].largest.user || largest < fs[i].smallest.user {
          // no overlap
        } else {
          assert fs[i] in fs;
          return true;
        }
      }
      return false;
    }
    var key := InternalKey(smallest, MAX_SEQUENCE, KIND_FOR_SEEK);
    var index := FindFile(fs, key);
    SortedOverlap(fs, index, smallest, largest);
    if index >= |fs| {
      return false;
    }
    r := !(largest < fs[index].smallest.user);
  }

  /** Only the first file that ends at or after the range start can overlap the range first. */
  lemma SortedOverlap(fs: Level, index: nat, smallest: UserKey, largest: UserKey)
    requires FilesOk(fs) && Disjoint(fs) && index <= |fs|
    requires var key := InternalKey(smallest, MAX_SEQUENCE, KIND_FOR_SEEK);
             (forall i :: 0 <= i < index ==> Less(fs[i].largest, key)) &&
             (forall i :: index <= i < |fs| ==> !Less(fs[i].largest, key))
    requires SequencesFit(fs)
    ensures (exists f :: f in fs && Overlaps(f, Some(smallest), Some(largest))) <==>
            index < |fs| && fs[index].smallest.user <= largest
  {
    forall i | 0 <= i < |fs| && Overlaps(fs[i], Some(smallest), Some(largest))
      ensures index < |fs| && fs[index].smallest.user <= largest
    {
      FileBounds(fs[i]);
      if i > index {
        FileBounds(fs[index]);
      }
    }
    if index < |fs| && fs[index].smallest.user <= largest {
      assert fs[index] in fs && Overlaps(fs[index], Some(smallest), Some(largest));
    }
  }

  /** Version::OverlapInLevel. */
  method OverlapInLevel(levels: Levels, level: nat, smallest: UserKey, largest: UserKey) returns (r: bool)
    requires LevelsSorted(levels) && level < |levels| && SequencesFit(levels[level]) && smallest <= largest
    ensures r <==> !Clear(levels, level, smallest, largest)
  {
    r := SomeFileOverlapsRange(levels[level], level > 0, smallest, largest);
  }

  /** No file of the level meets the user-key range. */
  ghost predicate Clear(levels: Levels, level: nat, smallest: UserKey, largest: UserKey)
    requires level < |levels|
  {
    forall f :: f in levels[level] ==> !Overlaps(f, Some(smallest), Some(largest))
  }

  /** The table may sink from the level to the next: that one does not meet it, and the files that it meets one level
      further down are small enough together. */
  ghost predicate MaySink(levels: Levels, level: nat, smallest: UserKey, largest: UserKey, grandparentLimit: nat)
    requires level + 2 < |levels|
  {
    && Clear(levels, level + 1, smallest, largest)
    && OverlapSize(levels[level + 2], Some(smallest), Some(largest)) <= grandparentLimit
  }

  /** A table goes to level 0 if it meets a file there, and otherwise sinks as far as it may, to level 2 at most. */
  ghost predicate PlacedAt(levels: Levels, smallest: UserKey, largest: UserKey, grandparentLimit: nat, level: nat)
    requires |levels| == NUM_LEVELS
  {
    if !Clear(levels, 0, smallest, largest) then level == 0
    else
      && level <= 2
      && (forall m :: 0 <= m < level ==> MaySink(levels, m, smallest, largest, grandparentLimit))
      && (level < 2 ==> !MaySink(levels, level, smallest, largest, grandparentLimit))
  }

  /** Version::PickLevelForMemTableOutput: a flushed table may skip levels only while none of them
      overlaps it. */
  method PickLevelForMemTableOutput(levels: Levels, smallest: UserKey, largest: UserKey, grandparentLimit: nat)
    returns (level: nat)
    requires LevelsSorted(levels) && |levels| == NUM_LEVELS && smallest <= largest
    requires forall l :: 0 <= l < |levels| ==> SequencesFit(levels[l])
    ensures level <= MAX_MEM_COMPACT_LEVEL && PlacedAt(levels, smallest, largest, grandparentLimit, level)
    ensures level > 0 ==> forall m :: 0 <= m <= level ==> Clear(levels, m, smallest, largest)
  {
    hide Clear, OverlapSize, PlacedAt, MaySink, Overlapping, FilesOk, Disjoint, SequencesFit;
    level := 0;
    var overlap := OverlapInLevel(levels, 0, smallest, largest);
    if !overlap {
      while level < MAX_MEM_COMPACT_LEVEL
        invariant level <= MAX_MEM_COMPACT_LEVEL
        invariant forall m :: 0 <= m <= level ==> Clear(levels, m, smallest, largest)
        invariant forall m :: 0 <= m < level ==> MaySink(levels, m, smallest, largest, grandparentLimit)
      {
        overlap := OverlapInLevel(levels, level + 1, smallest, largest);
        OverlapSizeIs(levels[level + 2], Some(smallest), Some(largest));
        SinkIs(levels, level, smallest, largest, grandparentLimit);
        if overlap {
          break;
        }
        if level + 2 < NUM_LEVELS {
          var overlaps, _, _ := GetOverlappingInputs(levels[level + 2], level + 2, Some(smallest), Some(largest));
          if TotalFileSize(overlaps) > grandparentLimit {
            break;
          }
        }
        level := level + 1;
      }
    }
    PlacedIs(levels, smallest, largest, grandparentLimit, level);
  }

  lemma SinkIs(levels: Levels, level: nat, smallest: UserKey, largest: UserKey, grandparentLimit: nat)
    requires level + 2 < |levels|
    ensures MaySink(levels, level, smallest, largest, grandparentLimit) <==>
              && Clear(levels, level + 1, smallest, largest)
              && OverlapSize(levels[level + 2], Some(smallest), Some(largest)) <= grandparentLimit
  {
    hide Clear, OverlapSize;
  }

  lemma PlacedIs(levels: Levels, smallest: UserKey, largest: UserKey, grandparentLimit: nat, level: nat)
    requires |levels| == NUM_LEVELS && level <= 2
    requires !Clear(levels, 0, smallest, largest) ==> level == 0
    requires Clear(levels, 0, smallest, largest) ==>
               && (forall m :: 0 <= m < level ==> MaySink(levels, m, smallest, largest, grandparentLimit))
               && (level < 2 ==> !MaySink(levels, level, smallest, largest, grandparentLimit))
    ensures PlacedAt(levels, smallest, largest, grandparentLimit, level)
  {
    hide Clear, MaySink;
  }
}
