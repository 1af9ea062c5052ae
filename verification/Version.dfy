/** Versions: seven levels of table files, and reads over them (db/version_set.cc). */
module Version {
  import opened DbFormat
  import opened Visibility

  /** FileMetaData together with the contents of the table it names. */
  datatype File = File(number: nat, size: nat, smallest: InternalKey, largest: InternalKey, entries: seq<Entry>)

  type Level = seq<File>
  type Levels = seq<Level>

  predicate FileOk(f: File) {
    && f.entries != [] && Sorted(f.entries)
    && f.smallest == f.entries[0].key && f.largest == f.entries[|f.entries| - 1].key
  }

  predicate FilesOk(fs: Level) {
    forall f :: f in fs ==> FileOk(f)
  }

  /** BySmallestKey, the order in which every level lists its files. */
  predicate BySmallest(f: File, g: File) {
    Less(f.smallest, g.smallest) || (f.smallest == g.smallest && f.number < g.number)
  }

  predicate SmallestSorted(fs: Level) {
    forall i, j :: 0 <= i < j < |fs| ==> BySmallest(fs[i], fs[j])
  }

  /** Levels 1 and up: files are listed in key order and their ranges do not meet. */
  predicate Disjoint(fs: Level) {
    forall i, j :: 0 <= i < j < |fs| ==> Less(fs[i].largest, fs[j].smallest)
  }

  /** Level 0: of two files, the one with the higher number holds the newer entries. */
  predicate NewerByNumber(fs: Level) {
    forall f, g :: f in fs && g in fs && f.number > g.number ==> Newer(f.entries, g.entries)
  }

  predicate UniqueNumbers(levels: Levels) {
    forall l, m, f, g :: 0 <= l < |levels| && 0 <= m < |levels| && f in levels[l] && g in levels[m] ==>
      f.number == g.number ==> f == g && l == m
  }

  /** For any user key, a shallower level holds newer entries than a deeper one. */
  predicate Layered(levels: Levels) {
    forall l, m, f, g :: 0 <= l < m < |levels| && f in levels[l] && g in levels[m] ==> Newer(f.entries, g.entries)
  }

  /** The structural invariant of a version. */
  predicate VersionOk(levels: Levels) {
    && |levels| == NUM_LEVELS
    && (forall l :: 0 <= l < |levels| ==> FilesOk(levels[l]) && SmallestSorted(levels[l]))
    && (forall l :: 1 <= l < |levels| ==> Disjoint(levels[l]))
    && NewerByNumber(levels[0])
    && UniqueNumbers(levels)
    && Layered(levels)
  }

  lemma VersionLayered(levels: Levels)
    requires VersionOk(levels)
    ensures |levels| == NUM_LEVELS && Layered(levels)
  {
  }

  lemma VersionNumbers(levels: Levels)
    requires VersionOk(levels)
    ensures 0 < |levels| == NUM_LEVELS && UniqueNumbers(levels)
  {
  }

  lemma VersionSorted(levels: Levels)
    requires VersionOk(levels)
    ensures |levels| == NUM_LEVELS && LevelsSorted(levels)
  {
  }

  lemma VersionLevel(levels: Levels, l: nat)
    requires VersionOk(levels) && l < |levels|
    ensures FilesOk(levels[l]) && SmallestSorted(levels[l])
    ensures if l == 0 then NewerByNumber(levels[l]) else Disjoint(levels[l])
  {
  }

  predicate LevelsSorted(levels: Levels) {
    && (forall l :: 0 <= l < |levels| ==> FilesOk(levels[l]))
    && (forall l :: 1 <= l < |levels| ==> Disjoint(levels[l]))
  }

  /** All entries stored in the tables of a version. */
  ghost function Tables(levels: Levels): set<Entry> {
    set l, f, e | 0 <= l < |levels| && f in levels[l] && e in f.entries :: e
  }

  lemma FileBounds(f: File)
    requires FileOk(f)
    ensures forall e :: e in f.entries ==> !Less(e.key, f.smallest) && !Less(f.largest, e.key)
    ensures forall e :: e in f.entries ==> f.smallest.user <= e.key.user <= f.largest.user
    ensures f.smallest.user <= f.largest.user && !Less(f.largest, f.smallest)
  {
    forall e | e in f.entries
      ensures !Less(e.key, f.smallest) && !Less(f.largest, e.key)
    {
      var i :| 0 <= i < |f.entries| && f.entries[i] == e;
      assert i > 0 ==> Less(f.entries[0].key, f.entries[i].key);
    }
    assert f.entries[0] in f.entries;
  }

  /** FindFile: the first file whose largest key is at or after `key`. */
  method FindFile(files: Level, key: InternalKey) returns (index: nat)
    requires FilesOk(files) && Disjoint(files)
    ensures index <= |files|
    ensures forall i :: 0 <= i < index ==> Less(files[i].largest, key)
    ensures forall i :: index <= i < |files| ==> !Less(files[i].largest, key)
  {
    var left, right := 0, |files|;
    while left < right
      invariant 0 <= left <= right <= |files|
      invariant forall i :: 0 <= i < left ==> Less(files[i].largest, key)
      invariant forall i :: right <= i < |files| ==> !Less(files[i].largest, key)
    {
      var mid := (left + right) / 2;
      var f := files[mid];
      forall i | 0 <= i < |files| && i != mid
        ensures i < mid ==> Less(files[i].largest, f.largest)
        ensures i > mid ==> Less(f.largest, files[i].largest)
      {
        FileBounds(f);
        FileBounds(files[i]);
      }
      if Less(f.largest, key) {
        left := mid + 1;
      } else {
        right := mid;
      }
    }
    index := right;
  }

  /** Position of the first entry at or after `target`: the table lookup that blocks, index and
      filter implement. */
  function Seek(es: seq<Entry>, target: InternalKey): (i: nat)
    ensures i <= |es|
    ensures forall j :: 0 <= j < i ==> Less(es[j].key, target)
    ensures i < |es| ==> !Less(es[i].key, target)
  {
    if es == [] || !Less(es[0].key, target) then 0 else 1 + Seek(es[1..], target)
  }

  datatype SaverState = NotFound | Found(value: Value) | Deleted

  function Outcome(e: Entry): SaverState {
    if e.key.kind == TypeValue then Found(e.value) else Deleted
  }

  /** Table seek followed by the SaveValue callback (also MemTable::Get). */
  function Probe(es: seq<Entry>, k: UserKey, s: nat): SaverState {
    var i := Seek(es, SeekKey(k, s));
    if i < |es| && es[i].key.user == k then Outcome(es[i]) else NotFound
  }

  ghost function Elements(es: seq<Entry>): set<Entry> {
    set e | e in es
  }

  /** A probe finds exactly the newest visible entry of one sorted run. */
  lemma ProbeFindsNewest(es: seq<Entry>, k: UserKey, s: nat)
    requires Sorted(es)
    ensures Probe(es, k, s) == NotFound <==> forall e :: !Visible(Elements(es), k, s, e)
    ensures Probe(es, k, s) != NotFound ==>
              exists e :: Newest(Elements(es), k, s, e) && Probe(es, k, s) == Outcome(e)
  {
    var i := Seek(es, SeekKey(k, s));
    forall e | Visible(Elements(es), k, s, e)
      ensures i < |es| && es[i].key.user == k && e.key.seqno <= es[i].key.seqno
    {
      var j :| 0 <= j < |es| && es[j] == e;
      assert j >= i;
      assert j > i ==> Less(es[i].key, es[j].key);
    }
    if i < |es| && es[i].key.user == k {
      assert Visible(Elements(es), k, s, es[i]);
      assert Newest(Elements(es), k, s, es[i]);
    }
  }

  function InsertNewest(f: File, fs: Level): (r: Level)
    requires forall i, j :: 0 <= i < j < |fs| ==> fs[i].number >= fs[j].number
    ensures forall i, j :: 0 <= i < j < |r| ==> r[i].number >= r[j].number
    ensures forall x :: x in r <==> x == f || x in fs
  {
    if fs == [] then [f]
    else if f.number >= fs[0].number then [f] + fs
    else
      var rest := InsertNewest(f, fs[1..]);
      assert forall x :: x in fs <==> x == fs[0] || x in fs[1..];
      assert forall x :: x in fs[1..] ==> x.number <= fs[0].number by {
        assert forall j :: 0 <= j < |fs[1..]| ==> fs[1..][j] == fs[j + 1];
      }
      assert forall j :: 0 <= j < |rest| ==> rest[j] in rest;
      [fs[0]] + rest
  }

  /** std::sort(tmp, NewestFirst). */
  function SortNewestFirst(fs: Level): (r: Level)
    ensures forall i, j :: 0 <= i < j < |r| ==> r[i].number >= r[j].number
    ensures forall x :: x in r <==> x in fs
  {
    if fs == [] then [] else InsertNewest(fs[0], SortNewestFirst(fs[1..]))
  }

  ghost predicate Holds(levels: Levels, l: int, f: File, e: Entry) {
    0 <= l < |levels| && f in levels[l] && e in f.entries
  }

  /** No entry of file `f` is visible to a reader of `k` at `s`. */
  ghost predicate Hides(f: File, k: UserKey, s: nat) {
    forall e :: !Visible(Elements(f.entries), k, s, e)
  }

  /** What a read of the tables must report. */
  ghost predicate Reports(levels: Levels, k: UserKey, s: nat, r: SaverState) {
    if r == NotFound then
      forall e :: !Visible(Tables(levels), k, s, e)
    else
      exists e :: Newest(Tables(levels), k, s, e) && r == Outcome(e)
  }

  /** A file whose user-key range misses `k` holds nothing for it. */
  lemma OutOfRange(f: File, k: UserKey, s: nat)
    requires FileOk(f) && (k < f.smallest.user || f.largest.user < k)
    ensures Hides(f, k, s)
  {
    FileBounds(f);
  }

  /** In a sorted level the file FindFile picks is the only one that can show anything for `k`. */
  lemma OneFilePerLevel(files: Level, index: nat, k: UserKey, s: nat)
    requires FilesOk(files) && Disjoint(files) && index <= |files|
    requires forall i :: 0 <= i < index ==> Less(files[i].largest, SeekKey(k, s))
    requires forall i :: index <= i < |files| ==> !Less(files[i].largest, SeekKey(k, s))
    ensures forall i :: 0 <= i < index ==> Hides(files[i], k, s)
    ensures index < |files| && Probe(files[index].entries, k, s) == NotFound ==>
              forall i :: index < i < |files| ==> Hides(files[i], k, s)
    ensures index < |files| && k < files[index].smallest.user ==>
              forall i :: index <= i < |files| ==> Hides(files[i], k, s)
  {
    forall i | 0 <= i < index ensures Hides(files[i], k, s) {
      FileBounds(files[i]);
    }
    if index < |files| {
      var f := files[index];
      FileBounds(f);
      forall i | index < i < |files| && (Probe(f.entries, k, s) == NotFound || k < f.smallest.user)
        ensures Hides(files[i], k, s)
      {
        FileBounds(files[i]);
        assert Less(f.largest, files[i].smallest);
        if k >= f.largest.user {
          var last := f.entries[|f.entries| - 1];
          ProbeFindsNewest(f.entries, k, s);
          assert last in f.entries;
          if f.largest.user == k {
            assert Visible(Elements(f.entries), k, s, last);
          }
        }
      }
    }
  }

  /** `e` is at least as new as everything file `f` shows for `k`. */
  ghost predicate Tops(f: File, k: UserKey, s: nat, e: Entry) {
    forall x :: Visible(Elements(f.entries), k, s, x) ==> x.key.seqno <= e.key.seqno
  }

  lemma HitIsNewest(levels: Levels, l: nat, f: File, k: UserKey, s: nat, e: Entry)
    requires Layered(levels) && l < |levels| && f in levels[l]
    requires Newest(Elements(f.entries), k, s, e)
    requires forall m, g :: 0 <= m < l && g in levels[m] ==> Hides(g, k, s)
    requires forall g :: g in levels[l] ==> Tops(g, k, s, e)
    ensures Newest(Tables(levels), k, s, e)
  {
    assert Visible(Tables(levels), k, s, e);
    forall x | Visible(Tables(levels), k, s, x)
      ensures x.key.seqno <= e.key.seqno
    {
      var m, g :| 0 <= m < |levels| && g in levels[m] && x in g.entries;
      assert Visible(Elements(g.entries), k, s, x);
      assert !Hides(g, k, s);
      if m == l {
        assert Tops(g, k, s, e);
      } else {
        assert Newer(f.entries, g.entries);
      }
    }
  }

  lemma TopsLaterFiles(files: Level, index: nat, k: UserKey, s: nat, e: Entry)
    requires FilesOk(files) && Disjoint(files) && index < |files|
    requires forall i :: 0 <= i < index ==> Hides(files[i], k, s)
    requires Newest(Elements(files[index].entries), k, s, e)
    ensures forall g :: g in files ==> Tops(g, k, s, e)
  {
    FileBounds(files[index]);
    forall g, x | g in files && Visible(Elements(g.entries), k, s, x)
      ensures x.key.seqno <= e.key.seqno
    {
      var i :| 0 <= i < |files| && files[i] == g;
      FileBounds(g);
      if i > index {
        assert Less(files[index].largest, g.smallest);
        assert Less(e.key, x.key);
      }
    }
  }

  /** The level-0 files whose user-key range covers `k`. */
  method LevelZeroCandidates(files: Level, k: UserKey, ghost s: nat) returns (tmp: Level)
    requires FilesOk(files)
    ensures forall f :: f in tmp <==> f in files && f.smallest.user <= k <= f.largest.user
    ensures forall f :: f in files ==> f in tmp || Hides(f, k, s)
  {
    tmp := [];
    for i := 0 to |files|
      invariant forall f :: f in tmp <==> f in files[..i] && f.smallest.user <= k <= f.largest.user
      invariant forall j :: 0 <= j < i ==> files[j] in tmp || Hides(files[j], k, s)
    {
      var f := files[i];
      if k >= f.smallest.user && k <= f.largest.user {
        tmp := tmp + [f];
      } else {
        OutOfRange(f, k, s);
      }
    }
  }

  /** The newest entry the level shows for `k`, found in its file `f`. */
  ghost predicate LevelShows(files: Level, f: File, k: UserKey, s: nat, e: Entry) {
    f in files && Newest(Elements(f.entries), k, s, e) && forall g :: g in files ==> Tops(g, k, s, e)
  }

  /** First half of Version::Get: level-0 candidates from the newest file to the oldest. */
  method SearchLevelZero(files: Level, k: UserKey, s: nat) returns (r: SaverState, ghost f: File)
    requires FilesOk(files) && NewerByNumber(files)
    requires forall i, j :: 0 <= i < j < |files| ==> files[i].number != files[j].number
    ensures r == NotFound ==> forall g :: g in files ==> Hides(g, k, s)
    ensures r != NotFound ==> exists e :: LevelShows(files, f, k, s, e) && r == Outcome(e)
  {
    hide Sorted, Newer, Less, Probe, Hides, Elements, LevelShows, NewerByNumber, SortNewestFirst, FileOk, SeekKey;
    f := File(0, 0, SeekKey(k, s), SeekKey(k, s), []);
    var tmp := LevelZeroCandidates(files, k, s);
    tmp := SortNewestFirst(tmp);
    for i := 0 to |tmp|
      invariant forall j :: 0 <= j < i ==> Hides(tmp[j], k, s)
    {
      f := tmp[i];
      assert f in tmp && FileOk(f);
      r := Probe(tmp[i].entries, k, s);
      ProbeHides(f, k, s);
      if r != NotFound {
        LevelZeroHit(files, tmp, i, k, s);
        return;
      }
    }
    r := NotFound;
  }

  lemma ProbeHides(f: File, k: UserKey, s: nat)
    requires FileOk(f)
    ensures Probe(f.entries, k, s) == NotFound <==> Hides(f, k, s)
  {
    hide Sorted, Probe, Elements;
    ProbeFindsNewest(f.entries, k, s);
  }

  lemma LevelZeroHit(files: Level, tmp: Level, i: nat, k: UserKey, s: nat)
    requires FilesOk(files) && NewerByNumber(files) && i < |tmp|
    requires forall a, b :: 0 <= a < b < |files| ==> files[a].number != files[b].number
    requires forall f :: f in tmp ==> f in files
    requires forall f :: f in files ==> f in tmp || Hides(f, k, s)
    requires forall a, b :: 0 <= a < b < |tmp| ==> tmp[a].number >= tmp[b].number
    requires forall j :: 0 <= j < i ==> Hides(tmp[j], k, s)
    requires Probe(tmp[i].entries, k, s) != NotFound
    ensures exists e :: LevelShows(files, tmp[i], k, s, e) && Probe(tmp[i].entries, k, s) == Outcome(e)
  {
    var f := tmp[i];
    assert f in tmp;
    ProbeFindsNewest(f.entries, k, s);
    var e :| Newest(Elements(f.entries), k, s, e) && Probe(f.entries, k, s) == Outcome(e);
    forall g | g in files ensures Tops(g, k, s, e) {
      if !Hides(g, k, s) {
        var j :| 0 <= j < |tmp| && tmp[j] == g;
        assert j >= i;
        if g != f {
          assert f.number > g.number;
          assert Newer(f.entries, g.entries);
        }
      }
    }
    assert LevelShows(files, f, k, s, e);
  }

  /** One deeper level: binary search, then at most one table lookup. */
  method SearchLevel(files: Level, k: UserKey, s: nat) returns (r: SaverState, ghost f: File)
    requires FilesOk(files) && Disjoint(files)
    ensures r == NotFound ==> forall g :: g in files ==> Hides(g, k, s)
    ensures r != NotFound ==> exists e :: LevelShows(files, f, k, s, e) && r == Outcome(e)
  {
    r := NotFound;
    f := File(0, 0, SeekKey(k, s), SeekKey(k, s), []);
    var index := FindFile(files, SeekKey(k, s));
    OneFilePerLevel(files, index, k, s);
    if index < |files| && k >= files[index].smallest.user {
      f := files[index];
      assert FileOk(f);
      r := Probe(files[index].entries, k, s);
      ProbeFindsNewest(f.entries, k, s);
      if r != NotFound {
        ghost var e :| Newest(Elements(f.entries), k, s, e) && r == Outcome(e);
        TopsLaterFiles(files, index, k, s, e);
        assert LevelShows(files, f, k, s, e);
      }
    }
  }

  /** Version::Get over ForEachOverlapping: level 0 from the newest file to the oldest, then at most
      one file of each deeper level; the first file that has the key decides. */
  method Get(levels: Levels, k: UserKey, s: nat) returns (r: SaverState)
    requires VersionOk(levels)
    ensures Reports(levels, k, s, r)
  {
    ghost var f;
    LevelZeroNumbers(levels);
    r, f := SearchLevelZero(levels[0], k, s);
    if r != NotFound {
      ghost var e :| LevelShows(levels[0], f, k, s, e) && r == Outcome(e);
      HitIsNewest(levels, 0, f, k, s, e);
      return;
    }
    for level := 1 to |levels|
      invariant r == NotFound
      invariant forall m, g :: 0 <= m < level && g in levels[m] ==> Hides(g, k, s)
    {
      r, f := SearchLevel(levels[level], k, s);
      if r != NotFound {
        ghost var e :| LevelShows(levels[level], f, k, s, e) && r == Outcome(e);
        HitIsNewest(levels, level, f, k, s, e);
        return;
      }
    }
    AllHide(levels, k, s);
  }

  lemma AllHide(levels: Levels, k: UserKey, s: nat)
    requires forall m, g :: 0 <= m < |levels| && g in levels[m] ==> Hides(g, k, s)
    ensures Reports(levels, k, s, NotFound)
  {
    forall e ensures !Visible(Tables(levels), k, s, e) {
      if Visible(Tables(levels), k, s, e) {
        var m, g :| 0 <= m < |levels| && g in levels[m] && e in g.entries;
        assert Hides(g, k, s) && Visible(Elements(g.entries), k, s, e);
      }
    }
  }

  lemma LevelZeroNumbers(levels: Levels)
    requires |levels| > 0 && UniqueNumbers(levels) && SmallestSorted(levels[0])
    ensures forall i, j :: 0 <= i < j < |levels[0]| ==> levels[0][i].number != levels[0][j].number
  {
    forall i, j | 0 <= i < j < |levels[0]| ensures levels[0][i].number != levels[0][j].number {
      assert BySmallest(levels[0][i], levels[0][j]);
      assert levels[0][i] in levels[0] && levels[0][j] in levels[0];
    }
  }
}
