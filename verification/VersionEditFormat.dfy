/** Version edits as bytes, and the edits a manifest gives back (db/version_edit.cc, the read loop of
    VersionSet::Recover in db/version_set.cc). */
module VersionEditFormat {
  import opened DbFormat
  import opened Coding
  import opened LogFormat

  const COMPARATOR := 1
  const LOG_NUMBER := 2
  const NEXT_FILE_NUMBER := 3
  const LAST_SEQUENCE := 4
  const COMPACT_POINTER := 5
  const DELETED_FILE := 6
  const NEW_FILE := 7
  const PREV_LOG_NUMBER := 9

  datatype FileRecord = FileRecord(number: U64, size: U64, smallest: Bytes, largest: Bytes)

  /** Keys are encoded internal keys; `deleted` lists a std::set of pairs in its order. */
  datatype Edit = Edit(
    comparator: Option<Bytes>,
    logNumber: Option<U64>,
    prevLogNumber: Option<U64>,
    nextFile: Option<U64>,
    lastSequence: Option<U64>,
    compactPointers: seq<(U32, Bytes)>,
    deleted: seq<(U32, U64)>,
    newFiles: seq<(U32, FileRecord)>)

  const NO_EDIT := Edit(None, None, None, None, None, [], [], [])

  predicate PairLess(a: (U32, U64), b: (U32, U64)) {
    a.0 < b.0 || (a.0 == b.0 && a.1 < b.1)
  }

  predicate StrictlySorted(s: seq<(U32, U64)>) {
    forall i, j :: 0 <= i < j < |s| ==> PairLess(s[i], s[j])
  }

  predicate KeyFits(key: Bytes) { 0 < |key| < 0x1_0000_0000 }

  /** Edits the database produces: levels exist, keys are not empty, lengths fit 32 bits. */
  predicate WellFormed(e: Edit) {
    && (e.comparator.Some? ==> |e.comparator.value| < 0x1_0000_0000)
    && (forall p :: p in e.compactPointers ==> p.0 < NUM_LEVELS && KeyFits(p.1))
    && (forall p :: p in e.deleted ==> p.0 < NUM_LEVELS) && StrictlySorted(e.deleted)
    && (forall p :: p in e.newFiles ==> p.0 < NUM_LEVELS && KeyFits(p.1.smallest) && KeyFits(p.1.largest))
  }

  // ---- An edit as a list of tagged items -------------------------------------------------------

  datatype Item =
    | Comparator(name: Bytes)
    | LogNumber(number: U64)
    | PrevLogNumber(number: U64)
    | NextFile(number: U64)
    | LastSequence(number: U64)
    | CompactPointer(level: U32, key: Bytes)
    | DeletedFile(level: U32, number: U64)
    | NewFile(level: U32, file: FileRecord)

  function Tag(x: Item): U32 {
    match x
    case Comparator(_) => COMPARATOR
    case LogNumber(_) => LOG_NUMBER
    case PrevLogNumber(_) => PREV_LOG_NUMBER
    case NextFile(_) => NEXT_FILE_NUMBER
    case LastSequence(_) => LAST_SEQUENCE
    case CompactPointer(_, _) => COMPACT_POINTER
    case DeletedFile(_, _) => DELETED_FILE
    case NewFile(_, _) => NEW_FILE
  }

  function FileBytes(f: FileRecord): Bytes {
    Varint(f.number) + (Varint(f.size) + (Prefixed(f.smallest) + Prefixed(f.largest)))
  }

  function Payload(x: Item): Bytes {
    match x
    case Comparator(name) => Prefixed(name)
    case LogNumber(n) => Varint(n)
    case PrevLogNumber(n) => Varint(n)
    case NextFile(n) => Varint(n)
    case LastSequence(n) => Varint(n)
    case CompactPointer(level, key) => Varint(level) + Prefixed(key)
    case DeletedFile(level, n) => Varint(level) + Varint(n)
    case NewFile(level, f) => Varint(level) + FileBytes(f)
  }

  predicate ItemFits(x: Item) {
    match x
    case Comparator(name) => |name| < 0x1_0000_0000
    case CompactPointer(level, key) => level < NUM_LEVELS && KeyFits(key)
    case DeletedFile(level, _) => level < NUM_LEVELS
    case NewFile(level, f) => level < NUM_LEVELS && KeyFits(f.smallest) && KeyFits(f.largest)
    case _ => true
  }

  function ItemBytes(x: Item): Bytes { Varint(Tag(x)) + Payload(x) }

  function ItemsBytes(xs: seq<Item>): Bytes {
    if xs == [] then [] else ItemBytes(xs[0]) + ItemsBytes(xs[1..])
  }

  /** The first n scalar fields of an edit, those that are set. */
  function FirstFields(e: Edit, n: nat): seq<Item> {
    if n == 0 then []
    else FirstFields(e, n - 1) + Field(e, n - 1)
  }

  function Field(e: Edit, i: nat): seq<Item> {
    match i
    case 0 => if e.comparator.Some? then [Comparator(e.comparator.value)] else []
    case 1 => if e.logNumber.Some? then [LogNumber(e.logNumber.value)] else []
    case 2 => if e.prevLogNumber.Some? then [PrevLogNumber(e.prevLogNumber.value)] else []
    case 3 => if e.nextFile.Some? then [NextFile(e.nextFile.value)] else []
    case 4 => if e.lastSequence.Some? then [LastSequence(e.lastSequence.value)] else []
    case _ => []
  }

  function Fields(e: Edit): seq<Item> { FirstFields(e, 5) }

  function Pointers(ps: seq<(U32, Bytes)>): seq<Item> {
    seq(|ps|, i requires 0 <= i < |ps| => CompactPointer(ps[i].0, ps[i].1))
  }

  function Deletions(ps: seq<(U32, U64)>): seq<Item> {
    seq(|ps|, i requires 0 <= i < |ps| => DeletedFile(ps[i].0, ps[i].1))
  }

  function Additions(ps: seq<(U32, FileRecord)>): seq<Item> {
    seq(|ps|, i requires 0 <= i < |ps| => NewFile(ps[i].0, ps[i].1))
  }

  /** The order in which EncodeTo writes. */
  function Items(e: Edit): seq<Item> {
    Fields(e) + Pointers(e.compactPointers) + Deletions(e.deleted) + Additions(e.newFiles)
  }

  /** std::set::insert. */
  function InsertPair(s: seq<(U32, U64)>, p: (U32, U64)): seq<(U32, U64)> {
    if s == [] then [p]
    else if PairLess(p, s[0]) then [p] + s
    else if p == s[0] then s
    else [s[0]] + InsertPair(s[1..], p)
  }

  /** What decoding one item does to the edit. */
  function Set(e: Edit, x: Item): Edit {
    match x
    case Comparator(name) => e.(comparator := Some(name))
    case LogNumber(n) => e.(logNumber := Some(n))
    case PrevLogNumber(n) => e.(prevLogNumber := Some(n))
    case NextFile(n) => e.(nextFile := Some(n))
    case LastSequence(n) => e.(lastSequence := Some(n))
    case CompactPointer(level, key) => e.(compactPointers := e.compactPointers + [(level, key)])
    case DeletedFile(level, n) => e.(deleted := InsertPair(e.deleted, (level, n)))
    case NewFile(level, f) => e.(newFiles := e.newFiles + [(level, f)])
  }

  function SetAll(e: Edit, xs: seq<Item>): Edit {
    if xs == [] then e else Set(SetAll(e, xs[..|xs| - 1]), xs[|xs| - 1])
  }

  lemma {:induction false} ItemsBytesAppend(a: seq<Item>, x: Item)
    ensures ItemsBytes(a + [x]) == ItemsBytes(a) + ItemBytes(x)
  {
    hide ItemBytes;
    if a == [] {
      assert [x][1..] == [] && [] + [x] == [x];
    } else {
      assert (a + [x])[1..] == a[1..] + [x];
      ItemsBytesAppend(a[1..], x);
    }
  }

  lemma SetOneMore(e: Edit, a: seq<Item>, x: Item)
    ensures SetAll(e, a + [x]) == Set(SetAll(e, a), x)
  {
    hide Set;
    assert (a + [x])[..|a|] == a;
  }

  lemma {:induction false} SetAllAppend(e: Edit, a: seq<Item>, b: seq<Item>)
    ensures SetAll(e, a + b) == SetAll(SetAll(e, a), b)
  {
    hide Set;
    if b == [] {
      assert a + [] == a;
    } else {
      var before, x := b[..|b| - 1], b[|b| - 1];
      assert a + b == (a + before) + [x] && b == before + [x];
      SetAllAppend(e, a, before);
      SetOneMore(e, a + before, x);
      SetOneMore(SetAll(e, a), before, x);
    }
  }

  lemma {:induction false} SetPointers(e: Edit, ps: seq<(U32, Bytes)>)
    ensures SetAll(e, Pointers(ps)) == e.(compactPointers := e.compactPointers + ps)
  {
    if ps != [] {
      var before, p := ps[..|ps| - 1], ps[|ps| - 1];
      assert Pointers(ps) == Pointers(before) + [CompactPointer(p.0, p.1)];
      SetPointers(e, before);
      SetOneMore(e, Pointers(before), CompactPointer(p.0, p.1));
      assert e.compactPointers + ps == e.compactPointers + before + [p];
    }
  }

  lemma {:induction false} SetAdditions(e: Edit, ps: seq<(U32, FileRecord)>)
    ensures SetAll(e, Additions(ps)) == e.(newFiles := e.newFiles + ps)
  {
    if ps != [] {
      var before, p := ps[..|ps| - 1], ps[|ps| - 1];
      assert Additions(ps) == Additions(before) + [NewFile(p.0, p.1)];
      SetAdditions(e, before);
      SetOneMore(e, Additions(before), NewFile(p.0, p.1));
      assert e.newFiles + ps == e.newFiles + before + [p];
    }
  }

  /** Inserting past the end of a sorted set appends. */
  lemma {:induction false} InsertLast(s: seq<(U32, U64)>, p: (U32, U64))
    requires forall x :: x in s ==> PairLess(x, p)
    ensures InsertPair(s, p) == s + [p]
  {
    if s != [] {
      assert s[0] in s;
      InsertLast(s[1..], p);
    }
  }

  /** Inserting keeps the set sorted without repetitions and adds the one pair. */
  lemma {:induction false} InsertedPair(s: seq<(U32, U64)>, p: (U32, U64))
    requires StrictlySorted(s)
    ensures StrictlySorted(InsertPair(s, p)) && forall x :: x in InsertPair(s, p) <==> x in s || x == p
  {
    if s != [] {
      var rest := s[1..];
      InsertedPair(rest, p);
      assert s == [s[0]] + rest;
      assert forall x :: x in s <==> x == s[0] || x in rest;
      assert forall x :: x in rest ==> PairLess(s[0], x);
      assert forall j :: 0 <= j < |s| ==> s[j] in s;
      var r := InsertPair(rest, p);
      assert forall j :: 0 <= j < |r| ==> r[j] in r;
    }
  }

  /** The deletions of an edit are those it had and those of its items, in order and each of them once, however often
      and in whatever order the items name them. */
  lemma {:induction false} DeletionsAreSet(e: Edit, xs: seq<Item>)
    requires StrictlySorted(e.deleted)
    ensures StrictlySorted(SetAll(e, xs).deleted)
    ensures forall p: (U32, U64) :: p in SetAll(e, xs).deleted <==> p in e.deleted || DeletedFile(p.0, p.1) in xs
  {
    if xs != [] {
      var before, x := xs[..|xs| - 1], xs[|xs| - 1];
      assert xs == before + [x];
      DeletionsAreSet(e, before);
      if x.DeletedFile? {
        InsertedPair(SetAll(e, before).deleted, (x.level, x.number));
      }
    }
  }

  lemma {:induction false} SetDeletions(e: Edit, ps: seq<(U32, U64)>)
    requires e.deleted == [] && StrictlySorted(ps)
    ensures SetAll(e, Deletions(ps)) == e.(deleted := ps)
  {
    if ps != [] {
      var before, p := ps[..|ps| - 1], ps[|ps| - 1];
      assert Deletions(ps) == Deletions(before) + [DeletedFile(p.0, p.1)];
      SetDeletions(e, before);
      SetOneMore(e, Deletions(before), DeletedFile(p.0, p.1));
      InsertLast(before, p);
      assert ps == before + [p];
    }
  }

  /** The edit after its first n scalar fields were decoded. */
  function Partly(e: Edit, pointers: seq<(U32, Bytes)>, n: nat): Edit {
    Edit(if n > 0 then e.comparator else None, if n > 1 then e.logNumber else None,
         if n > 2 then e.prevLogNumber else None, if n > 3 then e.nextFile else None,
         if n > 4 then e.lastSequence else None, pointers, [], [])
  }

  lemma PartlyStep(e: Edit, pointers: seq<(U32, Bytes)>, n: nat)
    requires n < 5
    ensures |Field(e, n)| <= 1
    ensures Partly(e, pointers, n + 1) ==
            if Field(e, n) == [] then Partly(e, pointers, n) else Set(Partly(e, pointers, n), Field(e, n)[0])
  {
  }

  lemma {:induction false} SetFirstFields(e: Edit, pointers: seq<(U32, Bytes)>, n: nat)
    requires n <= 5
    ensures SetAll(Partly(e, pointers, 0), FirstFields(e, n)) == Partly(e, pointers, n)
  {
    hide SetAll, Set, Partly, Field;
    var start := Partly(e, pointers, 0);
    if n == 0 {
      SetNothing(start);
    } else {
      SetFirstFields(e, pointers, n - 1);
      SetAllAppend(start, FirstFields(e, n - 1), Field(e, n - 1));
      PartlyStep(e, pointers, n - 1);
      SetOpt(Partly(e, pointers, n - 1), Field(e, n - 1));
    }
  }

  lemma SetFields(e: Edit, f: Edit)
    requires f == NO_EDIT.(compactPointers := f.compactPointers)
    ensures SetAll(f, Fields(e)) ==
            Edit(e.comparator, e.logNumber, e.prevLogNumber, e.nextFile, e.lastSequence, f.compactPointers, [], [])
  {
    assert f == Partly(e, f.compactPointers, 0);
    hide SetAll, FirstFields;
    SetFirstFields(e, f.compactPointers, 5);
  }

  lemma SetNothing(f: Edit)
    ensures SetAll(f, []) == f
  {
  }

  lemma SetOpt(f: Edit, xs: seq<Item>)
    requires |xs| <= 1
    ensures SetAll(f, xs) == if xs == [] then f else Set(f, xs[0])
  {
    hide Set;
    if xs != [] {
      assert xs[..0] == [];
    }
  }

  /** Decoding the items of an edit rebuilds it, except that compaction pointers add up: Clear leaves the
      ones already there. */
  lemma ItemsRebuild(e: Edit, kept: seq<(U32, Bytes)>)
    requires WellFormed(e)
    ensures SetAll(NO_EDIT.(compactPointers := kept), Items(e)) == e.(compactPointers := kept + e.compactPointers)
  {
    var start := NO_EDIT.(compactPointers := kept);
    hide SetAll, Set, Fields, Pointers, Deletions, Additions;
    var a, b, c, d := Fields(e), Pointers(e.compactPointers), Deletions(e.deleted), Additions(e.newFiles);
    SetAllAppend(start, a + b + c, d);
    SetAllAppend(start, a + b, c);
    SetAllAppend(start, a, b);
    SetFields(e, start);
    SetPointers(SetAll(start, a), e.compactPointers);
    SetDeletions(SetAll(start, a + b), e.deleted);
    SetAdditions(SetAll(start, a + b + c), e.newFiles);
  }

  // ---- Decoding one item -----------------------------------------------------------------------

  function DecodeLevel(input: Bytes): Parsed<U32> {
    match DecodeVarint32(input)
    case Parsed(v, rest) => if v < NUM_LEVELS then Parsed(v, rest) else Bad
    case Bad => Bad
  }

  function DecodeKey(input: Bytes): Parsed<Bytes> {
    match DecodePrefixed(input)
    case Parsed(k, rest) => if k != [] then Parsed(k, rest) else Bad
    case Bad => Bad
  }

  lemma LevelRoundTrip(level: U32, rest: Bytes)
    requires level < NUM_LEVELS
    ensures DecodeLevel(Varint(level) + rest) == Parsed(level, rest)
  {
    Varint32RoundTrip(level, rest);
  }

  lemma KeyRoundTrip(key: Bytes, rest: Bytes)
    requires KeyFits(key)
    ensures DecodeKey(Prefixed(key) + rest) == Parsed(key, rest)
  {
    PrefixedRoundTrip(key, rest);
  }

  /** Reading an item's payload back, field by field. */
  lemma PayloadRoundTrip(x: Item, rest: Bytes)
    requires ItemFits(x)
    ensures var input := Payload(x) + rest;
            match x
            case Comparator(name) => DecodePrefixed(input) == Parsed(name, rest)
            case CompactPointer(level, key) =>
              DecodeLevel(input) == Parsed(level, Prefixed(key) + rest)
                && DecodeKey(Prefixed(key) + rest) == Parsed(key, rest)
            case DeletedFile(level, n) =>
              DecodeLevel(input) == Parsed(level, Varint(n) + rest)
                && DecodeVarint64(Varint(n) + rest) == Parsed(n, rest)
            case NewFile(level, f) => DecodeLevel(input) == Parsed(level, FileBytes(f) + rest)
            case _ => DecodeVarint64(input) == Parsed(x.number, rest)
  {
    hide Prefixed, Varint, DecodePrefixed, DecodeLevel, DecodeKey, DecodeVarint64, FileBytes;
    match x {
      case Comparator(name) => PrefixedRoundTrip(name, rest);
      case CompactPointer(level, key) =>
        Regroup(Varint(level), Prefixed(key), rest);
        LevelRoundTrip(level, Prefixed(key) + rest);
        KeyRoundTrip(key, rest);
      case DeletedFile(level, n) =>
        Regroup(Varint(level), Varint(n), rest);
        LevelRoundTrip(level, Varint(n) + rest);
        Varint64RoundTrip(n, rest);
      case NewFile(level, f) =>
        Regroup(Varint(level), FileBytes(f), rest);
        LevelRoundTrip(level, FileBytes(f) + rest);
      case _ => Varint64RoundTrip(x.number, rest);
    }
  }

  lemma FileRoundTrip(f: FileRecord, rest: Bytes)
    requires KeyFits(f.smallest) && KeyFits(f.largest)
    ensures var keys := Prefixed(f.smallest) + (Prefixed(f.largest) + rest);
            && DecodeVarint64(FileBytes(f) + rest) == Parsed(f.number, Varint(f.size) + keys)
            && DecodeVarint64(Varint(f.size) + keys) == Parsed(f.size, keys)
            && DecodeKey(keys) == Parsed(f.smallest, Prefixed(f.largest) + rest)
            && DecodeKey(Prefixed(f.largest) + rest) == Parsed(f.largest, rest)
  {
    hide Prefixed, Varint, DecodeKey, DecodeVarint64;
    var keys := Prefixed(f.smallest) + (Prefixed(f.largest) + rest);
    assert FileBytes(f) + rest == Varint(f.number) + (Varint(f.size) + keys);
    Varint64RoundTrip(f.number, Varint(f.size) + keys);
    Varint64RoundTrip(f.size, keys);
    KeyRoundTrip(f.smallest, Prefixed(f.largest) + rest);
    KeyRoundTrip(f.largest, rest);
  }

  /** All fields of an item decode, and then `rest` is left. */
  lemma NextItem(xs: seq<Item>)
    requires xs != [] && forall x :: x in xs ==> ItemFits(x)
    ensures DecodeVarint32(ItemsBytes(xs)) == Parsed(Tag(xs[0]), Payload(xs[0]) + ItemsBytes(xs[1..]))
    ensures ItemFits(xs[0]) && forall x :: x in xs[1..] ==> ItemFits(x)
  {
    hide Varint, DecodeVarint32, Tag, Payload, ItemFits;
    Regroup(Varint(Tag(xs[0])), Payload(xs[0]), ItemsBytes(xs[1..]));
    Varint32RoundTrip(Tag(xs[0]), Payload(xs[0]) + ItemsBytes(xs[1..]));
  }

  lemma {:induction false} FieldsFit(e: Edit, n: nat)
    requires WellFormed(e)
    ensures forall x :: x in FirstFields(e, n) ==> ItemFits(x)
  {
    if n > 0 {
      FieldsFit(e, n - 1);
    }
  }

  lemma ItemsFit(e: Edit)
    requires WellFormed(e)
    ensures forall x :: x in Items(e) ==> ItemFits(x)
  {
    hide KeyFits, StrictlySorted, FirstFields;
    FieldsFit(e, 5);
    forall x | x in Items(e) ensures ItemFits(x) {
      if x in Pointers(e.compactPointers) {
        var i :| 0 <= i < |e.compactPointers| && x == Pointers(e.compactPointers)[i];
        assert e.compactPointers[i] in e.compactPointers;
      } else if x in Deletions(e.deleted) {
        var i :| 0 <= i < |e.deleted| && x == Deletions(e.deleted)[i];
        assert e.deleted[i] in e.deleted;
      } else if x in Additions(e.newFiles) {
        var i :| 0 <= i < |e.newFiles| && x == Additions(e.newFiles)[i];
        assert e.newFiles[i] in e.newFiles;
      }
    }
  }

  datatype Status = OK | Corruption(message: string) | InvalidArgument

  class VersionEdit {
    var comparator: Option<Bytes>
    var logNumber: Option<U64>
    var prevLogNumber: Option<U64>
    var nextFile: Option<U64>
    var lastSequence: Option<U64>
    var compactPointers: seq<(U32, Bytes)>
    var deleted: seq<(U32, U64)>
    var newFiles: seq<(U32, FileRecord)>

    function View(): Edit
      reads this
    {
      Edit(comparator, logNumber, prevLogNumber, nextFile, lastSequence, compactPointers, deleted, newFiles)
    }

    constructor ()
      ensures View() == NO_EDIT
    {
      comparator, logNumber, prevLogNumber, nextFile, lastSequence := None, None, None, None, None;
      compactPointers, deleted, newFiles := [], [], [];
    }

    /** Clear leaves the compaction pointers alone. */
    method Clear()
      modifies this
      ensures View() == NO_EDIT.(compactPointers := old(compactPointers))
    {
      comparator, logNumber, prevLogNumber, nextFile, lastSequence := None, None, None, None, None;
      deleted, newFiles := [], [];
    }

    method EncodeTo() returns (dst: Bytes)
      ensures dst == ItemsBytes(Items(View()))
    {
      hide ItemsBytes, Varint, Prefixed;
      dst := EncodeFields();
      ghost var done := Fields(View());
      for i := 0 to |compactPointers|
        invariant done == Fields(View()) + Pointers(compactPointers[..i]) && dst == ItemsBytes(done)
      {
        var p := compactPointers[i];
        ghost var x := CompactPointer(p.0, p.1);
        dst := dst + (Varint(COMPACT_POINTER) + (Varint(p.0) + Prefixed(p.1)));
        ItemsBytesAppend(done, x);
        assert Pointers(compactPointers[..i + 1]) == Pointers(compactPointers[..i]) + [x];
        done := done + [x];
      }
      ghost var head := done;
      for i := 0 to |deleted|
        invariant done == head + Deletions(deleted[..i]) && dst == ItemsBytes(done)
      {
        var p := deleted[i];
        ghost var x := DeletedFile(p.0, p.1);
        dst := dst + (Varint(DELETED_FILE) + (Varint(p.0) + Varint(p.1)));
        ItemsBytesAppend(done, x);
        assert Deletions(deleted[..i + 1]) == Deletions(deleted[..i]) + [x];
        done := done + [x];
      }
      ghost var middle := done;
      for i := 0 to |newFiles|
        invariant done == middle + Additions(newFiles[..i]) && dst == ItemsBytes(done)
      {
        var p := newFiles[i];
        ghost var x := NewFile(p.0, p.1);
        dst := dst + (Varint(NEW_FILE) + (Varint(p.0) + FileBytes(p.1)));
        ItemsBytesAppend(done, x);
        assert Additions(newFiles[..i + 1]) == Additions(newFiles[..i]) + [x];
        done := done + [x];
      }
      assert compactPointers[..|compactPointers|] == compactPointers;
      assert deleted[..|deleted|] == deleted && newFiles[..|newFiles|] == newFiles;
    }

    /** The part of EncodeTo before its loops. */
    method EncodeFields() returns (dst: Bytes)
      ensures dst == ItemsBytes(Fields(View()))
    {
      hide ItemsBytes, Varint, Prefixed, FirstFields;
      ghost var e := View();
      NoItems();
      NoFields(e);
      dst := [];
      MoreFields(e, 0);
      if comparator.Some? {
        dst := dst + (Varint(COMPARATOR) + Prefixed(comparator.value));
      }
      assert dst == ItemsBytes(FirstFields(e, 1));
      MoreFields(e, 1);
      if logNumber.Some? {
        dst := dst + (Varint(LOG_NUMBER) + Varint(logNumber.value));
      }
      assert dst == ItemsBytes(FirstFields(e, 2));
      MoreFields(e, 2);
      if prevLogNumber.Some? {
        dst := dst + (Varint(PREV_LOG_NUMBER) + Varint(prevLogNumber.value));
      }
      assert dst == ItemsBytes(FirstFields(e, 3));
      MoreFields(e, 3);
      if nextFile.Some? {
        dst := dst + (Varint(NEXT_FILE_NUMBER) + Varint(nextFile.value));
      }
      assert dst == ItemsBytes(FirstFields(e, 4));
      MoreFields(e, 4);
      if lastSequence.Some? {
        dst := dst + (Varint(LAST_SEQUENCE) + Varint(lastSequence.value));
      }
      assert dst == ItemsBytes(FirstFields(e, 5));
    }

    static lemma NoFields(e: Edit)
      ensures FirstFields(e, 0) == []
    {
    }

    static lemma MoreFields(e: Edit, n: nat)
      ensures ItemsBytes(FirstFields(e, n + 1)) ==
              if Field(e, n) == [] then ItemsBytes(FirstFields(e, n))
              else ItemsBytes(FirstFields(e, n)) + ItemBytes(Field(e, n)[0])
    {
      hide ItemsBytes, ItemBytes;
      if Field(e, n) == [] {
        assert FirstFields(e, n) + [] == FirstFields(e, n);
      } else {
        assert Field(e, n) == [Field(e, n)[0]];
        ItemsBytesAppend(FirstFields(e, n), Field(e, n)[0]);
      }
    }

    static lemma NoItems()
      ensures ItemsBytes([]) == []
    {
    }

    /** The switch of DecodeFrom for one tag: what is left of the input, or Bad for a malformed field. */
    method DecodeField(tag: U32, input: Bytes, ghost x: Item, ghost left: Bytes) returns (r: Parsed<bool>)
      modifies this
      ensures tag == Tag(x) && ItemFits(x) && input == Payload(x) + left ==>
                r == Parsed(true, left) && View() == Set(old(View()), x)
      ensures r.Parsed? ==> |r.rest| <= |input|
    {
      hide Varint, Prefixed, DecodePrefixed, DecodeVarint32, DecodeVarint64, DecodeLevel, DecodeKey, FileBytes, KeyFits;
      if ItemFits(x) {
        PayloadRoundTrip(x, left);
      }
      if tag == COMPARATOR {
        var name := GetLengthPrefixedSlice(input);
        if name.Parsed? {
          comparator := Some(name.value);
          return Parsed(true, name.rest);
        }
      } else if tag == LOG_NUMBER {
        var n := GetVarint64(input);
        if n.Parsed? {
          logNumber := Some(n.value);
          return Parsed(true, n.rest);
        }
      } else if tag == PREV_LOG_NUMBER {
        var n := GetVarint64(input);
        if n.Parsed? {
          prevLogNumber := Some(n.value);
          return Parsed(true, n.rest);
        }
      } else if tag == NEXT_FILE_NUMBER {
        var n := GetVarint64(input);
        if n.Parsed? {
          nextFile := Some(n.value);
          return Parsed(true, n.rest);
        }
      } else if tag == LAST_SEQUENCE {
        var n := GetVarint64(input);
        if n.Parsed? {
          lastSequence := Some(n.value);
          return Parsed(true, n.rest);
        }
      } else if tag == COMPACT_POINTER {
        var level := GetLevel(input);
        if level.Parsed? {
          var key := GetInternalKey(level.rest);
          if key.Parsed? {
            compactPointers := compactPointers + [(level.value, key.value)];
            return Parsed(true, key.rest);
          }
        }
      } else if tag == DELETED_FILE {
        var level := GetLevel(input);
        if level.Parsed? {
          var n := GetVarint64(level.rest);
          if n.Parsed? {
            deleted := InsertPair(deleted, (level.value, n.value));
            return Parsed(true, n.rest);
          }
        }
      } else if tag == NEW_FILE {
        var level := GetLevel(input);
        if level.Parsed? {
          var file := GetFile(level.rest, if x.NewFile? then x.file else FileRecord(0, 0, [], []), left);
          if file.Parsed? {
            newFiles := newFiles + [(level.value, file.value)];
            return Parsed(true, file.rest);
          }
        }
      }
      r := Bad;
    }

    static method GetLevel(input: Bytes) returns (r: Parsed<U32>)
      ensures r == DecodeLevel(input) && (r.Parsed? ==> |r.rest| < |input|)
    {
      var v := GetVarint32(input);
      match v
      case Parsed(n, rest) => r := if n < NUM_LEVELS then Parsed(n, rest) else Bad;
      case Bad => r := Bad;
    }

    static method GetInternalKey(input: Bytes) returns (r: Parsed<Bytes>)
      ensures r == DecodeKey(input) && (r.Parsed? ==> |r.rest| < |input|)
    {
      var v := GetLengthPrefixedSlice(input);
      match v
      case Parsed(k, rest) => r := if k != [] then Parsed(k, rest) else Bad;
      case Bad => r := Bad;
    }

    static method GetFile(input: Bytes, ghost f: FileRecord, ghost left: Bytes) returns (r: Parsed<FileRecord>)
      ensures KeyFits(f.smallest) && KeyFits(f.largest) && input == FileBytes(f) + left ==> r == Parsed(f, left)
      ensures r.Parsed? ==> |r.rest| < |input|
    {
      hide FileBytes, KeyFits, DecodeVarint64, DecodeKey;
      if KeyFits(f.smallest) && KeyFits(f.largest) {
        FileRoundTrip(f, left);
      }
      var number := GetVarint64(input);
      if number.Parsed? {
        var size := GetVarint64(number.rest);
        if size.Parsed? {
          var smallest := GetInternalKey(size.rest);
          if smallest.Parsed? {
            var largest := GetInternalKey(smallest.rest);
            if largest.Parsed? {
              return Parsed(FileRecord(number.value, size.value, smallest.value, largest.value), largest.rest);
            }
          }
        }
      }
      r := Bad;
    }

    /** Decoding the bytes of a well-formed edit `e` gives it back; compaction pointers add up. */
    method DecodeFrom(src: Bytes, ghost e: Edit) returns (status: Status)
      modifies this
      ensures WellFormed(e) && src == ItemsBytes(Items(e)) ==>
                status == OK && View() == e.(compactPointers := old(compactPointers) + e.compactPointers)
    {
      hide ItemsBytes, SetAll, Set, Items, ItemFits, Payload, Tag, DecodeVarint32, WellFormed;
      Clear();
      ghost var start, isEdit := View(), WellFormed(e) && src == ItemsBytes(Items(e));
      ghost var done: seq<Item>, left := [], Items(e);
      if isEdit {
        ItemsFit(e);
        ItemsRebuild(e, compactPointers);
        SetNothing(start);
      }
      var input := src;
      while true
        invariant isEdit ==> done + left == Items(e) && input == ItemsBytes(left) && View() == SetAll(start, done)
        invariant isEdit ==> forall x :: x in left ==> ItemFits(x)
        decreases |input|
      {
        if isEdit {
          if left == [] {
            NothingDecodes();
          } else {
            NextItem(left);
            SetOneMore(start, done, left[0]);
          }
        }
        var tag := GetVarint32(input);
        if tag.Bad? {
          break;
        }
        var r := DecodeField(tag.value, tag.rest, if isEdit && left != [] then left[0] else LogNumber(0),
                             if isEdit && left != [] then ItemsBytes(left[1..]) else []);
        if r.Bad? {
          return Corruption("VersionEdit");
        }
        input := r.rest;
        if isEdit {
          done, left := done + [left[0]], left[1..];
        }
      }
      if isEdit {
        assert left == [];
        NoItems();
        assert done == Items(e);
      }
      status := if input != [] then Corruption("invalid tag") else OK;
    }

    static lemma NothingDecodes()
      ensures ItemsBytes([]) == [] && DecodeVarint32([]) == Bad
    {
    }
  }

  // ---- Reading a manifest ----------------------------------------------------------------------

  function EditRecords(es: seq<Edit>): (r: seq<Bytes>)
    ensures |r| == |es| && forall i :: 0 <= i < |r| ==> r[i] == ItemsBytes(Items(es[i]))
  {
    seq(|es|, i requires 0 <= i < |es| => ItemsBytes(Items(es[i])))
  }

  predicate EditsOk(es: seq<Edit>, comparator: Bytes) {
    forall i :: 0 <= i < |es| ==> WellFormed(es[i]) && (es[i].comparator.Some? ==> es[i].comparator.value == comparator)
  }

  /** The counters a manifest sets; later records win. */
  datatype Counters = Counters(logNumber: Option<U64>, prevLogNumber: Option<U64>, nextFile: Option<U64>,
                               lastSequence: Option<U64>)

  function Latest<T>(earlier: Option<T>, later: Option<T>): Option<T> {
    if later.Some? then later else earlier
  }

  function CountersOf(es: seq<Edit>): Counters {
    if es == [] then Counters(None, None, None, None)
    else
      var c, e := CountersOf(es[..|es| - 1]), es[|es| - 1];
      Counters(Latest(c.logNumber, e.logNumber), Latest(c.prevLogNumber, e.prevLogNumber),
               Latest(c.nextFile, e.nextFile), Latest(c.lastSequence, e.lastSequence))
  }

  lemma CountersStep(es: seq<Edit>, e: Edit)
    ensures var c := CountersOf(es);
            CountersOf(es + [e]) == Counters(Latest(c.logNumber, e.logNumber), Latest(c.prevLogNumber, e.prevLogNumber),
                                             Latest(c.nextFile, e.nextFile), Latest(c.lastSequence, e.lastSequence))
  {
    assert (es + [e])[..|es|] == es;
  }

  /** One record of the loop below. */
  method ReadEdit(record: Bytes, comparator: Bytes, ghost e: Edit) returns (status: Status, edit: Edit)
    ensures && WellFormed(e) && record == ItemsBytes(Items(e))
            && (e.comparator.Some? ==> e.comparator.value == comparator) ==>
              status == OK && edit == e
    ensures status == OK && edit.comparator.Some? ==> edit.comparator.value == comparator
  {
    hide WellFormed, ItemsBytes, Items;
    var versionEdit := new VersionEdit();
    status := versionEdit.DecodeFrom(record, e);
    if status == OK && versionEdit.comparator.Some? && versionEdit.comparator.value != comparator {
      status := InvalidArgument;
    }
    edit := versionEdit.View();
  }

  /** The read loop of VersionSet::Recover. A manifest cut at any byte gives back exactly the edits wholly before
      the cut, and the counters they set last. On any file the status is OK only if nothing was dropped: every record up
      to the end of the log is there whole with the right checksum, and is an edit of this comparator. */
  method ReadManifest(crc: Checksum, file: Bytes, comparator: Bytes, ghost es: seq<Edit>)
    returns (status: Status, edits: seq<Edit>, counters: Counters, ghost places: seq<nat>, ghost read: seq<Bytes>)
    ensures file <= Encode(crc, 0, EditRecords(es)) && EditsOk(es, comparator) ==>
              status == OK && edits == es[..Whole(crc, 0, EditRecords(es), |file|)] && counters == CountersOf(edits)
    ensures status == OK ==>
              && ReadInTurn(crc, true, file, places, read, true) && Ended(crc, true, file, places[|read|], true)
              && |edits| == |read| && counters == CountersOf(edits)
              && forall e :: e in edits && e.comparator.Some? ==> e.comparator.value == comparator
  {
    NoCounters();
    hide Returned, Ended, Reader.Tracked, ReadInTurn;
    hide RecordBytes, Encode, Whole, RecordAt, Recovering, Start, Reader.Valid, Reader.Pos, EditRecords, WellFormed,
      ItemsBytes, Items, CountersOf;
    var reader := new Reader(crc, true, file);
    status, edits, counters := OK, [], Counters(None, None, None, None);
    ghost var isLog := file <= Encode(crc, 0, EditRecords(es)) && EditsOk(es, comparator);
    if isLog {
      StartRecovering(crc, file, EditRecords(es));
    }
    while true
      invariant fresh(reader) && reader.Valid() && reader.crc == crc && reader.file == file
      invariant isLog ==> status == OK && reader.reports == []
      invariant isLog ==> |edits| <= |es| && edits == es[..|edits|] && counters == CountersOf(edits)
      invariant isLog ==> Recovering(crc, file, EditRecords(es), |edits|, reader.Pos())
      invariant reader.checksum && reader.Tracked()
      invariant status == OK ==> reader.reports == [] && |edits| == |reader.read| && counters == CountersOf(edits)
      invariant status == OK ==> forall e :: e in edits && e.comparator.Some? ==> e.comparator.value == comparator
      decreases |file| - reader.Pos()
    {
      ghost var r := [];
      if isLog {
        r := NextRecord(crc, file, EditRecords(es), |edits|, reader.Pos());
      }
      var before := |reader.reports|;
      var ok, record := reader.ReadRecord(r);
      if status == OK && |reader.reports| > before {
        status := Corruption("dropped bytes");
      }
      if !ok || status != OK {
        break;
      }
      var e;
      status, e := ReadEdit(record, comparator, if isLog then es[|edits|] else NO_EDIT);
      CountersStep(edits, e);
      if status == OK {
        edits := edits + [e];
      }
      counters := Counters(Latest(counters.logNumber, e.logNumber), Latest(counters.prevLogNumber, e.prevLogNumber),
                           Latest(counters.nextFile, e.nextFile), Latest(counters.lastSequence, e.lastSequence));
    }
    places, read := reader.places, reader.read;
  }

  lemma NoCounters()
    ensures CountersOf([]) == Counters(None, None, None, None)
  {
  }
}
