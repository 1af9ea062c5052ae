/** The bytes of logs and manifest, and the engine: a current log that is cut at any byte is recovered as the log cut
    after some batch, and the bytes of a manifest give back the engine's edits (DBImpl::RecoverLogFile in db/db_impl.cc,
    VersionSet::Recover in db/version_set.cc). */
module CrashBytes {
  import opened DbFormat
  import opened Coding
  import opened LogFormat
  import opened State
  import Engine = History
  import Opening
  import Recovery
  import Version
  import VersionEditFormat
  import VersionEdits
  import WriteBatchFormat

  /** How user keys and values are spelled in the log. */
  datatype Spelling = Spelling(key: UserKey -> Bytes, value: Value -> Bytes) {
    function Op(op: Engine.Op): WriteBatchFormat.Op {
      match op
      case Put(k, v) => WriteBatchFormat.Put(key(k), value(v))
      case Delete(k) => WriteBatchFormat.Delete(key(k))
    }

    function Ops(ops: seq<Engine.Op>): (r: seq<WriteBatchFormat.Op>)
      ensures |r| == |ops| && forall i :: 0 <= i < |r| ==> r[i] == Op(ops[i])
    {
      seq(|ops|, i requires 0 <= i < |ops| => Op(ops[i]))
    }

    function Batch(b: Engine.Batch): WriteBatchFormat.RawBatch
      requires b.first < 0x1_0000_0000_0000_0000
    {
      WriteBatchFormat.RawBatch(b.first, Ops(b.ops))
    }

    function Batches(bs: seq<Engine.Batch>): (r: seq<WriteBatchFormat.RawBatch>)
      requires Numbered(bs)
      ensures |r| == |bs| && forall i :: 0 <= i < |r| ==> r[i] == Batch(bs[i])
    {
      seq(|bs|, i requires 0 <= i < |bs| => Batch(bs[i]))
    }
  }

  /** Sequence numbers fit the 64-bit field of a batch. */
  predicate Numbered(bs: seq<Engine.Batch>) {
    forall i :: 0 <= i < |bs| ==> bs[i].first < 0x1_0000_0000_0000_0000
  }

  /** The batches can be written: numbers, counts and lengths fit their fields. */
  ghost predicate Writable(sp: Spelling, bs: seq<Engine.Batch>) {
    Numbered(bs) && WriteBatchFormat.AllBatchesFit(sp.Batches(bs))
  }

  /** The bytes of a log with these batches. */
  ghost function LogBytes(crc: Checksum, sp: Spelling, bs: seq<Engine.Batch>): Bytes
    requires Numbered(bs)
  {
    Encode(crc, 0, WriteBatchFormat.Reps(sp.Batches(bs)))
  }

  /** Recovering one log file that was cut at any byte, or not at all. */
  method RecoverLog(crc: Checksum, sp: Spelling, file: Bytes, paranoid: bool, ghost bs: seq<Engine.Batch>)
    returns (batches: seq<WriteBatchFormat.RawBatch>, reports: seq<Report>, ghost cut: nat)
    requires Writable(sp, bs) && file <= LogBytes(crc, sp, bs)
    ensures cut <= |bs| && batches == sp.Batches(bs[..cut]) && reports == []
    ensures file == LogBytes(crc, sp, bs) ==> cut == |bs|
    ensures cut < |bs| ==> |LogBytes(crc, sp, bs[..cut + 1])| > |file|
  {
    hide Encode, Whole, WriteBatchFormat.Reps, WriteBatchFormat.AllBatchesFit;
    ghost var raw := sp.Batches(bs);
    var status;
    ghost var places, read;
    status, batches, reports, places, read := WriteBatchFormat.RecoverBatches(crc, file, paranoid, raw);
    cut := Whole(crc, 0, WriteBatchFormat.Reps(raw), |file|);
    assert raw[..cut] == sp.Batches(bs[..cut]);
    if file == LogBytes(crc, sp, bs) {
      EverythingIsWhole(crc, 0, WriteBatchFormat.Reps(raw), |file|);
    }
    if cut < |bs| {
      WholeIsLongest(crc, 0, WriteBatchFormat.Reps(raw), |file|);
      assert sp.Batches(bs[..cut + 1]) == raw[..cut + 1];
      RepsPrefix(raw, cut + 1);
    }
  }

  lemma RepsPrefix(raw: seq<WriteBatchFormat.RawBatch>, n: nat)
    requires n <= |raw|
    ensures WriteBatchFormat.Reps(raw[..n]) == WriteBatchFormat.Reps(raw)[..n]
  {
    hide WriteBatchFormat.Rep;
  }

  /** A crash that leaves the older log whole and cuts the current one at any byte is a crash of the model: what
      recovery reads from the two files are the survivors of a cut after some batch, and a batch is lost only if
      its bytes are not all there. */
  method RecoverSurvivors(db: DbState, crc: Checksum, sp: Spelling, older: Bytes, current: Bytes, paranoid: bool)
    returns (batches: seq<WriteBatchFormat.RawBatch>, reports: seq<Report>, ghost cut: nat)
    requires LogsOk(db) && Writable(sp, db.logs[db.logNumber]) && Writable(sp, db.logs[db.logfileNumber])
    requires db.imm.Some? ==> older == LogBytes(crc, sp, db.logs[db.logNumber])
    requires current <= LogBytes(crc, sp, db.logs[db.logfileNumber])
    ensures reports == [] && cut <= |db.logs[db.logfileNumber]|
    ensures Numbered(Recovery.Survivors(db, cut)) && batches == sp.Batches(Recovery.Survivors(db, cut))
    ensures Recovery.Crash(db, cut).logs[db.logfileNumber] == db.logs[db.logfileNumber][..cut]
    ensures current == LogBytes(crc, sp, db.logs[db.logfileNumber]) ==> cut == |db.logs[db.logfileNumber]|
    ensures cut < |db.logs[db.logfileNumber]| ==>
              |LogBytes(crc, sp, db.logs[db.logfileNumber][..cut + 1])| > |current|
  {
    hide LogBytes, WriteBatchFormat.AllBatchesFit;
    batches, reports := [], [];
    if db.imm.Some? {
      ghost var all;
      batches, reports, all := RecoverLog(crc, sp, older, paranoid, db.logs[db.logNumber]);
      assert db.logs[db.logNumber][..all] == db.logs[db.logNumber];
    }
    var more, moreReports;
    more, moreReports, cut := RecoverLog(crc, sp, current, paranoid, db.logs[db.logfileNumber]);
    ghost var first := if db.imm.Some? then db.logs[db.logNumber] else [];
    assert sp.Batches(first + db.logs[db.logfileNumber][..cut]) ==
      sp.Batches(first) + sp.Batches(db.logs[db.logfileNumber][..cut]);
    batches, reports := batches + more, reports + moreReports;
  }

  // ---- The manifest ------------------------------------------------------------------------------

  /** The bytes of an internal key. */
  function KeyBytes(sp: Spelling, k: InternalKey): Bytes
    requires k.Packed() < 0x1_0000_0000_0000_0000
  {
    sp.key(k.user) + Fixed64(k.Packed())
  }

  ghost predicate SpellsFile(sp: Spelling, f: Version.File, r: VersionEditFormat.FileRecord) {
    && f.smallest.Packed() < 0x1_0000_0000_0000_0000 && f.largest.Packed() < 0x1_0000_0000_0000_0000
    && r.number == f.number && r.size == f.size
    && r.smallest == KeyBytes(sp, f.smallest) && r.largest == KeyBytes(sp, f.largest)
  }

  function Numbers(v: Option<U64>): Option<nat> {
    match v case None => None case Some(n) => Some(n)
  }

  /** The record of an edit of the engine: the same deletions, additions and counters. What a file holds is in the
      file. */
  ghost predicate SpellsEdit(sp: Spelling, v: VersionEdits.VersionEdit, e: VersionEditFormat.Edit) {
    && (forall l: nat, n: nat :: (l, n) in v.deletedFiles <==>
          exists i :: 0 <= i < |e.deleted| && e.deleted[i] == (l, n))
    && |e.newFiles| == |v.newFiles|
    && (forall i :: 0 <= i < |e.newFiles| ==>
          e.newFiles[i].0 == v.newFiles[i].0 && SpellsFile(sp, v.newFiles[i].1, e.newFiles[i].1))
    && Numbers(e.logNumber) == v.logNumber && Numbers(e.nextFile) == v.nextFile
    && Numbers(e.lastSequence) == v.lastSequence
  }

  ghost predicate SpellsManifest(sp: Spelling, manifest: seq<VersionEdits.VersionEdit>,
                                 es: seq<VersionEditFormat.Edit>) {
    |es| == |manifest| && forall i :: 0 <= i < |es| ==> SpellsEdit(sp, manifest[i], es[i])
  }

  /** Both sides keep the counter that was set last. */
  lemma {:induction false} SameCounters(sp: Spelling, manifest: seq<VersionEdits.VersionEdit>,
                                        es: seq<VersionEditFormat.Edit>)
    requires SpellsManifest(sp, manifest, es)
    ensures var c := VersionEditFormat.CountersOf(es);
            && Numbers(c.logNumber) == Opening.LastSet(manifest, Opening.LogNumber)
            && Numbers(c.nextFile) == Opening.LastSet(manifest, Opening.NextFile)
            && Numbers(c.lastSequence) == Opening.LastSet(manifest, Opening.LastSequence)
  {
    hide SpellsFile;
    if es != [] {
      var last := |es| - 1;
      SameCounters(sp, manifest[..last], es[..last]);
      assert SpellsEdit(sp, manifest[last], es[last]);
    }
  }

  /** The manifest of the engine, read back from its bytes, cut or whole: the edits up to some record and the counters
      that the engine's recovery finds in them. */
  method RecoverManifest(crc: Checksum, sp: Spelling, file: Bytes, comparator: Bytes,
                         ghost manifest: seq<VersionEdits.VersionEdit>, ghost es: seq<VersionEditFormat.Edit>)
    returns (edits: seq<VersionEditFormat.Edit>, counters: VersionEditFormat.Counters, ghost cut: nat)
    requires SpellsManifest(sp, manifest, es) && VersionEditFormat.EditsOk(es, comparator)
    requires file <= Encode(crc, 0, VersionEditFormat.EditRecords(es))
    ensures cut <= |manifest| && SpellsManifest(sp, manifest[..cut], edits)
    ensures Numbers(counters.logNumber) == Opening.LastSet(manifest[..cut], Opening.LogNumber)
    ensures Numbers(counters.nextFile) == Opening.LastSet(manifest[..cut], Opening.NextFile)
    ensures Numbers(counters.lastSequence) == Opening.LastSet(manifest[..cut], Opening.LastSequence)
    ensures file == Encode(crc, 0, VersionEditFormat.EditRecords(es)) ==> cut == |manifest|
  {
    hide Encode, Whole, VersionEditFormat.EditRecords, VersionEditFormat.EditsOk, SpellsEdit,
      VersionEditFormat.CountersOf, Opening.LastSet;
    var status;
    ghost var places, read;
    status, edits, counters, places, read := VersionEditFormat.ReadManifest(crc, file, comparator, es);
    cut := Whole(crc, 0, VersionEditFormat.EditRecords(es), |file|);
    if file == Encode(crc, 0, VersionEditFormat.EditRecords(es)) {
      EverythingIsWhole(crc, 0, VersionEditFormat.EditRecords(es), |file|);
    }
    SameCounters(sp, manifest[..cut], edits);
  }

  // ---- Every edit can be spelled -------------------------------------------------------------------

  lemma {:induction false} InsertPair(l: seq<(U32, U64)>, p: (U32, U64)) returns (r: seq<(U32, U64)>)
    requires VersionEditFormat.StrictlySorted(l) && p !in l
    ensures VersionEditFormat.StrictlySorted(r) && forall x :: x in r <==> x == p || x in l
  {
    if l == [] || VersionEditFormat.PairLess(p, l[0]) {
      r := [p] + l;
      assert forall j :: 0 <= j < |l| ==> l[j] in l;
    } else {
      assert forall j :: 0 <= j < |l[1..]| ==> l[1..][j] == l[j + 1];
      assert forall x :: x in l <==> x == l[0] || x in l[1..];
      var rest := InsertPair(l[1..], p);
      r := [l[0]] + rest;
      assert forall j :: 0 <= j < |rest| ==> rest[j] in rest;
      assert l[0] in l;
    }
  }

  lemma {:induction false} SortPairs(s: set<(nat, nat)>) returns (l: seq<(U32, U64)>)
    requires forall p :: p in s ==> p.0 < 0x1_0000_0000 && p.1 < 0x1_0000_0000_0000_0000
    ensures VersionEditFormat.StrictlySorted(l)
    ensures forall a: U32, b: U64 :: (a, b) in l <==> (a as nat, b as nat) in s
    decreases |s|
  {
    l := [];
    if s != {} {
      var p :| p in s;
      var before := SortPairs(s - {p});
      l := InsertPair(before, (p.0, p.1));
    }
  }

  ghost predicate KeyInRange(sp: Spelling, k: InternalKey) {
    k.Packed() < 0x1_0000_0000_0000_0000 && |sp.key(k.user)| + 8 < 0x1_0000_0000
  }

  ghost predicate InRange(n: Option<nat>) { n.Some? ==> n.value < 0x1_0000_0000_0000_0000 }

  /** Levels exist, and numbers, sizes and keys fit their fields. */
  ghost predicate EditInRange(sp: Spelling, v: VersionEdits.VersionEdit) {
    && (forall p :: p in v.deletedFiles ==> p.0 < NUM_LEVELS && p.1 < 0x1_0000_0000_0000_0000)
    && (forall i :: 0 <= i < |v.newFiles| ==>
          var (level, f) := v.newFiles[i];
          && level < NUM_LEVELS && f.number < 0x1_0000_0000_0000_0000 && f.size < 0x1_0000_0000_0000_0000
          && KeyInRange(sp, f.smallest) && KeyInRange(sp, f.largest))
    && InRange(v.logNumber) && InRange(v.nextFile) && InRange(v.lastSequence)
  }

  function Widen(n: Option<nat>): Option<U64>
    requires n.Some? ==> n.value < 0x1_0000_0000_0000_0000
  {
    match n case None => None case Some(x) => Some(x)
  }

  /** Every edit of the engine that fits its fields is spelled by some record that can be written. */
  lemma SpellingExists(sp: Spelling, v: VersionEdits.VersionEdit) returns (e: VersionEditFormat.Edit)
    requires EditInRange(sp, v)
    ensures SpellsEdit(sp, v, e) && VersionEditFormat.WellFormed(e) && e.comparator.None?
  {
    hide Fixed64;
    var deleted := SortPairs(v.deletedFiles);
    var files: seq<(U32, VersionEditFormat.FileRecord)> :=
      seq(|v.newFiles|, i requires 0 <= i < |v.newFiles| =>
        var f := v.newFiles[i].1;
        (v.newFiles[i].0,
         VersionEditFormat.FileRecord(f.number, f.size, KeyBytes(sp, f.smallest), KeyBytes(sp, f.largest))));
    e := VersionEditFormat.Edit(None, Widen(v.logNumber), None, Widen(v.nextFile), Widen(v.lastSequence), [], deleted,
                                files);
    forall l: nat, n: nat ensures (l, n) in v.deletedFiles <==> exists i :: 0 <= i < |deleted| && deleted[i] == (l, n) {
      if (l, n) in v.deletedFiles {
        var a: U32, b: U64 := l, n;
        assert (a, b) in deleted;
      }
    }
  }
}
