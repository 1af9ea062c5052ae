/** Write batches as bytes, and the recovery of batches from a log that was cut at any byte
    (db/write_batch.cc, DBImpl::RecoverLogFile in db/db_impl.cc). */
module WriteBatchFormat {
  import opened DbFormat
  import opened Coding
  import opened LogFormat

  const BATCH_HEADER := 12
  const TYPE_DELETION: Byte := 0
  const TYPE_VALUE: Byte := 1

  datatype Op = Put(key: Bytes, value: Bytes) | Delete(key: Bytes)

  datatype Status = OK | Corruption(message: string)

  function OpBytes(op: Op): (r: Bytes)
    ensures r != []
  {
    match op
    case Put(k, v) => [TYPE_VALUE] + (Prefixed(k) + Prefixed(v))
    case Delete(k) => [TYPE_DELETION] + Prefixed(k)
  }

  function OpsBytes(ops: seq<Op>): Bytes {
    if ops == [] then [] else OpBytes(ops[0]) + OpsBytes(ops[1..])
  }

  /** The representation of a batch: sequence number, count, operations. */
  function Rep(first: U64, ops: seq<Op>): Bytes {
    Fixed64(first) + (Fixed32(|ops| % 0x1_0000_0000) + OpsBytes(ops))
  }

  predicate Fits(op: Op) {
    |op.key| < 0x1_0000_0000 && (op.Put? ==> |op.value| < 0x1_0000_0000)
  }

  /** Lengths and count fit their fields; the count is compared as a signed int. */
  predicate AllFit(ops: seq<Op>) {
    |ops| < 0x8000_0000 && forall i :: 0 <= i < |ops| ==> Fits(ops[i])
  }

  lemma {:induction false} OpsBytesAppend(a: seq<Op>, b: seq<Op>)
    ensures OpsBytes(a + b) == OpsBytes(a) + OpsBytes(b)
  {
    hide OpBytes;
    if a == [] {
      assert [] + b == b;
    } else {
      assert (a + b)[1..] == a[1..] + b;
      OpsBytesAppend(a[1..], b);
    }
  }

  lemma OpsBytesOne(op: Op)
    ensures OpsBytes([op]) == OpBytes(op)
  {
    hide OpBytes;
    assert [op][1..] == [];
  }

  /** Reading one operation back. */
  lemma OpRoundTrip(op: Op, rest: Bytes)
    requires Fits(op)
    ensures var input := OpBytes(op) + rest;
            && input[0] == (if op.Put? then TYPE_VALUE else TYPE_DELETION)
            && var k := DecodePrefixed(input[1..]);
               && k.Parsed? && k.value == op.key
               && (op.Delete? ==> k.rest == rest)
               && (op.Put? ==> DecodePrefixed(k.rest) == Parsed(op.value, rest))
  {
    hide Prefixed, DecodePrefixed;
    var input := OpBytes(op) + rest;
    match op {
      case Put(k, v) =>
        assert input[1..] == Prefixed(k) + (Prefixed(v) + rest);
        PrefixedRoundTrip(k, Prefixed(v) + rest);
        PrefixedRoundTrip(v, rest);
      case Delete(k) =>
        assert input[1..] == Prefixed(k) + rest;
        PrefixedRoundTrip(k, rest);
    }
  }

  /** The parts of a representation. */
  lemma RepParts(first: U64, ops: seq<Op>)
    ensures var rep := Rep(first, ops);
            && |rep| >= BATCH_HEADER && DecodeFixed64(rep) == first
            && DecodeFixed32(rep[8..]) == |ops| % 0x1_0000_0000 && rep[BATCH_HEADER..] == OpsBytes(ops)
            && rep[..8] == Fixed64(first) && rep[8..BATCH_HEADER] == Fixed32(|ops| % 0x1_0000_0000)
  {
    hide Fixed32, Fixed64, DecodeFixed32, DecodeFixed64, OpsBytes;
    var count := Fixed32(|ops| % 0x1_0000_0000);
    DecodeInvertsFixed64(first, count + OpsBytes(ops));
    DecodeInvertsFixed32(|ops| % 0x1_0000_0000, OpsBytes(ops));
    assert Rep(first, ops)[8..] == count + OpsBytes(ops);
  }

  // ---- The batch object ------------------------------------------------------------------------

  class WriteBatch {
    var rep: Bytes
    ghost var first: U64
    ghost var ops: seq<Op>

    ghost predicate Valid()
      reads this
    {
      rep == Rep(first, ops)
    }

    constructor ()
      ensures Valid() && ops == [] && first == 0
    {
      rep := [0, 0, 0, 0, 0, 0, 0, 0, 0, 0, 0, 0];
      first, ops := 0, [];
    }

    method SetCount(n: U32)
      requires |rep| >= BATCH_HEADER
      modifies this`rep
      ensures rep == old(rep)[..8] + Fixed32(n) + old(rep)[BATCH_HEADER..]
    {
      rep := rep[..8] + Fixed32(n) + rep[BATCH_HEADER..];
    }

    method SetSequence(s: U64)
      requires Valid()
      modifies this
      ensures Valid() && first == s && ops == old(ops)
    {
      hide Fixed32, Fixed64, OpsBytes;
      RepParts(first, ops);
      rep := Fixed64(s) + rep[8..];
      first := s;
    }

    method Put(key: Bytes, value: Bytes)
      requires Valid()
      modifies this
      ensures Valid() && ops == old(ops) + [Op.Put(key, value)] && first == old(first)
    {
      Push(Op.Put(key, value), Prefixed(key) + Prefixed(value), TYPE_VALUE);
    }

    method Delete(key: Bytes)
      requires Valid()
      modifies this
      ensures Valid() && ops == old(ops) + [Op.Delete(key)] && first == old(first)
    {
      Push(Op.Delete(key), Prefixed(key), TYPE_DELETION);
    }

    /** Count one more and append a tagged record. */
    method Push(ghost op: Op, payload: Bytes, tag: Byte)
      requires Valid() && OpBytes(op) == [tag] + payload
      modifies this
      ensures Valid() && ops == old(ops) + [op] && first == old(first)
    {
      hide Fixed32, Fixed64, OpsBytes, OpBytes, DecodeFixed32;
      RepParts(first, ops);
      CountUp(|ops|, 1);
      OpsBytesAppend(ops, [op]);
      OpsBytesOne(op);
      SetCount((DecodeFixed32(rep[8..]) + 1) % 0x1_0000_0000);
      rep := rep + [tag];
      rep := rep + payload;
      ops := ops + [op];
      assert rep == Rep(first, ops);
    }

    /** WriteBatchInternal::Append: add counts, concatenate records. */
    method Append(source: WriteBatch)
      requires Valid() && source.Valid() && source != this
      modifies this
      ensures Valid() && ops == old(ops) + source.ops && first == old(first)
    {
      hide Fixed32, Fixed64, OpsBytes, DecodeFixed32;
      RepParts(first, ops);
      RepParts(source.first, source.ops);
      CountUp(|ops|, |source.ops|);
      OpsBytesAppend(ops, source.ops);
      SetCount((DecodeFixed32(rep[8..]) + DecodeFixed32(source.rep[8..])) % 0x1_0000_0000);
      rep := rep + source.rep[BATCH_HEADER..];
      ops := ops + source.ops;
      assert rep == Rep(first, ops);
    }
  }

  lemma CountUp(a: nat, b: nat)
    ensures (a % 0x1_0000_0000 + b) % 0x1_0000_0000 == (a + b) % 0x1_0000_0000
    ensures (a % 0x1_0000_0000 + b % 0x1_0000_0000) % 0x1_0000_0000 == (a + b) % 0x1_0000_0000
  {
  }

  // ---- Reading a batch back --------------------------------------------------------------------

  /** WriteBatch::Iterate: the operations handed to the handler, and the status. The bytes of a batch give
      back exactly its operations. */
  method Iterate(rep: Bytes, ghost first: U64, ghost ops: seq<Op>) returns (status: Status, handled: seq<Op>)
    ensures rep == Rep(first, ops) && AllFit(ops) ==> status == OK && handled == ops
    ensures status == OK ==> |rep| >= BATCH_HEADER && |handled| == DecodeFixed32(rep[8..])
  {
    hide Fixed32, Fixed64, DecodeFixed32, OpsBytes, OpBytes, Rep, DecodePrefixed, AllFit;
    handled := [];
    if |rep| < BATCH_HEADER {
      RepParts(first, ops);
      return Corruption("malformed WriteBatch (too small)"), handled;
    }
    ghost var isBatch, left := rep == Rep(first, ops) && AllFit(ops), ops;
    RepParts(first, ops);
    var input := rep[BATCH_HEADER..];
    while input != []
      invariant isBatch ==> handled + left == ops && input == OpsBytes(left) && AllFit(left)
      decreases |input|
    {
      var tag := input[0];
      ghost var before := input;
      if isBatch {
        NextOp(left);
      }
      input := input[1..];
      if tag == TYPE_VALUE {
        var key := GetLengthPrefixedSlice(input);
        if key.Bad? {
          return Corruption("bad WriteBatch Put"), handled;
        }
        var value := GetLengthPrefixedSlice(key.rest);
        if value.Bad? {
          return Corruption("bad WriteBatch Put"), handled;
        }
        handled := handled + [Op.Put(key.value, value.value)];
        input := value.rest;
      } else if tag == TYPE_DELETION {
        var key := GetLengthPrefixedSlice(input);
        if key.Bad? {
          return Corruption("bad WriteBatch Delete"), handled;
        }
        handled := handled + [Op.Delete(key.value)];
        input := key.rest;
      } else {
        return Corruption("unknown WriteBatch tag"), handled;
      }
      if isBatch {
        left := left[1..];
      }
    }
    if isBatch {
      NothingLeft(left);
      CountFits(ops);
    }
    status := if |handled| != DecodeFixed32(rep[8..]) then Corruption("WriteBatch has wrong count") else OK;
  }

  lemma CountFits(ops: seq<Op>)
    requires AllFit(ops)
    ensures |ops| % 0x1_0000_0000 == |ops|
  {
  }

  lemma NothingLeft(left: seq<Op>)
    requires OpsBytes(left) == []
    ensures left == []
  {
    hide OpBytes;
  }

  lemma NextOp(left: seq<Op>)
    requires OpsBytes(left) != [] && AllFit(left)
    ensures left != [] && AllFit(left[1..])
    ensures var input, op := OpsBytes(left), left[0];
            && input[0] == (if op.Put? then TYPE_VALUE else TYPE_DELETION)
            && var k := DecodePrefixed(input[1..]);
               && k.Parsed? && k.value == op.key
               && (op.Delete? ==> k.rest == OpsBytes(left[1..]))
               && (op.Put? ==> DecodePrefixed(k.rest) == Parsed(op.value, OpsBytes(left[1..])))
  {
    hide OpBytes, DecodePrefixed, Fits;
    OpRoundTrip(left[0], OpsBytes(left[1..]));
  }

  // ---- Recovering batches from a log -----------------------------------------------------------

  datatype RawBatch = RawBatch(first: U64, ops: seq<Op>)

  function Reps(bs: seq<RawBatch>): (r: seq<Bytes>)
    ensures |r| == |bs| && forall i :: 0 <= i < |r| ==> r[i] == Rep(bs[i].first, bs[i].ops)
  {
    seq(|bs|, i requires 0 <= i < |bs| => Rep(bs[i].first, bs[i].ops))
  }

  predicate AllBatchesFit(bs: seq<RawBatch>) {
    forall i :: 0 <= i < |bs| ==> AllFit(bs[i].ops)
  }

  /** Each record has the header of its batch. */
  ghost predicate AreBatches(read: seq<Bytes>, batches: seq<RawBatch>) {
    && |batches| == |read|
    && forall i :: 0 <= i < |read| ==>
         |read[i]| >= BATCH_HEADER && batches[i].first == DecodeFixed64(read[i])
         && |batches[i].ops| == DecodeFixed32(read[i][8..])
  }

  lemma OneMoreBatch(read: seq<Bytes>, batches: seq<RawBatch>, record: Bytes, b: RawBatch)
    requires |record| >= BATCH_HEADER && b.first == DecodeFixed64(record)
    ensures AreBatches(read, batches) && |b.ops| == DecodeFixed32(record[8..]) ==>
              AreBatches(read + [record], batches + [b])
  {
    hide DecodeFixed32, DecodeFixed64;
  }

  lemma NoBatches()
    ensures AreBatches([], [])
  {
  }

  /** One record of the loop below: SetContents and InsertInto, unless it is too short to be a batch. */
  method InsertRecord(record: Bytes, ghost b: RawBatch) returns (status: Status, batch: Option<RawBatch>)
    ensures batch.Some? <==> |record| >= BATCH_HEADER
    ensures batch.Some? ==> batch.value.first == DecodeFixed64(record)
    ensures status == OK ==> batch.Some? && |batch.value.ops| == DecodeFixed32(record[8..])
    ensures record == Rep(b.first, b.ops) && AllFit(b.ops) ==> status == OK && batch == Some(b)
  {
    hide Rep, AllFit, DecodeFixed32, DecodeFixed64;
    RepParts(b.first, b.ops);
    if |record| < BATCH_HEADER {
      return Corruption("log record too small"), None;
    }
    var s, handled := Iterate(record, b.first, b.ops);
    status, batch := s, Some(RawBatch(DecodeFixed64(record), handled));
  }

  /** The read loop of RecoverLogFile: the batches inserted into the memtable. A log cut at any byte gives back
      exactly the batches wholly before the cut, and no corruption is reported even with paranoid checks. On any file,
      the records that were read are there whole and have the right checksums; with paranoid checks the status is OK
      only if nothing was dropped and every record is a batch. */
  method RecoverBatches(crc: Checksum, file: Bytes, paranoid: bool, ghost bs: seq<RawBatch>)
    returns (status: Status, batches: seq<RawBatch>, reports: seq<Report>,
             ghost places: seq<nat>, ghost read: seq<Bytes>)
    ensures file <= Encode(crc, 0, Reps(bs)) && AllBatchesFit(bs) ==>
              status == OK && reports == [] && batches == bs[..Whole(crc, 0, Reps(bs), |file|)]
    ensures ReadInTurn(crc, true, file, places, read, reports == [])
    ensures paranoid && status == OK ==>
              reports == [] && Ended(crc, true, file, places[|read|], true) && AreBatches(read, batches)
  {
    hide RecordBytes, Encode, Whole, RecordAt, Recovering, Start, Reader.Valid, Reader.Pos, Rep, Reps, AllFit,
      Returned, Ended, DecodeFixed32, DecodeFixed64, AreBatches, Reader.Tracked, ReadInTurn;
    NoBatches();
    var reader := new Reader(crc, true, file);
    status, batches, reports := OK, [], [];
    ghost var isLog := file <= Encode(crc, 0, Reps(bs)) && AllBatchesFit(bs);
    if isLog {
      StartRecovering(crc, file, Reps(bs));
    }
    while true
      invariant fresh(reader) && reader.Valid() && reader.crc == crc && reader.file == file
      invariant isLog ==> status == OK && reports == [] && reader.reports == []
      invariant isLog ==> |batches| <= |bs| && batches == bs[..|batches|]
      invariant isLog ==> Recovering(crc, file, Reps(bs), |batches|, reader.Pos())
      invariant reader.checksum && reader.Tracked()
      invariant paranoid && status == OK ==>
                  reader.reports == [] && reports == [] && AreBatches(reader.read, batches)
      decreases |file| - reader.Pos()
    {
      ghost var r := [];
      if isLog {
        r := NextRecord(crc, file, Reps(bs), |batches|, reader.Pos());
      }
      var before := |reader.reports|;
      ghost var seen := reader.read;
      var ok, record := reader.ReadRecord(r);
      if paranoid && status == OK && |reader.reports| > before {
        status := Corruption("dropped bytes");
      }
      if ok {
        reader.TrackedIs();
      }
      if !ok || status != OK {
        break;
      }
      var batch: Option<RawBatch>;
      status, batch := InsertRecord(record, if isLog then bs[|batches|] else RawBatch(0, []));
      if batch.None? {
        reports := reports + [Report(|record|, "log record too small")];
      } else {
        OneMoreBatch(seen, batches, record, batch.value);
        batches := batches + [batch.value];
      }
      if !paranoid {
        status := OK; // MaybeIgnoreError
      }
      if batch.Some? && status != OK {
        break;
      }
    }
    ReadNoMore(crc, true, file, reader.places, reader.read, reader.reports == [], reader.reports + reports == []);
    reports := reader.reports + reports;
    places, read := reader.places, reader.read;
  }
}
