/** The block-framed log: writer, reader, and what a reader gets from a log cut at any byte
    (db/log_format.h, db/log_writer.cc, db/log_reader.cc, util/crc32c.h). */
module LogFormat {
  import opened Coding

  /** crc32c::Value. Only the law Extend(Value(a), b) == Value(a + b) is used, by naming Value alone. */
  type Checksum = Bytes -> U32

  const BLOCK_SIZE := 32768
  const HEADER_SIZE := 7

  const ZERO_TYPE: Byte := 0
  const FULL_TYPE: Byte := 1
  const FIRST_TYPE: Byte := 2
  const MIDDLE_TYPE: Byte := 3
  const LAST_TYPE: Byte := 4

  const MASK_DELTA := 0xa282ead8

  // ---- Checksum masking ------------------------------------------------------------------------

  /** Rotate right by 15 bits and add a constant, in 32-bit arithmetic. */
  function Mask(crc: U32): U32 {
    (crc / 0x8000 + crc % 0x8000 * 0x2_0000 + MASK_DELTA) % 0x1_0000_0000
  }

  function Unmask(masked: U32): U32 {
    var rot := (masked - MASK_DELTA) % 0x1_0000_0000;
    rot / 0x2_0000 + rot % 0x2_0000 * 0x8000
  }

  lemma UnmaskInvertsMask(crc: U32)
    ensures Unmask(Mask(crc)) == crc
  {
    var high, low := crc / 0x8000, crc % 0x8000;
    var rotated := high + low * 0x2_0000;
    SubtractAgain(rotated, MASK_DELTA);
    assert rotated / 0x2_0000 == low && rotated % 0x2_0000 == high;
  }

  lemma SubtractAgain(x: U32, d: U32)
    ensures ((x + d) % 0x1_0000_0000 - d) % 0x1_0000_0000 == x
  {
  }

  // ---- The format ------------------------------------------------------------------------------

  function Zeros(n: nat): (r: Bytes)
    ensures |r| == n
  {
    seq(n, _ => 0)
  }

  /** Where the next header goes: fewer than seven bytes at the end of a block are left as a trailer. */
  function Start(p: nat): (s: nat)
    ensures s == p || (s % BLOCK_SIZE == 0 && p < s < p + HEADER_SIZE)
    ensures s % BLOCK_SIZE + HEADER_SIZE <= BLOCK_SIZE
  {
    var leftover := BLOCK_SIZE - p % BLOCK_SIZE;
    if leftover < HEADER_SIZE then p + leftover else p
  }

  /** Room for payload after a header written at position p. */
  function Avail(p: nat): nat { BLOCK_SIZE - Start(p) % BLOCK_SIZE - HEADER_SIZE }

  function Header(crc: Checksum, t: Byte, payload: Bytes): (r: Bytes)
    requires |payload| < BLOCK_SIZE
    ensures |r| == HEADER_SIZE
  {
    Fixed32(Mask(crc([t] + payload))) + [|payload| % 0x100, |payload| / 0x100, t]
  }

  /** One physical record at position p, with the trailer before it. */
  function Physical(crc: Checksum, p: nat, t: Byte, payload: Bytes): (r: Bytes)
    requires |payload| < BLOCK_SIZE
    ensures |r| == Start(p) - p + HEADER_SIZE + |payload|
  {
    Zeros(Start(p) - p) + Header(crc, t, payload) + payload
  }

  function FragmentLength(p: nat, data: Bytes): (n: nat)
    ensures n <= |data| && n <= Avail(p) < BLOCK_SIZE
  {
    if |data| < Avail(p) then |data| else Avail(p)
  }

  function FragmentType(begin: bool, end: bool): Byte {
    if begin && end then FULL_TYPE else if begin then FIRST_TYPE else if end then LAST_TYPE else MIDDLE_TYPE
  }

  /** The bytes of what is left of a record, written at position p. */
  function RecordBytes(crc: Checksum, p: nat, data: Bytes, begin: bool): (r: Bytes)
    ensures |r| >= HEADER_SIZE
    decreases |data|, if Avail(p) == 0 then 1 else 0
  {
    var n := FragmentLength(p, data);
    var first := Physical(crc, p, FragmentType(begin, n == |data|), data[..n]);
    if n == |data| then first
    else
      AfterFullBlock(p, data);
      first + RecordBytes(crc, p + |first|, data[n..], false)
  }

  /** A fragment that does not finish its record fills its block. */
  lemma AfterFullBlock(p: nat, data: Bytes)
    requires FragmentLength(p, data) < |data|
    ensures var next := Start(p) + HEADER_SIZE + FragmentLength(p, data);
            next % BLOCK_SIZE == 0 && Avail(next) > 0 && FragmentLength(p, data) == Avail(p)
  {
    var s := Start(p);
    assert s + HEADER_SIZE + Avail(p) == s / BLOCK_SIZE * BLOCK_SIZE + BLOCK_SIZE;
  }

  /** A log holding the records `rs`, from position p on. */
  function Encode(crc: Checksum, p: nat, rs: seq<Bytes>): Bytes
    decreases |rs|
  {
    if rs == [] then [] else
      var first := RecordBytes(crc, p, rs[0], true);
      first + Encode(crc, p + |first|, rs[1..])
  }

  lemma RecordStep(crc: Checksum, p: nat, data: Bytes, begin: bool)
    ensures var n := FragmentLength(p, data);
            var first := Physical(crc, p, FragmentType(begin, n == |data|), data[..n]);
            RecordBytes(crc, p, data, begin) ==
            if n == |data| then first else first + RecordBytes(crc, p + |first|, data[n..], false)
  {
    hide Physical, Start, Avail, FragmentLength, FragmentType;
  }

  lemma EncodeStep(crc: Checksum, p: nat, rs: seq<Bytes>)
    requires rs != []
    ensures var first := RecordBytes(crc, p, rs[0], true);
            Encode(crc, p, rs) == first + Encode(crc, p + |first|, rs[1..])
  {
    hide RecordBytes;
  }

  lemma SameOffset(a: nat, b: nat, n: nat)
    requires a % BLOCK_SIZE == b % BLOCK_SIZE
    ensures (a + n) % BLOCK_SIZE == (b + n) % BLOCK_SIZE
  {
    var q, r := a / BLOCK_SIZE, b / BLOCK_SIZE;
    assert a + n == b + n + (q - r) * BLOCK_SIZE;
  }

  lemma BeforeBlockEnd(end: nat, n: nat)
    requires end % BLOCK_SIZE == 0 && n <= BLOCK_SIZE && n <= end
    ensures (end - n) % BLOCK_SIZE == if n == BLOCK_SIZE || n == 0 then 0 else BLOCK_SIZE - n
  {
    var q := end / BLOCK_SIZE;
    assert n > 0 ==> end - n == (q - 1) * BLOCK_SIZE + (BLOCK_SIZE - n);
  }

  lemma WithinBlock(end: nat, n: nat)
    requires n <= end % BLOCK_SIZE
    ensures (end - n) % BLOCK_SIZE == end % BLOCK_SIZE - n
  {
    assert end - n == end / BLOCK_SIZE * BLOCK_SIZE + (end % BLOCK_SIZE - n);
  }

  lemma AfterBlockEnd(start: nat, n: nat)
    requires start % BLOCK_SIZE == 0 && n <= BLOCK_SIZE
    ensures (start + n) % BLOCK_SIZE == if n == BLOCK_SIZE then 0 else n
  {
  }

  /** `offset` is the place of position p within its block; a full block counts as 0 or as BLOCK_SIZE. */
  ghost predicate Aligned(p: nat, offset: nat) {
    offset <= BLOCK_SIZE && offset % BLOCK_SIZE == p % BLOCK_SIZE
  }

  lemma AlignedStart(p: nat)
    requires p % BLOCK_SIZE == 0
    ensures Aligned(p, 0)
  {
  }

  lemma AlignedNext(p: nat, offset: nat, n: nat)
    requires Aligned(p, offset) && offset + n <= BLOCK_SIZE
    ensures Aligned(p + n, offset + n)
  {
    SameOffset(offset, p, n);
  }

  /** What a writer at position p finds from its offset within the block. */
  lemma WriterOffset(p: nat, offset: nat)
    requires Aligned(p, offset)
    ensures offset <= BLOCK_SIZE
    ensures BLOCK_SIZE - offset < HEADER_SIZE ==>
              Start(p) == p + (BLOCK_SIZE - offset) && Start(p) % BLOCK_SIZE == 0
                && Avail(p) == BLOCK_SIZE - HEADER_SIZE
    ensures BLOCK_SIZE - offset >= HEADER_SIZE ==>
              Start(p) == p && offset < BLOCK_SIZE && Avail(p) == BLOCK_SIZE - offset - HEADER_SIZE
  {
  }

  // ---- Writer ----------------------------------------------------------------------------------

  class Writer {
    const crc: Checksum
    var dest: Bytes // contents of the log file
    var blockOffset: nat

    /** A writer that appends to a file with these contents. */
    constructor (crc: Checksum, contents: Bytes)
      ensures Valid() && dest == contents && this.crc == crc
    {
      this.crc := crc;
      dest := contents;
      blockOffset := |contents| % BLOCK_SIZE;
    }

    ghost predicate Valid()
      reads this
    {
      Aligned(|dest|, blockOffset)
    }

    method AddRecord(data: Bytes)
      requires Valid()
      modifies this
      ensures Valid() && dest == old(dest) + RecordBytes(crc, |old(dest)|, data, true)
    {
      hide RecordBytes, Physical, Header, Start, Avail, Zeros, Aligned;
      ghost var target := dest + RecordBytes(crc, |dest|, data, true);
      var left, begin, more := data, true, true;
      while more
        invariant Valid() && (more <==> begin || left != [])
        invariant dest + (if more then RecordBytes(crc, |dest|, left, begin) else []) == target
        decreases |left|, if more then 1 else 0, if Avail(|dest|) == 0 then 1 else 0
      {
        ghost var p, before := |dest|, dest;
        WriterOffset(p, blockOffset);
        var leftover := BLOCK_SIZE - blockOffset;
        if leftover < HEADER_SIZE {
          if leftover > 0 {
            dest := dest + Zeros(leftover);
          }
          blockOffset := 0;
          AlignedStart(|dest|);
        }
        assert dest == before + Zeros(Start(p) - p);
        var avail := BLOCK_SIZE - blockOffset - HEADER_SIZE;
        var fragmentLength := if |left| < avail then |left| else avail;
        var end := |left| == fragmentLength;
        var t :=
          if begin && end then FULL_TYPE else if begin then FIRST_TYPE else if end then LAST_TYPE else MIDDLE_TYPE;
        EmitPhysicalRecord(t, left[..fragmentLength]);
        PhysicalIs(crc, p, t, left[..fragmentLength], before, dest);
        WriteStep(crc, left, begin, fragmentLength, before, dest);
        if !end {
          AfterFullBlock(p, left);
        }
        left := left[fragmentLength..];
        begin := false;
        more := left != [];
      }
    }

    method EmitPhysicalRecord(t: Byte, payload: Bytes)
      requires blockOffset + HEADER_SIZE + |payload| <= BLOCK_SIZE && Valid()
      modifies this
      ensures Valid() && blockOffset == old(blockOffset) + HEADER_SIZE + |payload|
      ensures dest == old(dest) + (Header(crc, t, payload) + payload)
    {
      hide Mask, Fixed32, Aligned;
      var length := |payload|;
      AlignedNext(|dest|, blockOffset, HEADER_SIZE + length);
      var buf := Fixed32(Mask(crc([t] + payload))) + [length % 0x100, length / 0x100, t];
      assert buf == Header(crc, t, payload);
      hide Header;
      assert dest + buf + payload == dest + (buf + payload);
      dest := dest + buf;
      dest := dest + payload;
      blockOffset := blockOffset + HEADER_SIZE + length;
    }
  }

  lemma PhysicalIs(crc: Checksum, p: nat, t: Byte, payload: Bytes, before: Bytes, after: Bytes)
    requires |payload| < BLOCK_SIZE
    requires after == before + Zeros(Start(p) - p) + (Header(crc, t, payload) + payload)
    ensures after == before + Physical(crc, p, t, payload)
  {
    hide Start, Header, Zeros;
  }

  lemma Regroup(a: Bytes, b: Bytes, c: Bytes)
    ensures a + (b + c) == a + b + c
  {
  }

  /** One fragment more is written. */
  lemma WriteStep(crc: Checksum, left: Bytes, begin: bool, n: nat, before: Bytes, after: Bytes)
    requires n == FragmentLength(|before|, left)
    requires after == before + Physical(crc, |before|, FragmentType(begin, n == |left|), left[..n])
    ensures n == |left| ==> after == before + RecordBytes(crc, |before|, left, begin)
    ensures n < |left| ==>
              after + RecordBytes(crc, |after|, left[n..], false) == before + RecordBytes(crc, |before|, left, begin)
  {
    hide *;
    RecordStep(crc, |before|, left, begin);
    if n < |left| {
      Regroup(before, Physical(crc, |before|, FragmentType(begin, false), left[..n]),
              RecordBytes(crc, |after|, left[n..], false));
    }
  }

  /** Writing the records `rs` one after the other gives Encode. */
  method WriteAll(crc: Checksum, rs: seq<Bytes>) returns (contents: Bytes)
    ensures contents == Encode(crc, 0, rs)
  {
    hide RecordBytes, Encode;
    var writer := new Writer(crc, []);
    for i := 0 to |rs|
      invariant writer.Valid() && writer.crc == crc
      invariant writer.dest + Encode(crc, |writer.dest|, rs[i..]) == Encode(crc, 0, rs)
    {
      assert rs[i..][1..] == rs[i + 1..];
      EncodeStep(crc, |writer.dest|, rs[i..]);
      writer.AddRecord(rs[i]);
    }
    EncodeNothing(crc, |writer.dest|);
    contents := writer.dest;
  }

  lemma EncodeNothing(crc: Checksum, p: nat)
    ensures Encode(crc, p, []) == []
  {
  }

  // ---- Reader ----------------------------------------------------------------------------------

  const EOF := 5
  const BAD_RECORD := 6

  datatype Report = Report(bytes: nat, reason: string)

  /** The file agrees with `bytes` from position p on, as far as it goes. */
  ghost predicate Agree(file: Bytes, p: nat, bytes: Bytes) {
    forall i :: 0 <= i < |bytes| && p + i < |file| ==> file[p + i] == bytes[i]
  }

  lemma AgreeParts(file: Bytes, p: nat, a: Bytes, b: Bytes)
    requires Agree(file, p, a + b)
    ensures Agree(file, p, a) && Agree(file, p + |a|, b)
  {
    forall i | 0 <= i < |a| && p + i < |file| ensures file[p + i] == a[i] {
      assert (a + b)[i] == a[i];
    }
    forall i | 0 <= i < |b| && p + |a| + i < |file| ensures file[p + |a| + i] == b[i] {
      assert (a + b)[|a| + i] == b[i];
      assert file[p + (|a| + i)] == (a + b)[|a| + i];
    }
  }

  lemma AgreeWhole(file: Bytes, p: nat, a: Bytes)
    requires Agree(file, p, a) && p + |a| <= |file|
    ensures file[p..p + |a|] == a
  {
  }

  /** A physical record of the log, perhaps cut short, is at position p. */
  ghost predicate PhysicalAt(crc: Checksum, file: Bytes, p: nat, t: Byte, payload: Bytes) {
    && FULL_TYPE <= t <= LAST_TYPE && |payload| <= Avail(p) < BLOCK_SIZE
    && Agree(file, p, Physical(crc, p, t, payload))
  }

  lemma AgreeBuffer(file: Bytes, s: nat, bytes: Bytes, b: Bytes)
    requires Agree(file, s, bytes) && s + |b| <= |file| && b == file[s..s + |b|]
    ensures Agree(b, 0, bytes)
  {
    forall i | 0 <= i < |bytes| && i < |b| ensures b[i] == bytes[i] {
      assert b[i] == file[s + i];
    }
  }

  /** What a buffer `b` shows that starts at the header of (t, payload). */
  lemma HeaderAt(crc: Checksum, file: Bytes, p: nat, t: Byte, payload: Bytes, b: Bytes)
    requires PhysicalAt(crc, file, p, t, payload)
    requires |b| >= HEADER_SIZE && Start(p) + |b| <= |file| && b == file[Start(p)..Start(p) + |b|]
    ensures b[4] as int + b[5] as int * 0x100 == |payload| && b[6] == t
    ensures Unmask(DecodeFixed32(b)) == crc([t] + payload)
    ensures HEADER_SIZE + |payload| <= |b| ==>
              b[HEADER_SIZE..HEADER_SIZE + |payload|] == payload && b[6..HEADER_SIZE + |payload|] == [t] + payload
  {
    hide Start, Header, Unmask, DecodeFixed32, Zeros, Agree;
    var header := Header(crc, t, payload);
    var zeros := Zeros(Start(p) - p);
    assert zeros + header + payload == zeros + (header + payload);
    AgreeParts(file, p, zeros, header + payload);
    AgreeBuffer(file, Start(p), header + payload, b);
    AgreeParts(b, 0, header, payload);
    AgreeWhole(b, 0, header);
    HeaderDecodes(crc, t, payload, b);
    if HEADER_SIZE + |payload| <= |b| {
      AgreeWhole(b, HEADER_SIZE, payload);
      assert b[6..HEADER_SIZE + |payload|] == [b[6]] + b[HEADER_SIZE..HEADER_SIZE + |payload|];
    }
  }

  lemma HeaderDecodes(crc: Checksum, t: Byte, payload: Bytes, b: Bytes)
    requires |payload| < BLOCK_SIZE && |b| >= HEADER_SIZE && b[..HEADER_SIZE] == Header(crc, t, payload)
    ensures b[4] as int + b[5] as int * 0x100 == |payload| && b[6] == t
    ensures Unmask(DecodeFixed32(b)) == crc([t] + payload)
  {
    hide Mask, Unmask, DecodeFixed32, Fixed32;
    var masked, h := Mask(crc([t] + payload)), b[..HEADER_SIZE];
    assert b[4] == h[4] && b[5] == h[5] && b[6] == h[6];
    assert b == h[..4] + b[4..];
    assert h[..4] == Fixed32(masked);
    DecodeInvertsFixed32(masked, b[4..]);
    UnmaskInvertsMask(crc([t] + payload));
  }

  /** The unread rest of a buffer of n bytes that ends at `end` lies in one block. */
  ghost predicate InOneBlock(eof: bool, end: nat, n: nat, size: nat) {
    if eof then end == size && n <= size % BLOCK_SIZE else end % BLOCK_SIZE == 0 && n <= BLOCK_SIZE
  }

  lemma LessInOneBlock(eof: bool, end: nat, n: nat, size: nat, m: nat)
    requires InOneBlock(eof, end, n, size) && m <= n
    ensures InOneBlock(eof, end, m, size)
    ensures eof ==> end == size
  {
  }

  lemma BlockRead(end: nat, n: nat, size: nat)
    requires end % BLOCK_SIZE == 0 && n == if end + BLOCK_SIZE <= size then BLOCK_SIZE else size - end
    requires end <= size
    ensures InOneBlock(n < BLOCK_SIZE, end + n, n, size)
  {
    AfterBlockEnd(end, n);
  }

  lemma TailOfBuffer(file: Bytes, end: nat, buffer: Bytes, k: nat)
    requires |buffer| <= end <= |file| && buffer == file[end - |buffer|..end] && k <= |buffer|
    ensures buffer[k..] == file[end - (|buffer| - k)..end]
  {
  }

  // ---- What any file holds -----------------------------------------------------------------------

  /** What is found at a position of a file: a fragment and where it ends; something that is given up up to some
      position, with or without a report; or the end of the log. */
  datatype Piece = Fragment(kind: nat, payload: Bytes, next: nat) | GivenUp(reports: seq<Report>, next: nat) | NoMore

  /** The end of the block that position p is in, or of the file. */
  function BlockLimit(file: Bytes, p: nat): (n: nat)
    requires p < |file|
    ensures p < n <= |file| && (n == |file| || n % BLOCK_SIZE == 0)
  {
    var end := (p / BLOCK_SIZE + 1) * BLOCK_SIZE;
    if end <= |file| then end else |file|
  }

  function PayloadLength(file: Bytes, s: nat): nat
    requires s + HEADER_SIZE <= |file|
  {
    file[s + 4] as int + file[s + 5] as int * 0x100
  }

  /** The checksum in a header is that of the type and the payload. */
  predicate ChecksumOk(crc: Checksum, file: Bytes, s: nat)
    requires s + HEADER_SIZE <= |file| && s + HEADER_SIZE + PayloadLength(file, s) <= |file|
  {
    Unmask(DecodeFixed32(file[s..])) == crc(file[s + 6..s + HEADER_SIZE + PayloadLength(file, s)])
  }

  /** Reading on from position p of any file: behind a trailer, a header whose payload lies within its block (a block
      that is cut short by the end of the file is the end of the log), no preallocated space, and the right checksum;
      otherwise the rest of the block is given up. */
  function FindAt(crc: Checksum, checksum: bool, file: Bytes, p: nat): (r: Piece)
    requires p <= |file|
    ensures r.Fragment? || r.GivenUp? ==> p < r.next <= |file|
  {
    var s := Start(p);
    if s + HEADER_SIZE > |file| then NoMore
    else
      var limit, end := BlockLimit(file, s), s + HEADER_SIZE + PayloadLength(file, s);
      if end > limit then
        if limit % BLOCK_SIZE == 0 then GivenUp([Report(limit - s, "bad record length")], limit) else NoMore
      else if file[s + 6] == ZERO_TYPE && end == s + HEADER_SIZE then GivenUp([], limit)
      else if checksum && !ChecksumOk(crc, file, s) then GivenUp([Report(limit - s, "checksum mismatch")], limit)
      else Fragment(file[s + 6], file[s + HEADER_SIZE..end], end)
  }

  /** From position a up to b there are the fragments that begin a record, and hold `data` together. */
  ghost predicate Begun(crc: Checksum, checksum: bool, file: Bytes, a: nat, b: nat, kind: Byte, data: Bytes)
    decreases b - a
  {
    && a < b <= |file|
    && match FindAt(crc, checksum, file, a)
       case Fragment(k, payload, next) =>
         && k == kind && payload <= data
         && if next < b then Begun(crc, checksum, file, next, b, MIDDLE_TYPE, data[|payload|..])
            else next == b && payload == data
       case _ => false
  }

  lemma {:induction false} BegunMore(crc: Checksum, checksum: bool, file: Bytes, a: nat, b: nat, kind: Byte,
                                     data: Bytes)
    requires Begun(crc, checksum, file, a, b, kind, data)
    ensures match FindAt(crc, checksum, file, b)
            case Fragment(k, more, next) =>
              k == MIDDLE_TYPE ==> Begun(crc, checksum, file, a, next, kind, data + more)
            case _ => true
    decreases b - a
  {
    hide FindAt;
    var first := FindAt(crc, checksum, file, a);
    if first.next < b {
      BegunMore(crc, checksum, file, first.next, b, MIDDLE_TYPE, data[|first.payload|..]);
      var last := FindAt(crc, checksum, file, b);
      if last.Fragment? {
        assert (data + last.payload)[|first.payload|..] == data[|first.payload|..] + last.payload;
      }
    } else {
      var last := FindAt(crc, checksum, file, b);
      if last.Fragment? {
        assert (data + last.payload)[|data|..] == last.payload;
      }
    }
  }

  /** The record is there whole from position a up to b: one fragment, or a first, any number of middle ones and a last
      one, directly behind each other. */
  ghost predicate WholeAt(crc: Checksum, checksum: bool, file: Bytes, a: nat, b: nat, record: Bytes) {
    && a < b <= |file|
    && (|| FindAt(crc, checksum, file, a) == Fragment(FULL_TYPE, record, b)
        || exists c: nat, data: Bytes ::
             && Begun(crc, checksum, file, a, c, FIRST_TYPE, data) && data <= record
             && FindAt(crc, checksum, file, c) == Fragment(LAST_TYPE, record[|data|..], b))
  }

  /** Between positions p and q there is nothing but preallocated space, empty fragments, and fragments of the type
      that the reader itself uses for bad ones. */
  ghost predicate Nothing(crc: Checksum, checksum: bool, file: Bytes, p: nat, q: nat)
    decreases q - p
  {
    && p <= q <= |file|
    && (p < q ==>
          match FindAt(crc, checksum, file, p)
          case Fragment(kind, payload, next) =>
            (payload == [] || kind == BAD_RECORD) && next <= q && Nothing(crc, checksum, file, next, q)
          case GivenUp(reports, next) => reports == [] && next <= q && Nothing(crc, checksum, file, next, q)
          case NoMore => false)
  }

  lemma {:induction false} NothingJoins(crc: Checksum, checksum: bool, file: Bytes, p: nat, q: nat, r: nat)
    requires Nothing(crc, checksum, file, p, q) && Nothing(crc, checksum, file, q, r)
    ensures Nothing(crc, checksum, file, p, r)
    decreases q - p
  {
    hide FindAt;
    if p < q {
      NothingJoins(crc, checksum, file, FindAt(crc, checksum, file, p).next, q, r);
    }
  }

  lemma {:induction false} EmptyIsNothing(crc: Checksum, checksum: bool, file: Bytes, a: nat, b: nat, kind: Byte)
    requires Begun(crc, checksum, file, a, b, kind, [])
    ensures Nothing(crc, checksum, file, a, b)
    decreases b - a
  {
    hide FindAt;
    var first := FindAt(crc, checksum, file, a);
    if first.next < b {
      var none: Bytes := [];
      assert none[|first.payload|..] == [];
      EmptyIsNothing(crc, checksum, file, first.next, b, MIDDLE_TYPE);
    } else {
      assert Nothing(crc, checksum, file, b, b);
    }
  }

  /** Where reading got to: a record was begun at `start` and goes up to `pos`, or none was. What lies between p and
      `start` is nothing, unless something was reported. */
  ghost predicate Progress(crc: Checksum, checksum: bool, file: Bytes, p: nat, start: nat, pos: nat, scratch: Bytes,
                           inside: bool, quiet: bool) {
    && p <= start <= pos <= |file|
    && (if inside then Begun(crc, checksum, file, start, pos, FIRST_TYPE, scratch) else start == pos && scratch == [])
    && (quiet ==> Nothing(crc, checksum, file, p, start))
  }

  /** What lies before the position, if the record that was begun is dropped for being empty. */
  lemma DropEmpty(crc: Checksum, checksum: bool, file: Bytes, p: nat, start: nat, pos: nat, scratch: Bytes,
                  inside: bool, quiet: bool)
    requires Progress(crc, checksum, file, p, start, pos, scratch, inside, quiet)
    ensures Progress(crc, checksum, file, p, pos, pos, [], false, quiet && scratch == [])
  {
    hide FindAt;
    if inside && quiet && scratch == [] {
      EmptyIsNothing(crc, checksum, file, start, pos, FIRST_TYPE);
      NothingJoins(crc, checksum, file, p, start, pos);
    }
  }

  /** A first fragment begins a record. */
  lemma BeginRecord(crc: Checksum, checksum: bool, file: Bytes, p: nat, pos: nat, quiet: bool)
    requires Progress(crc, checksum, file, p, pos, pos, [], false, quiet)
    ensures match FindAt(crc, checksum, file, pos)
            case Fragment(kind, payload, next) =>
              kind == FIRST_TYPE ==> Progress(crc, checksum, file, p, pos, next, payload, true, quiet)
            case _ => true
  {
    hide FindAt;
  }

  /** The rest of the step: a middle or last fragment of a record that was begun, and what is dropped without being
      reported. */
  lemma GoOn(crc: Checksum, checksum: bool, file: Bytes, p: nat, start: nat, pos: nat, scratch: Bytes, inside: bool,
             quiet: bool)
    requires Progress(crc, checksum, file, p, start, pos, scratch, inside, quiet)
    ensures match FindAt(crc, checksum, file, pos)
            case Fragment(kind, payload, next) =>
              && Progress(crc, checksum, file, p, next, next, [], false, false)
              && (inside && kind == MIDDLE_TYPE ==>
                    Progress(crc, checksum, file, p, start, next, scratch + payload, true, quiet))
              && (inside && kind == LAST_TYPE ==> WholeAt(crc, checksum, file, start, next, scratch + payload))
              && (kind == FULL_TYPE ==> WholeAt(crc, checksum, file, pos, next, payload))
              && (!inside && kind == BAD_RECORD ==> Progress(crc, checksum, file, p, next, next, [], false, quiet))
            case GivenUp(reports, next) =>
              && Progress(crc, checksum, file, p, next, next, [], false, false)
              && (!inside && reports == [] ==> Progress(crc, checksum, file, p, next, next, [], false, quiet))
            case NoMore => true
  {
    hide FindAt;
    var piece := FindAt(crc, checksum, file, pos);
    if inside {
      BegunMore(crc, checksum, file, start, pos, FIRST_TYPE, scratch);
      if piece.Fragment? {
        assert (scratch + piece.payload)[|scratch|..] == piece.payload;
      }
    } else if quiet && !piece.NoMore? {
      assert Nothing(crc, checksum, file, piece.next, piece.next);
      if (piece.Fragment? && piece.kind == BAD_RECORD) || (piece.GivenUp? && piece.reports == []) {
        assert Nothing(crc, checksum, file, pos, piece.next);
        NothingJoins(crc, checksum, file, p, pos, piece.next);
      }
    }
  }

  lemma NothingYet(crc: Checksum, checksum: bool, file: Bytes, p: nat)
    requires p <= |file|
    ensures Progress(crc, checksum, file, p, p, p, [], false, true)
  {
    hide FindAt;
  }

  /** A record that is read from position p on, up to `next`. */
  ghost predicate Returned(crc: Checksum, checksum: bool, file: Bytes, p: nat, next: nat, record: Bytes, quiet: bool) {
    exists start: nat ::
      && p <= start && WholeAt(crc, checksum, file, start, next, record)
      && (quiet ==> Nothing(crc, checksum, file, p, start))
  }

  /** Reading from position p on comes to the end of the log, or to a fragment of the type that the reader itself uses
      for it, perhaps behind the beginning of a record. */
  ghost predicate Ended(crc: Checksum, checksum: bool, file: Bytes, p: nat, quiet: bool) {
    exists start: nat, end: nat, scratch: Bytes, inside: bool ::
      && Progress(crc, checksum, file, p, start, end, scratch, inside, quiet)
      && match FindAt(crc, checksum, file, end)
         case NoMore => true
         case Fragment(kind, _, _) => kind == EOF
         case GivenUp(_, _) => false
  }

  /** What each piece does to the progress. */
  lemma OnePiece(crc: Checksum, checksum: bool, file: Bytes, p: nat, start: nat, pos: nat, scratch: Bytes, inside: bool,
                 quiet: bool)
    requires Progress(crc, checksum, file, p, start, pos, scratch, inside, quiet)
    ensures pos <= |file|
    ensures match FindAt(crc, checksum, file, pos)
            case NoMore => Ended(crc, checksum, file, p, quiet)
            case GivenUp(reports, next) =>
              Progress(crc, checksum, file, p, next, next, [], false, quiet && !inside && reports == [])
            case Fragment(kind, payload, next) =>
              var silent := quiet && (inside ==> scratch == []);
              if kind == FULL_TYPE then Returned(crc, checksum, file, p, next, payload, silent)
              else if kind == FIRST_TYPE then Progress(crc, checksum, file, p, pos, next, payload, true, silent)
              else if kind == MIDDLE_TYPE && inside then
                Progress(crc, checksum, file, p, start, next, scratch + payload, true, quiet)
              else if kind == LAST_TYPE && inside then
                Returned(crc, checksum, file, p, next, scratch + payload, quiet)
              else if kind == EOF then Ended(crc, checksum, file, p, quiet)
              else Progress(crc, checksum, file, p, next, next, [], false, kind == BAD_RECORD && quiet && !inside)
  {
    hide FindAt, Begun, Nothing, WholeAt;
    DropEmpty(crc, checksum, file, p, start, pos, scratch, inside, quiet);
    BeginRecord(crc, checksum, file, p, pos, quiet && scratch == []);
    GoOn(crc, checksum, file, p, start, pos, scratch, inside, quiet);
  }

  lemma NothingFound(crc: Checksum, checksum: bool, file: Bytes, p: nat)
    requires p <= |file| < Start(p) + HEADER_SIZE
    ensures FindAt(crc, checksum, file, p) == NoMore
  {
  }

  /** A physical record of the log is found, or taken for the end of the log if it is cut short. */
  lemma FindPhysical(crc: Checksum, checksum: bool, file: Bytes, p: nat, t: Byte, payload: Bytes)
    requires p <= |file| && PhysicalAt(crc, file, p, t, payload)
    ensures var end := Start(p) + HEADER_SIZE + |payload|;
            FindAt(crc, checksum, file, p) == if end <= |file| then Fragment(t, payload, end) else NoMore
  {
    hide Physical, Agree, Unmask, DecodeFixed32, BlockLimit;
    var s := Start(p);
    if s + HEADER_SIZE <= |file| {
      var b := file[s..];
      HeaderAt(crc, file, p, t, payload, b);
      assert file[s + 4] == b[4] && file[s + 5] == b[5] && file[s + 6] == b[6];
      RoomInBlock(file, s, HEADER_SIZE + |payload|);
      var end := s + HEADER_SIZE + |payload|;
      if end <= |file| {
        SliceOfTail(file, s, 6, HEADER_SIZE + |payload|);
        SliceOfTail(file, s, HEADER_SIZE, HEADER_SIZE + |payload|);
      }
    }
  }

  lemma SliceOfTail(file: Bytes, s: nat, i: nat, j: nat)
    requires i <= j && s + j <= |file|
    ensures file[s + i..s + j] == file[s..][i..j]
  {
  }

  /** What fits the block fits up to its limit, unless the file ends before. */
  lemma RoomInBlock(file: Bytes, s: nat, n: nat)
    requires s < |file| && s % BLOCK_SIZE + n <= BLOCK_SIZE
    ensures s + n <= |file| ==> s + n <= BlockLimit(file, s)
    ensures s + n > |file| ==> BlockLimit(file, s) == |file| && |file| % BLOCK_SIZE != 0
  {
    var q := s / BLOCK_SIZE;
    var end := q * BLOCK_SIZE + BLOCK_SIZE;
    assert s == q * BLOCK_SIZE + s % BLOCK_SIZE && end == (q + 1) * BLOCK_SIZE;
    if s + n > |file| {
      assert |file| == q * BLOCK_SIZE + (|file| - q * BLOCK_SIZE);
      RemainderIs(|file|, q, |file| - q * BLOCK_SIZE);
    }
  }

  lemma RemainderIs(p: nat, q: nat, r: nat)
    requires p == q * BLOCK_SIZE + r && r < BLOCK_SIZE
    ensures p % BLOCK_SIZE == r
  {
  }

  lemma LimitIs(file: Bytes, eof: bool, end: nat, n: nat)
    requires InOneBlock(eof, end, n, |file|) && 0 < n <= end <= |file|
    ensures BlockLimit(file, end - n) == end && (end % BLOCK_SIZE == 0 <==> !eof)
  {
    var p := end - n;
    if eof {
      var whole := |file| / BLOCK_SIZE;
      assert |file| == whole * BLOCK_SIZE + |file| % BLOCK_SIZE;
      assert p / BLOCK_SIZE == whole by { DivisionIs(p, whole, |file| % BLOCK_SIZE - n); }
    } else {
      var blocks := end / BLOCK_SIZE;
      assert end == blocks * BLOCK_SIZE;
      assert p / BLOCK_SIZE == blocks - 1 by { DivisionIs(p, blocks - 1, BLOCK_SIZE - n); }
    }
  }

  lemma DivisionIs(p: nat, q: nat, r: nat)
    requires p == q * BLOCK_SIZE + r && r < BLOCK_SIZE
    ensures p / BLOCK_SIZE == q
  {
  }

  lemma SliceOfFile(file: Bytes, a: nat, b: nat)
    requires a <= b <= |file|
    ensures forall i :: 0 <= i < b - a ==> file[a..b][i] == file[a + i]
    ensures forall i, j :: 0 <= i <= j <= b - a ==> file[a..b][i..j] == file[a + i..a + j]
  {
  }

  lemma SameWord(a: Bytes, b: Bytes)
    requires |a| >= 4 && |b| >= 4 && forall i :: 0 <= i < 4 ==> a[i] == b[i]
    ensures DecodeFixed32(a) == DecodeFixed32(b)
  {
  }

  class Reader {
    const crc: Checksum
    const checksum: bool
    const file: Bytes
    var endOfBuffer: nat
    var buffer: Bytes
    var eof: bool
    var lastRecordOffset: int
    var reports: seq<Report>
    ghost var read: seq<Bytes>     // the records that have been returned
    ghost var places: seq<nat>     // where each was looked for, and where the next one will be

    /** A reader from initial offset 0. */
    constructor (crc: Checksum, checksum: bool, file: Bytes)
      ensures Valid() && Pos() == 0 && reports == []
      ensures this.crc == crc && this.checksum == checksum && this.file == file
      ensures Tracked() && read == []
    {
      this.crc, this.checksum, this.file := crc, checksum, file;
      endOfBuffer, buffer, eof, lastRecordOffset, reports := 0, [], false, 0, [];
      read, places := [], [0];
      new;
      NothingRead(crc, checksum, file);
    }

    /** What has been read is there. */
    ghost predicate Tracked()
      requires Valid()
      reads this
    {
      ReadSoFar(crc, checksum, file, places, read, Pos(), reports == [])
    }

    /** The buffer holds the unread rest of one block of the file. */
    ghost predicate Valid()
      reads this`buffer, this`endOfBuffer, this`eof
    {
      && |buffer| <= endOfBuffer <= |file| && buffer == file[endOfBuffer - |buffer|..endOfBuffer]
      && InOneBlock(eof, endOfBuffer, |buffer|, |file|)
    }

    /** Where the unread part of the file begins. */
    ghost function Pos(): (p: nat)
      requires Valid()
      reads this`buffer, this`endOfBuffer, this`eof
      ensures p <= |file|
    {
      endOfBuffer - |buffer|
    }

    lemma PosIs()
      requires Valid()
      ensures Pos() == endOfBuffer - |buffer| <= |file|
    {
    }

    method ReportCorruption(bytes: nat, reason: string)
      requires Valid()
      modifies this`reports
      ensures reports == old(reports) + [Report(bytes, reason)]
    {
      reports := reports + [Report(bytes, reason)];
    }

    lemma BufferInBlock()
      requires Valid()
      ensures |buffer| >= HEADER_SIZE ==> Start(Pos()) == Pos()
      ensures |buffer| >= HEADER_SIZE && !eof ==> |buffer| == HEADER_SIZE + Avail(Pos())
      ensures |buffer| < HEADER_SIZE && !eof ==> Start(Pos()) == endOfBuffer
    {
      if !eof {
        BeforeBlockEnd(endOfBuffer, |buffer|);
      } else {
        WithinBlock(|file|, |buffer|);
      }
    }

    /** file_->Read(kBlockSize): the next block, or what is left of the file. */
    method ReadBlock()
      requires Valid() && !eof && |buffer| < HEADER_SIZE
      modifies this`buffer, this`endOfBuffer, this`eof
      ensures Valid() && Pos() == old(endOfBuffer) && (eof <==> |buffer| < BLOCK_SIZE)
    {
      var n := if endOfBuffer + BLOCK_SIZE <= |file| then BLOCK_SIZE else |file| - endOfBuffer;
      BlockRead(endOfBuffer, n, |file|);
      hide InOneBlock;
      buffer := file[endOfBuffer..endOfBuffer + n];
      endOfBuffer := endOfBuffer + n;
      if |buffer| < BLOCK_SIZE {
        eof := true;
      }
    }

    /** buffer_.clear() */
    method ClearBuffer()
      requires Valid()
      modifies this`buffer
      ensures Valid() && Pos() == endOfBuffer && (eof ==> Pos() == |file|)
    {
      LessInOneBlock(eof, endOfBuffer, |buffer|, |file|, 0);
      buffer := [];
    }

    /** buffer_.remove_prefix(n) */
    method RemovePrefix(n: nat)
      requires Valid() && n <= |buffer|
      modifies this`buffer
      ensures Valid() && Pos() == old(Pos()) + n
    {
      LessInOneBlock(eof, endOfBuffer, |buffer|, |file|, |buffer| - n);
      TailOfBuffer(file, endOfBuffer, buffer, n);
      buffer := buffer[n..];
    }

    /** The first part of ReadPhysicalRecord: skip a trailer, refill the buffer, notice the end of the file. */
    method NextHeader() returns (more: bool)
      requires Valid()
      modifies this`buffer, this`endOfBuffer, this`eof
      ensures Valid() && old(Pos()) <= Pos()
      ensures more ==> |buffer| >= HEADER_SIZE && Pos() == Start(old(Pos()))
      ensures !more ==> Pos() == |file| < Start(old(Pos())) + HEADER_SIZE
    {
      hide Start;
      ghost var p := Pos();
      BufferInBlock();
      while |buffer| < HEADER_SIZE
        invariant Valid() && (Pos() == p || Pos() == Start(p))
        invariant |buffer| < HEADER_SIZE && !eof ==> Start(p) == endOfBuffer
        invariant |buffer| >= HEADER_SIZE ==> Pos() == Start(p)
        decreases !eof, |file| - endOfBuffer
      {
        if !eof {
          ReadBlock();
        } else {
          ClearBuffer();
          return false;
        }
      }
      more := true;
    }

    /** What is at the front of the buffer is what the file has there. */
    lemma BufferShows(p: nat)
      requires Valid() && |buffer| >= HEADER_SIZE && p <= Pos() && Pos() == Start(p)
      ensures var s := Pos();
              && p <= |file| && s + HEADER_SIZE <= |file| && BlockLimit(file, s) == endOfBuffer
              && (endOfBuffer % BLOCK_SIZE == 0 <==> !eof)
              && PayloadLength(file, s) == buffer[4] as int + buffer[5] as int * 0x100 && file[s + 6] == buffer[6]
      ensures var s, length := Pos(), buffer[4] as int + buffer[5] as int * 0x100;
              HEADER_SIZE + length <= |buffer| ==>
                && file[s + HEADER_SIZE..s + HEADER_SIZE + length] == buffer[HEADER_SIZE..HEADER_SIZE + length]
                && (ChecksumOk(crc, file, s) <==>
                      Unmask(DecodeFixed32(buffer)) == crc(buffer[6..HEADER_SIZE + length]))
    {
      hide Unmask, DecodeFixed32, Start;
      var s := Pos();
      LimitIs(file, eof, endOfBuffer, |buffer|);
      SliceOfFile(file, s, endOfBuffer);
      SameWord(file[s..], buffer);
      var length := buffer[4] as int + buffer[5] as int * 0x100;
      if HEADER_SIZE + length <= |buffer| {
        assert file[s + 6..s + HEADER_SIZE + length] == buffer[6..HEADER_SIZE + length];
      }
    }

    /** In terms of the buffer, with `length` and `kind` read from it. */
    lemma FoundInBuffer(p: nat, length: nat, kind: Byte)
      requires Valid() && |buffer| >= HEADER_SIZE && p <= Pos() && Pos() == Start(p)
      requires length == buffer[4] as int + buffer[5] as int * 0x100 && kind == buffer[6]
      ensures p <= |file|
      ensures FindAt(crc, checksum, file, p) ==
                if HEADER_SIZE + length > |buffer| then
                  if eof then NoMore else GivenUp([Report(|buffer|, "bad record length")], endOfBuffer)
                else if kind == ZERO_TYPE && length == 0 then GivenUp([], endOfBuffer)
                else if checksum && Unmask(DecodeFixed32(buffer)) != crc(buffer[6..HEADER_SIZE + length]) then
                  GivenUp([Report(|buffer|, "checksum mismatch")], endOfBuffer)
                else Fragment(kind, buffer[HEADER_SIZE..HEADER_SIZE + length], Pos() + HEADER_SIZE + length)
    {
      hide Unmask, DecodeFixed32, Start, InOneBlock, ChecksumOk, PayloadLength, BlockLimit;
      BufferShows(p);
    }

    /** Reads one fragment: block by block, what is found in the whole file. */
    method ReadPhysicalRecord() returns (recordType: nat, result: Bytes)
      requires Valid()
      modifies this`buffer, this`endOfBuffer, this`eof, this`reports
      ensures Valid() && old(Pos()) <= Pos() && (recordType != EOF ==> old(Pos()) < Pos())
      ensures match FindAt(crc, checksum, file, old(Pos()))
              case Fragment(kind, found, next) =>
                recordType == kind && result == found && Pos() == next && reports == old(reports)
              case GivenUp(more, next) =>
                recordType == BAD_RECORD && result == [] && Pos() == next && reports == old(reports) + more
              case NoMore => recordType == EOF && result == [] && Pos() == |file| && reports == old(reports)
    {
      hide Unmask, DecodeFixed32, Start, InOneBlock, FindAt;
      ghost var p := Pos();
      var more := NextHeader();
      if !more {
        NothingFound(crc, checksum, file, p);
        return EOF, [];
      }
      var header := buffer;
      var length := header[4] as int + header[5] as int * 0x100;
      var kind := header[6];
      FoundInBuffer(p, length, kind);
      if HEADER_SIZE + length > |buffer| {
        var dropSize := |buffer|;
        ClearBuffer();
        if !eof {
          ReportCorruption(dropSize, "bad record length");
          return BAD_RECORD, [];
        }
        return EOF, [];
      }
      if kind == ZERO_TYPE && length == 0 {
        ClearBuffer();
        return BAD_RECORD, [];
      }
      if checksum {
        var expected := Unmask(DecodeFixed32(header));
        var actual := crc(header[6..HEADER_SIZE + length]);
        if actual != expected {
          var dropSize := |buffer|;
          ClearBuffer();
          ReportCorruption(dropSize, "checksum mismatch");
          return BAD_RECORD, [];
        }
      }
      RemovePrefix(HEADER_SIZE + length);
      result := header[HEADER_SIZE..HEADER_SIZE + length];
      recordType := kind;
    }

    /** Reads one record. On any file, a record that is returned is there whole, behind what was reported or was
        nothing; if none is returned, then the log ends, perhaps behind the beginning of a record. If the log has record
        r here, perhaps cut short, it is read back when all of it is there, and otherwise taken for the end of the log;
        nothing is reported. */
    method ReadRecord(ghost r: Bytes) returns (ok: bool, record: Bytes)
      requires Valid()
      modifies this
      ensures Valid() && (ok ==> old(Pos()) < Pos()) && |old(reports)| <= |reports|
      ensures if ok then Returned(crc, checksum, file, old(Pos()), Pos(), record, |reports| == |old(reports)|)
              else Ended(crc, checksum, file, old(Pos()), |reports| == |old(reports)|)
      ensures RecordAt(crc, file, old(Pos()), r) ==>
                && reports == old(reports)
                && var end := old(Pos()) + |RecordBytes(crc, old(Pos()), r, true)|;
                   && (ok <==> end <= |file|)
                   && (ok ==> record == r && Pos() == end && lastRecordOffset == Start(old(Pos())))
      ensures old(Tracked()) ==>
                && (ok ==> Tracked() && read == old(read) + [record])
                && (!ok ==> ReadToTheEnd() && read == old(read))
    {
      hide RecordBytes, Start, RecordAt, Valid, Pos, Returned, Ended, ReadSoFar;
      ghost var p, quiet, tracked := Pos(), reports == [], Tracked();
      ok, record := ReadFragments(r);
      if tracked {
        places, read := ReadOn(crc, checksum, file, places, read, p, quiet, ok, Pos(), record,
                               |reports| == |old(reports)|, reports == []);
        if !ok {
          ReadSoFarIs(crc, checksum, file, places, read, p, reports == []);
        }
      }
    }

    lemma TrackedIs()
      requires Valid() && Tracked()
      ensures ReadInTurn(crc, checksum, file, places, read, reports == [])
    {
      ReadSoFarIs(crc, checksum, file, places, read, Pos(), reports == []);
    }

    /** All records of the file have been read. */
    ghost predicate ReadToTheEnd()
      reads this
    {
      && ReadInTurn(crc, checksum, file, places, read, reports == [])
      && Ended(crc, checksum, file, places[|read|], reports == [])
    }

    /** The loop of ReadRecord. */
    method ReadFragments(ghost r: Bytes) returns (ok: bool, record: Bytes)
      requires Valid()
      modifies this`buffer, this`endOfBuffer, this`eof, this`reports, this`lastRecordOffset
      ensures Valid() && (ok ==> old(Pos()) < Pos()) && |old(reports)| <= |reports|
      ensures if ok then Returned(crc, checksum, file, old(Pos()), Pos(), record, |reports| == |old(reports)|)
              else Ended(crc, checksum, file, old(Pos()), |reports| == |old(reports)|)
      ensures RecordAt(crc, file, old(Pos()), r) ==>
                && reports == old(reports)
                && var end := old(Pos()) + |RecordBytes(crc, old(Pos()), r, true)|;
                   && (ok <==> end <= |file|)
                   && (ok ==> record == r && Pos() == end && lastRecordOffset == Start(old(Pos())))
    {
      hide RecordBytes, Physical, Start, Reading, RecordAt, PhysicalAt, Valid, Pos, FindAt, Progress, Returned, Ended;
      ghost var p, start := Pos(), Pos();
      NothingYet(crc, checksum, file, p);
      ghost var isHere := RecordAt(crc, file, p, r);
      var scratch: Bytes := [];
      var inFragmentedRecord := false;
      var prospectiveOffset: int := 0;
      record := [];
      if isHere {
        StartReading(crc, file, p, r);
      }
      while true
        invariant Valid() && p <= Pos()
        invariant isHere ==> reports == old(reports) && Reading(crc, file, p, r, Pos(), scratch, inFragmentedRecord)
        invariant isHere && inFragmentedRecord ==> prospectiveOffset == Start(p)
        invariant |old(reports)| <= |reports| && (!inFragmentedRecord ==> scratch == [])
        invariant Progress(crc, checksum, file, p, start, Pos(), scratch, inFragmentedRecord,
                           |reports| == |old(reports)|)
        decreases |file| - Pos()
      {
        OnePiece(crc, checksum, file, p, start, Pos(), scratch, inFragmentedRecord, |reports| == |old(reports)|);
        ghost var t, payload := FULL_TYPE, [];
        if isHere {
          t, payload := NextFragment(crc, file, p, r, Pos(), scratch, inFragmentedRecord);
          FindPhysical(crc, checksum, file, Pos(), t, payload);
        }
        ghost var before := Pos();
        var recordType, fragment := ReadPhysicalRecord();
        PosIs();
        var physicalOffset := endOfBuffer - |buffer| - HEADER_SIZE - |fragment|;
        if recordType == FULL_TYPE {
          if inFragmentedRecord && scratch != [] {
            ReportCorruption(|scratch|, "partial record without end(1)");
          }
          prospectiveOffset := physicalOffset;
          record := fragment;
          lastRecordOffset := prospectiveOffset;
          return true, record;
        } else if recordType == LAST_TYPE && inFragmentedRecord {
          scratch := scratch + fragment;
          record := scratch;
          lastRecordOffset := prospectiveOffset;
          return true, record;
        } else if recordType == EOF {
          return false, [];
        }
        if recordType == FIRST_TYPE {
          prospectiveOffset := physicalOffset;
          start := before;
        } else if !(recordType == MIDDLE_TYPE && inFragmentedRecord) {
          start := Pos();
        }
        scratch, inFragmentedRecord := Collect(recordType, fragment, scratch, inFragmentedRecord);
      }
    }

    /** The cases of ReadRecord after which it goes on. */
    method Collect(recordType: nat, fragment: Bytes, collected: Bytes, wasInFragmentedRecord: bool)
      returns (scratch: Bytes, inFragmentedRecord: bool)
      requires Valid() && recordType != FULL_TYPE && recordType != EOF
      requires recordType == LAST_TYPE ==> !wasInFragmentedRecord
      modifies this`reports
      ensures recordType == FIRST_TYPE ==> scratch == fragment && inFragmentedRecord
      ensures recordType == MIDDLE_TYPE && wasInFragmentedRecord ==>
                scratch == collected + fragment && inFragmentedRecord
      ensures recordType != FIRST_TYPE && !(recordType == MIDDLE_TYPE && wasInFragmentedRecord) ==>
                !inFragmentedRecord && scratch == if wasInFragmentedRecord then [] else collected
      ensures if (recordType == FIRST_TYPE && !(wasInFragmentedRecord && collected != []))
                 || (recordType == MIDDLE_TYPE && wasInFragmentedRecord)
                 || (recordType == BAD_RECORD && !wasInFragmentedRecord)
              then reports == old(reports) else |reports| == |old(reports)| + 1
    {
      scratch, inFragmentedRecord := collected, wasInFragmentedRecord;
      if recordType == FIRST_TYPE {
        if inFragmentedRecord && scratch != [] {
          ReportCorruption(|scratch|, "partial record without end(2)");
        }
        scratch := fragment;
        inFragmentedRecord := true;
      } else if recordType == MIDDLE_TYPE {
        if !inFragmentedRecord {
          ReportCorruption(|fragment|, "missing start of fragmented record(1)");
        } else {
          scratch := scratch + fragment;
        }
      } else if recordType == LAST_TYPE {
        ReportCorruption(|fragment|, "missing start of fragmented record(2)");
      } else if recordType == BAD_RECORD {
        if inFragmentedRecord {
          ReportCorruption(|scratch|, "error in middle of record");
          inFragmentedRecord := false;
          scratch := [];
        }
      } else {
        ReportCorruption(|fragment| + (if inFragmentedRecord then |scratch| else 0), "unknown record type");
        if inFragmentedRecord {
          inFragmentedRecord := false;
          scratch := [];
        }
      }
    }
  }

  /** Record r of the log, perhaps cut short, is at position p. */
  ghost predicate RecordAt(crc: Checksum, file: Bytes, p: nat, r: Bytes) {
    Agree(file, p, RecordBytes(crc, p, r, true))
  }

  /** The reader has collected `scratch` of record r, which began at position p, and goes on at `pos`. */
  ghost predicate Reading(crc: Checksum, file: Bytes, p: nat, r: Bytes, pos: nat, scratch: Bytes,
                          inFragmentedRecord: bool) {
    && |scratch| <= |r| && scratch == r[..|scratch|]
    && (!inFragmentedRecord ==> scratch == [] && pos == p)
    && var rest := RecordBytes(crc, pos, r[|scratch|..], !inFragmentedRecord);
       Agree(file, pos, rest) && pos + |rest| == p + |RecordBytes(crc, p, r, true)|
  }

  lemma StartReading(crc: Checksum, file: Bytes, p: nat, r: Bytes)
    requires RecordAt(crc, file, p, r)
    ensures Reading(crc, file, p, r, p, [], false)
  {
    hide RecordBytes, Agree;
    assert r[0..] == r;
  }

  /** The next fragment of a record being read, and what reading it leads to. */
  lemma NextFragment(crc: Checksum, file: Bytes, p: nat, r: Bytes, pos: nat, scratch: Bytes, inFragmentedRecord: bool)
    returns (t: Byte, payload: Bytes)
    requires Reading(crc, file, p, r, pos, scratch, inFragmentedRecord)
    ensures PhysicalAt(crc, file, pos, t, payload)
    ensures FULL_TYPE <= t <= LAST_TYPE
    ensures inFragmentedRecord <==> t == MIDDLE_TYPE || t == LAST_TYPE
    ensures var next := Start(pos) + HEADER_SIZE + |payload|;
            var end := p + |RecordBytes(crc, p, r, true)|;
            if t == FULL_TYPE || t == LAST_TYPE then next == end && scratch + payload == r
            else next < end && Reading(crc, file, p, r, next, scratch + payload, true)
    ensures !inFragmentedRecord ==> scratch == [] && pos == p && scratch + payload == payload
  {
    hide RecordBytes, Agree, Physical;
    var left := r[|scratch|..];
    var n := FragmentLength(pos, left);
    t, payload := FragmentType(!inFragmentedRecord, n == |left|), left[..n];
    RecordStep(crc, pos, left, !inFragmentedRecord);
    var first := Physical(crc, pos, t, payload);
    if n < |left| {
      var next := pos + |first|;
      AgreeParts(file, pos, first, RecordBytes(crc, next, left[n..], false));
      assert scratch + payload == r[..|scratch| + n];
      assert r[|scratch| + n..] == left[n..];
    }
  }

  // ---- Whole logs ------------------------------------------------------------------------------

  /** How many of the records written from position p on lie wholly within the first `size` bytes. */
  function Whole(crc: Checksum, p: nat, rs: seq<Bytes>, size: nat): (m: nat)
    ensures m <= |rs|
    decreases |rs|
  {
    if rs == [] then 0
    else
      var next := p + |RecordBytes(crc, p, rs[0], true)|;
      if next <= size then 1 + Whole(crc, next, rs[1..], size) else 0
  }

  /** Whole counts the longest prefix of records whose bytes fit. */
  lemma {:induction false} WholeIsLongest(crc: Checksum, p: nat, rs: seq<Bytes>, size: nat)
    requires p <= size
    ensures var m := Whole(crc, p, rs, size);
            && p + |Encode(crc, p, rs[..m])| <= size
            && (m < |rs| ==> p + |Encode(crc, p, rs[..m + 1])| > size)
    decreases |rs|
  {
    hide RecordBytes;
    var m := Whole(crc, p, rs, size);
    if rs != [] {
      var next := p + |RecordBytes(crc, p, rs[0], true)|;
      if next <= size {
        WholeIsLongest(crc, next, rs[1..], size);
        assert rs[..m][1..] == rs[1..][..m - 1];
        assert m < |rs| ==> rs[..m + 1][1..] == rs[1..][..m];
      } else {
        assert rs[..1][1..] == [];
      }
    }
  }

  lemma {:induction false} EverythingIsWhole(crc: Checksum, p: nat, rs: seq<Bytes>, size: nat)
    requires p + |Encode(crc, p, rs)| <= size
    ensures Whole(crc, p, rs, size) == |rs|
    decreases |rs|
  {
    hide RecordBytes;
    if rs != [] {
      EverythingIsWhole(crc, p + |RecordBytes(crc, p, rs[0], true)|, rs[1..], size);
    }
  }

  /** From position p on the file is a piece of the log of `rs` that goes no further than the log does. */
  ghost predicate PieceOf(crc: Checksum, file: Bytes, p: nat, rs: seq<Bytes>) {
    Agree(file, p, Encode(crc, p, rs)) && p <= |file| <= p + |Encode(crc, p, rs)|
  }

  /** A reader of the log of `rs` has returned the first `done` records and is at position p. */
  ghost predicate Recovering(crc: Checksum, file: Bytes, rs: seq<Bytes>, done: nat, p: nat) {
    && done <= |rs| && PieceOf(crc, file, p, rs[done..])
    && done + Whole(crc, p, rs[done..], |file|) == Whole(crc, 0, rs, |file|)
  }

  lemma StartRecovering(crc: Checksum, file: Bytes, rs: seq<Bytes>)
    requires file <= Encode(crc, 0, rs)
    ensures Recovering(crc, file, rs, 0, 0)
  {
    hide Encode, Whole;
    assert rs[0..] == rs;
  }

  /** The record the reader should meet next. */
  lemma NextRecord(crc: Checksum, file: Bytes, rs: seq<Bytes>, done: nat, p: nat) returns (r: Bytes)
    requires Recovering(crc, file, rs, done, p)
    ensures RecordAt(crc, file, p, r)
    ensures var next := p + |RecordBytes(crc, p, r, true)|;
            && (next <= |file| ==> done < |rs| && r == rs[done] && Recovering(crc, file, rs, done + 1, next))
            && (next > |file| ==> done == Whole(crc, 0, rs, |file|))
  {
    hide RecordBytes;
    if done == |rs| {
      r := [];
    } else {
      r := rs[done];
      EncodeStep(crc, p, rs[done..]);
      assert rs[done..][1..] == rs[done + 1..];
      AgreeParts(file, p, RecordBytes(crc, p, r, true),
                 Encode(crc, p + |RecordBytes(crc, p, r, true)|, rs[done + 1..]));
    }
  }

  /** The records are what reading gives one after the other, from each of the places up to the next, and then the log
      ends. */
  ghost predicate ReadInTurn(crc: Checksum, checksum: bool, file: Bytes, places: seq<nat>, records: seq<Bytes>,
                             quiet: bool) {
    && |places| == |records| + 1 && places[0] == 0
    && forall i :: 0 <= i < |records| ==> Returned(crc, checksum, file, places[i], places[i + 1], records[i], quiet)
  }

  lemma ReadOneMore(crc: Checksum, checksum: bool, file: Bytes, places: seq<nat>, records: seq<Bytes>, quiet: bool,
                    next: nat, record: Bytes, now: bool)
    requires ReadInTurn(crc, checksum, file, places, records, quiet) && (now ==> quiet)
    requires Returned(crc, checksum, file, places[|records|], next, record, now)
    ensures ReadInTurn(crc, checksum, file, places + [next], records + [record], now)
  {
    hide WholeAt, Nothing;
    forall i | 0 <= i < |records|
      ensures var after, all := places + [next], records + [record];
              Returned(crc, checksum, file, after[i], after[i + 1], all[i], now)
    {
      assert Returned(crc, checksum, file, places[i], places[i + 1], records[i], quiet);
    }
  }

  lemma ReadNoMore(crc: Checksum, checksum: bool, file: Bytes, places: seq<nat>, records: seq<Bytes>, quiet: bool,
                   now: bool)
    requires ReadInTurn(crc, checksum, file, places, records, quiet) && (now ==> quiet)
    ensures ReadInTurn(crc, checksum, file, places, records, now)
  {
    hide WholeAt, Nothing;
    forall i | 0 <= i < |records| ensures Returned(crc, checksum, file, places[i], places[i + 1], records[i], now) {
      assert Returned(crc, checksum, file, places[i], places[i + 1], records[i], quiet);
    }
  }

  /** The records that have been read when a reader is at a position, with the places between them. */
  ghost predicate ReadSoFar(crc: Checksum, checksum: bool, file: Bytes, places: seq<nat>, read: seq<Bytes>, pos: nat,
                            quiet: bool) {
    ReadInTurn(crc, checksum, file, places, read, quiet) && places[|read|] == pos
  }

  lemma NothingRead(crc: Checksum, checksum: bool, file: Bytes)
    ensures ReadSoFar(crc, checksum, file, [0], [], 0, true)
  {
  }

  /** One more call of ReadRecord. */
  lemma ReadOn(crc: Checksum, checksum: bool, file: Bytes, places: seq<nat>, read: seq<Bytes>, before: nat, quiet: bool,
               ok: bool, pos: nat, record: Bytes, silent: bool, now: bool)
    returns (after: seq<nat>, all: seq<Bytes>)
    requires ReadSoFar(crc, checksum, file, places, read, before, quiet) && (now ==> quiet && silent)
    requires if ok then Returned(crc, checksum, file, before, pos, record, silent)
             else Ended(crc, checksum, file, before, silent)
    ensures ReadSoFar(crc, checksum, file, after, all, if ok then pos else before, now)
    ensures all == (if ok then read + [record] else read) && (!ok ==> after == places)
    ensures !ok ==> Ended(crc, checksum, file, before, now)
  {
    hide Returned, Ended, ReadInTurn;
    after, all := places, read;
    assert |places| == |read| + 1 by { PlacesCount(crc, checksum, file, places, read, quiet); }
    if ok {
      ReturnedLouder(crc, checksum, file, before, pos, record, silent, now);
      ReadOneMore(crc, checksum, file, places, read, quiet, pos, record, now);
      after, all := places + [pos], read + [record];
    } else {
      EndedLouder(crc, checksum, file, before, silent, now);
      ReadNoMore(crc, checksum, file, places, read, quiet, now);
    }
  }

  lemma PlacesCount(crc: Checksum, checksum: bool, file: Bytes, places: seq<nat>, read: seq<Bytes>, quiet: bool)
    requires ReadInTurn(crc, checksum, file, places, read, quiet)
    ensures |places| == |read| + 1
  {
    hide Returned;
  }

  /** Main result: a log cut at any byte reads back as exactly the records wholly before the cut, and nothing
      is reported. On any file, every record that is read is there whole, one behind the other, and if nothing is
      reported then nothing was passed over. */
  method ReadAll(crc: Checksum, checksum: bool, file: Bytes, ghost rs: seq<Bytes>)
    returns (records: seq<Bytes>, reports: seq<Report>, ghost places: seq<nat>)
    ensures file <= Encode(crc, 0, rs) ==> records == rs[..Whole(crc, 0, rs, |file|)] && reports == []
    ensures ReadInTurn(crc, checksum, file, places, records, reports == [])
    ensures Ended(crc, checksum, file, places[|records|], reports == [])
  {
    hide RecordBytes, Encode, Whole, RecordAt, Recovering, Start, Reader.Valid, Reader.Pos, Returned, Ended,
      Reader.Tracked;
    var reader := new Reader(crc, checksum, file);
    records := [];
    ghost var isLog := file <= Encode(crc, 0, rs);
    if isLog {
      StartRecovering(crc, file, rs);
    }
    while true
      invariant fresh(reader) && reader.Valid() && reader.crc == crc && reader.file == file
      invariant reader.checksum == checksum && reader.Tracked() && reader.read == records
      invariant isLog ==> reader.reports == [] && |records| <= |rs| && records == rs[..|records|]
      invariant isLog ==> Recovering(crc, file, rs, |records|, reader.Pos())
      decreases |file| - reader.Pos()
    {
      ghost var r := [];
      if isLog {
        r := NextRecord(crc, file, rs, |records|, reader.Pos());
      }
      var ok, record := reader.ReadRecord(r);
      if !ok {
        return records, reader.reports, reader.places;
      }
      records := records + [record];
    }
  }

  lemma ReadSoFarIs(crc: Checksum, checksum: bool, file: Bytes, places: seq<nat>, read: seq<Bytes>, pos: nat,
                    quiet: bool)
    requires ReadSoFar(crc, checksum, file, places, read, pos, quiet)
    ensures ReadInTurn(crc, checksum, file, places, read, quiet) && |places| == |read| + 1 && places[|read|] == pos
  {
    hide Returned;
  }

  lemma EndedLouder(crc: Checksum, checksum: bool, file: Bytes, p: nat, quiet: bool, now: bool)
    requires Ended(crc, checksum, file, p, quiet) && (now ==> quiet)
    ensures Ended(crc, checksum, file, p, now)
  {
    hide FindAt, Begun, Nothing;
    var start: nat, end: nat, scratch: Bytes, inside: bool :|
      && Progress(crc, checksum, file, p, start, end, scratch, inside, quiet)
      && match FindAt(crc, checksum, file, end)
         case NoMore => true
         case Fragment(kind, _, _) => kind == EOF
         case GivenUp(_, _) => false;
    assert Progress(crc, checksum, file, p, start, end, scratch, inside, now);
  }

  lemma ReturnedLouder(crc: Checksum, checksum: bool, file: Bytes, p: nat, next: nat, record: Bytes, quiet: bool,
                       now: bool)
    requires Returned(crc, checksum, file, p, next, record, quiet) && (now ==> quiet)
    ensures Returned(crc, checksum, file, p, next, record, now)
  {
    hide WholeAt, Nothing;
  }

  /** Writing records and reading the log back returns them all. */
  method RoundTrip(crc: Checksum, rs: seq<Bytes>) returns (records: seq<Bytes>, reports: seq<Report>)
    ensures records == rs && reports == []
  {
    hide Encode, Whole;
    var contents := WriteAll(crc, rs);
    EverythingIsWhole(crc, 0, rs, |contents|);
    ghost var places;
    records, reports, places := ReadAll(crc, true, contents, rs);
  }
}
