/** The layout of a table file: block handles, trailers, the footer and the index (table/format.h,
    table/format.cc). Snappy is not part of this model. */
module TableFormat {
  import opened DbFormat
  import opened Coding
  import opened Comparator
  import opened Bloom
  import opened BlockFormat
  import opened LogFormat
  import opened FilterBlock

  // ---- Handles and footer ------------------------------------------------------------------------

  /** Offsets and sizes are 64-bit numbers in the file. */
  datatype BlockHandle = BlockHandle(offset: nat, size: nat) {
    predicate InRange() { offset < 0x1_0000_0000_0000_0000 && size < 0x1_0000_0000_0000_0000 }
  }

  function HandleBytes(h: BlockHandle): (r: Bytes)
    ensures r != []
  {
    Varint(h.offset % 0x1_0000_0000_0000_0000) + Varint(h.size % 0x1_0000_0000_0000_0000)
  }

  /** BlockHandle::DecodeFrom. */
  function DecodeHandle(input: Bytes): Parsed<BlockHandle> {
    match DecodeVarint64(input)
    case Bad => Bad
    case Parsed(offset, rest) =>
      match DecodeVarint64(rest)
      case Bad => Bad
      case Parsed(size, rest2) => Parsed(BlockHandle(offset, size), rest2)
  }

  lemma HandleRoundTrip(h: BlockHandle, rest: Bytes)
    requires h.InRange()
    ensures DecodeHandle(HandleBytes(h) + rest) == Parsed(h, rest)
  {
    hide Varint, DecodeVarint64;
    assert HandleBytes(h) + rest == Varint(h.offset) + (Varint(h.size) + rest);
    Varint64RoundTrip(h.offset, Varint(h.size) + rest);
    Varint64RoundTrip(h.size, rest);
  }

  /** A handle's bytes alone. */
  lemma HandleAlone(h: BlockHandle)
    requires h.InRange()
    ensures DecodeHandle(HandleBytes(h)) == Parsed(h, [])
  {
    hide HandleBytes, DecodeHandle;
    HandleRoundTrip(h, []);
    assert HandleBytes(h) + [] == HandleBytes(h);
  }

  method EncodeHandle(h: BlockHandle) returns (r: Bytes)
    ensures r == HandleBytes(h)
  {
    var offset := EncodeVarint64(h.offset % 0x1_0000_0000_0000_0000);
    var size := EncodeVarint64(h.size % 0x1_0000_0000_0000_0000);
    r := offset + size;
  }

  method DecodeHandleFrom(input: Bytes) returns (r: Parsed<BlockHandle>)
    ensures r == DecodeHandle(input)
  {
    hide DecodeVarint64;
    var offset := GetVarint64(input);
    if offset.Bad? {
      return Bad;
    }
    var size := GetVarint64(offset.rest);
    if size.Bad? {
      return Bad;
    }
    r := Parsed(BlockHandle(offset.value, size.value), size.rest);
  }

  const FOOTER_SIZE := 48
  const MAGIC_LOW: U32 := 0x8b80_fb57
  const MAGIC_HIGH: U32 := 0xdb47_7524

  lemma {:induction false} VarintLength(v: nat, n: nat)
    requires n > 0 && v < Power128(n)
    ensures |Varint(v)| <= n
  {
    if v >= 128 {
      assert Power128(n) == 128 * Power128(n - 1) && Power128(0) == 1;
      VarintLength(v / 128, n - 1);
    }
  }

  lemma HandleLength(h: BlockHandle)
    ensures |HandleBytes(h)| <= 20
  {
    hide Varint, Power128;
    Powers();
    VarintLength(h.offset % 0x1_0000_0000_0000_0000, 10);
    VarintLength(h.size % 0x1_0000_0000_0000_0000, 10);
  }

  /** Two handles, padding up to 40 bytes, and the magic number. */
  function FooterBytes(meta: BlockHandle, index: BlockHandle): (r: Bytes)
    ensures |r| == FOOTER_SIZE
  {
    HandleLength(meta);
    HandleLength(index);
    var handles := HandleBytes(meta) + HandleBytes(index);
    handles + seq(40 - |handles|, _ => 0) + (Fixed32(MAGIC_LOW) + Fixed32(MAGIC_HIGH))
  }

  /** Footer::DecodeFrom. */
  method DecodeFooter(input: Bytes, ghost meta: BlockHandle, ghost index: BlockHandle)
    returns (ok: bool, metaHandle: BlockHandle, indexHandle: BlockHandle)
    requires |input| == FOOTER_SIZE
    ensures input == FooterBytes(meta, index) && meta.InRange() && index.InRange() ==>
              ok && metaHandle == meta && indexHandle == index
    ensures ok <==>
              && DecodeFixed32(input[40..]) == MAGIC_LOW && DecodeFixed32(input[44..]) == MAGIC_HIGH
              && DecodeHandle(input).Parsed? && DecodeHandle(DecodeHandle(input).rest).Parsed?
    ensures ok ==> metaHandle == DecodeHandle(input).value
    ensures ok ==> indexHandle == DecodeHandle(DecodeHandle(input).rest).value
  {
    hide Fixed32, DecodeFixed32, HandleBytes, DecodeHandle;
    metaHandle, indexHandle := BlockHandle(0, 0), BlockHandle(0, 0);
    if input == FooterBytes(meta, index) && meta.InRange() && index.InRange() {
      FooterParts(meta, index);
    }
    var low := DecodeFixed32(input[40..]);
    var high := DecodeFixed32(input[44..]);
    if low != MAGIC_LOW || high != MAGIC_HIGH {
      return false, metaHandle, indexHandle;
    }
    var first := DecodeHandleFrom(input);
    if first.Bad? {
      return false, metaHandle, indexHandle;
    }
    var second := DecodeHandleFrom(first.rest);
    if second.Bad? {
      return false, metaHandle, indexHandle;
    }
    ok, metaHandle, indexHandle := true, first.value, second.value;
  }

  lemma FooterParts(meta: BlockHandle, index: BlockHandle)
    requires meta.InRange() && index.InRange()
    ensures DecodeFixed32(FooterBytes(meta, index)[40..]) == MAGIC_LOW
    ensures DecodeFixed32(FooterBytes(meta, index)[44..]) == MAGIC_HIGH
    ensures DecodeHandle(FooterBytes(meta, index)).Parsed? && DecodeHandle(FooterBytes(meta, index)).value == meta
    ensures var rest := DecodeHandle(FooterBytes(meta, index)).rest;
            DecodeHandle(rest).Parsed? && DecodeHandle(rest).value == index
  {
    hide Fixed32, DecodeFixed32, HandleBytes, DecodeHandle;
    HandleLength(meta);
    HandleLength(index);
    var b := FooterBytes(meta, index);
    var padding: Bytes := seq(40 - |HandleBytes(meta)| - |HandleBytes(index)|, _ => 0);
    var magic := Fixed32(MAGIC_LOW) + Fixed32(MAGIC_HIGH);
    assert b[40..] == Fixed32(MAGIC_LOW) + Fixed32(MAGIC_HIGH);
    assert b[44..] == Fixed32(MAGIC_HIGH) + [];
    DecodeInvertsFixed32(MAGIC_LOW, Fixed32(MAGIC_HIGH));
    DecodeInvertsFixed32(MAGIC_HIGH, []);
    assert b == HandleBytes(meta) + (HandleBytes(index) + (padding + magic));
    HandleRoundTrip(meta, HandleBytes(index) + (padding + magic));
    HandleRoundTrip(index, padding + magic);
  }

  // ---- Stored blocks -----------------------------------------------------------------------------

  const BLOCK_TRAILER_SIZE := 5
  const NO_COMPRESSION: Byte := 0

  /** The contents, their type and their masked checksum. */
  function StoredBytes(crc: Checksum, contents: Bytes): (r: Bytes)
    ensures |r| == |contents| + BLOCK_TRAILER_SIZE
  {
    contents + ([NO_COMPRESSION] + Fixed32(Mask(crc(contents + [NO_COMPRESSION]))))
  }

  /** The file has the contents where the handle says. */
  ghost predicate StoredAt(crc: Checksum, file: Bytes, h: BlockHandle, contents: Bytes) {
    && h.size == |contents| && h.offset + h.size + BLOCK_TRAILER_SIZE <= |file|
    && file[h.offset..h.offset + h.size + BLOCK_TRAILER_SIZE] == StoredBytes(crc, contents)
  }

  lemma StoredInRange(crc: Checksum, file: Bytes, h: BlockHandle, contents: Bytes)
    requires StoredAt(crc, file, h, contents) && |file| < 0x1_0000_0000_0000_0000
    ensures h.InRange()
  {
  }

  lemma StaysStored(crc: Checksum, file: Bytes, more: Bytes, h: BlockHandle, contents: Bytes)
    requires StoredAt(crc, file, h, contents)
    ensures StoredAt(crc, file + more, h, contents)
  {
    hide StoredBytes;
    assert (file + more)[h.offset..h.offset + h.size + BLOCK_TRAILER_SIZE] ==
      file[h.offset..h.offset + h.size + BLOCK_TRAILER_SIZE];
  }

  /** A block that may be read: it is inside the file, not compressed, and, if that is to be verified, its checksum is
      right. */
  predicate Readable(crc: Checksum, file: Bytes, verifyChecksums: bool, h: BlockHandle) {
    && h.offset + h.size + BLOCK_TRAILER_SIZE <= |file| && file[h.offset + h.size] == NO_COMPRESSION
    && (verifyChecksums ==>
          Unmask(DecodeFixed32(file[h.offset + h.size + 1..])) == crc(file[h.offset..h.offset + h.size + 1]))
  }

  /** ReadBlock; a file gives what there is when it is read beyond its end. */
  method ReadBlock(crc: Checksum, file: Bytes, verifyChecksums: bool, h: BlockHandle, ghost contents: Bytes)
    returns (ok: bool, r: Bytes)
    ensures StoredAt(crc, file, h, contents) ==> ok && r == contents
    ensures ok <==> Readable(crc, file, verifyChecksums, h)
    ensures ok ==> r == file[h.offset..h.offset + h.size]
  {
    hide Fixed32, DecodeFixed32, Mask, Unmask;
    var n := h.size;
    var begin := if h.offset <= |file| then h.offset else |file|;
    var end := if begin + n + BLOCK_TRAILER_SIZE <= |file| then begin + n + BLOCK_TRAILER_SIZE else |file|;
    var data := file[begin..end];
    if |data| != n + BLOCK_TRAILER_SIZE {
      return false, [];
    }
    if StoredAt(crc, file, h, contents) {
      TrailerParts(crc, contents);
    }
    if verifyChecksums {
      var expected := Unmask(DecodeFixed32(data[n + 1..]));
      var actual := crc(data[..n + 1]);
      assert data[..n + 1] == file[begin..begin + n + 1];
      SameFixed32(data[n + 1..], file[begin + n + 1..]);
      if actual != expected {
        return false, [];
      }
    }
    if data[n] != NO_COMPRESSION {
      return false, [];
    }
    ok, r := true, data[..n];
  }

  lemma SameFixed32(a: Bytes, b: Bytes)
    requires |a| == 4 && 4 <= |b| && a == b[..4]
    ensures DecodeFixed32(a) == DecodeFixed32(b)
  {
  }

  lemma TrailerParts(crc: Checksum, contents: Bytes)
    ensures var data, n := StoredBytes(crc, contents), |contents|;
            && data[..n] == contents && data[n] == NO_COMPRESSION && data[..n + 1] == contents + [NO_COMPRESSION]
            && Unmask(DecodeFixed32(data[n + 1..])) == crc(contents + [NO_COMPRESSION])
  {
    hide Fixed32, DecodeFixed32, Mask, Unmask;
    var data, n := StoredBytes(crc, contents), |contents|;
    var sum := Mask(crc(contents + [NO_COMPRESSION]));
    assert data[n + 1..] == Fixed32(sum) + [];
    DecodeInvertsFixed32(sum, []);
    UnmaskInvertsMask(crc(contents + [NO_COMPRESSION]));
  }
}
