/** Every format in known bytes: what the numbers that the formats fix (tags, types, sizes, the magic number) look like
    on disk and on the wire (db/write_batch.cc, db/dbformat.h, db/log_format.h, db/version_edit.cc, table/format.h;
    sections "Message Structure" and "Packed Repeated Fields" of the Protocol Buffers "Encoding" specification). */
module KnownBytes {
  import DbFormat
  import opened Coding
  import LogFormat
  import WriteBatchFormat
  import VersionEditFormat
  import BlockFormat
  import FilterBlock
  import TableFormat
  import PbFormat

  const ZEROS4: Bytes := [0, 0, 0, 0]
  const ZEROS7: Bytes := [0, 0, 0, 0, 0, 0, 0]

  lemma FixedNumbers()
    ensures Fixed32(0x0403_0201) == [1, 2, 3, 4] && Fixed32(0x0807_0605) == [5, 6, 7, 8]
  {
  }

  lemma WideNumbers()
    ensures Fixed64(0x0807_0605_0403_0201) == [1, 2, 3, 4, 5, 6, 7, 8]
  {
    hide Fixed32;
    FixedNumbers();
  }

  lemma OneByte(n: Byte)
    requires n < 128
    ensures Varint(n) == [n] && Prefixed([n]) == [1, n]
  {
  }

  lemma OneByteString(k: Byte)
    ensures Prefixed([k]) == [1, k]
  {
  }

  lemma VariableNumbers()
    ensures Varint(300) == [0xac, 2] && Prefixed([97]) == [1, 97]
  {
    assert Varint(300) == [0xac] + Varint(2);
  }

  /** The low byte of a packed key is 1 for a value and 0 for a deletion; the sequence number is above it. */
  lemma PackedKeys(k: DbFormat.UserKey)
    ensures Fixed64(DbFormat.InternalKey(k, 0x203, DbFormat.TypeValue).Packed()) == [1, 3, 2, 0, 0, 0, 0, 0]
    ensures Fixed64(DbFormat.InternalKey(k, 0x203, DbFormat.TypeDeletion).Packed()) == [0, 3, 2, 0, 0, 0, 0, 0]
  {
  }

  /** In a batch, 1 marks a Put and 0 a Delete, as in a packed key. */
  lemma BatchOperations(key: Bytes, value: Bytes)
    ensures WriteBatchFormat.OpBytes(WriteBatchFormat.Put(key, value)) == [1] + Prefixed(key) + Prefixed(value)
    ensures WriteBatchFormat.OpBytes(WriteBatchFormat.Delete(key)) == [0] + Prefixed(key)
    ensures WriteBatchFormat.OpBytes(WriteBatchFormat.Put(key, value))[0] == DbFormat.ValueType.TypeValue.Tag()
    ensures WriteBatchFormat.OpBytes(WriteBatchFormat.Delete(key))[0] == DbFormat.ValueType.TypeDeletion.Tag()
  {
    hide Prefixed;
  }

  /** A whole batch: sequence number, count, operations. */
  lemma ABatch(k: Byte, v: Byte, d: Byte)
    ensures WriteBatchFormat.Rep(100, [WriteBatchFormat.Put([k], [v]), WriteBatchFormat.Delete([d])]) ==
              [100] + ZEROS7 + [2, 0, 0, 0] + [1, 1, k, 1, v] + [0, 1, d]
  {
    var ops := [WriteBatchFormat.Put([k], [v]), WriteBatchFormat.Delete([d])];
    assert Fixed64(100) == [100] + ZEROS7 && Fixed32(2) == [2, 0, 0, 0];
    assert ops[1..] == [WriteBatchFormat.Delete([d])] && ops[1..][1..] == [];
    assert Prefixed([k]) == [1, k] && Prefixed([v]) == [1, v] && Prefixed([d]) == [1, d];
    assert WriteBatchFormat.OpsBytes(ops[1..]) == [0, 1, d];
  }

  lemma MaskedChecksums()
    ensures LogFormat.Mask(0) == 0xa282_ead8 && LogFormat.Mask(1) == 0xa284_ead8
    ensures LogFormat.Mask(0x8000) == 0xa282_ead9
  {
  }

  /** Masked checksum of type and payload, length in two bytes, type, payload. */
  function Fragment(crc: LogFormat.Checksum, t: Byte, data: Bytes): Bytes
    requires |data| <= 32761
  {
    Fixed32(LogFormat.Mask(crc([t] + data))) + [|data| % 256, |data| / 256, t] + data
  }

  /** A record that fits its block is one fragment of type 1. */
  lemma AFullRecord(crc: LogFormat.Checksum, data: Bytes)
    requires |data| <= 32761
    ensures LogFormat.Encode(crc, 0, [data]) == Fragment(crc, 1, data)
  {
    hide Fixed32, LogFormat.Mask;
    assert [data][1..] == [] && data[..|data|] == data;
    assert LogFormat.Start(0) == 0;
    assert [] + LogFormat.Header(crc, 1, data) + data == LogFormat.Header(crc, 1, data) + data;
    LogFormat.RecordStep(crc, 0, data, true);
  }

  /** A record of three fragments: types 2, 3 and 4, in blocks of 32768 bytes with headers of seven. */
  lemma ALongRecord(crc: LogFormat.Checksum, a: Bytes, b: Bytes, c: Bytes)
    requires |a| == 32761 == |b| && |c| == 1
    ensures LogFormat.RecordBytes(crc, 0, a + b + c, true) ==
              Fragment(crc, 2, a) + (Fragment(crc, 3, b) + Fragment(crc, 4, c))
  {
    hide Fragment, LogFormat.RecordBytes, LogFormat.Physical;
    assert a + b + c == a + (b + c) && c + [] == c;
    AFullFragment(crc, 0, a, b + c, true);
    AFullFragment(crc, 32768, b, c, false);
    ALastFragment(crc, 65536, c);
    AFragment(crc, 0, 2, a);
    AFragment(crc, 32768, 3, b);
    AFragment(crc, 65536, 4, c);
  }

  lemma AFullFragment(crc: LogFormat.Checksum, p: nat, data: Bytes, more: Bytes, begin: bool)
    requires p % 32768 == 0 && |data| == 32761 && more != []
    ensures LogFormat.RecordBytes(crc, p, data + more, begin) ==
              LogFormat.Physical(crc, p, if begin then 2 else 3, data)
              + LogFormat.RecordBytes(crc, p + 32768, more, false)
  {
    hide LogFormat.RecordBytes, LogFormat.Physical;
    LogFormat.RecordStep(crc, p, data + more, begin);
    assert (data + more)[..32761] == data && (data + more)[32761..] == more;
  }

  lemma ALastFragment(crc: LogFormat.Checksum, p: nat, data: Bytes)
    requires p % 32768 == 0 && |data| <= 32761
    ensures LogFormat.RecordBytes(crc, p, data, false) == LogFormat.Physical(crc, p, 4, data)
  {
    hide LogFormat.RecordBytes, LogFormat.Physical;
    LogFormat.RecordStep(crc, p, data, false);
    assert data[..|data|] == data;
  }

  lemma AFragment(crc: LogFormat.Checksum, p: nat, t: Byte, data: Bytes)
    requires p % 32768 == 0 && |data| <= 32761
    ensures LogFormat.Physical(crc, p, t, data) == Fragment(crc, t, data)
  {
    hide Fixed32, LogFormat.Mask;
    assert LogFormat.Zeros(0) == [];
  }

  /** Where fewer than seven bytes are left of a block, zeros fill it. */
  lemma ATrailer(crc: LogFormat.Checksum, data: Bytes)
    requires |data| <= 32761
    ensures LogFormat.Physical(crc, 32762, 1, data) == [0, 0, 0, 0, 0, 0] + LogFormat.Physical(crc, 32768, 1, data)
    ensures LogFormat.Physical(crc, 32761, 1, []) == LogFormat.Header(crc, 1, [])
  {
    hide LogFormat.Header;
    assert LogFormat.Zeros(6) == [0, 0, 0, 0, 0, 0] && LogFormat.Zeros(0) == [];
  }

  /** Each field of a version edit has its tag. */
  lemma EditItems(n: Byte, k: Byte)
    requires n < 128
    ensures VersionEditFormat.ItemBytes(VersionEditFormat.Comparator([k])) == [1, 1, k]
    ensures VersionEditFormat.ItemBytes(VersionEditFormat.LogNumber(n)) == [2, n]
    ensures VersionEditFormat.ItemBytes(VersionEditFormat.NextFile(n)) == [3, n]
    ensures VersionEditFormat.ItemBytes(VersionEditFormat.LastSequence(n)) == [4, n]
    ensures VersionEditFormat.ItemBytes(VersionEditFormat.PrevLogNumber(n)) == [9, n]
  {
    hide Varint, Prefixed;
    OneByteString(k);
    OneByte(n);
    OneByte(1);
    OneByte(2);
    OneByte(3);
    OneByte(4);
    OneByte(9);
  }

  /** Those of levels and files. */
  lemma EditFiles(n: Byte, l: Byte, k: Byte)
    requires n < 128 && l < 128
    ensures VersionEditFormat.ItemBytes(VersionEditFormat.CompactPointer(l, [k])) == [5, l, 1, k]
    ensures VersionEditFormat.ItemBytes(VersionEditFormat.DeletedFile(l, n)) == [6, l, n]
    ensures VersionEditFormat.ItemBytes(VersionEditFormat.NewFile(l, VersionEditFormat.FileRecord(n, 5, [k], [k]))) ==
              [7, l, n, 5, 1, k, 1, k]
  {
    hide Varint, Prefixed;
    OneByteString(k);
    OneByte(n);
    OneByte(5);
    OneByte(6);
    OneByte(7);
    OneByte(l);
  }

  /** Their order in a record. */
  lemma EditOrder(n: U64, p: (U32, Bytes), d: (U32, U64), f: (U32, VersionEditFormat.FileRecord), name: Bytes)
    ensures VersionEditFormat.Items(
              VersionEditFormat.Edit(DbFormat.Some(name), DbFormat.Some(n), DbFormat.Some(n), DbFormat.Some(n),
                                     DbFormat.Some(n), [p], [d], [f])) ==
              [VersionEditFormat.Comparator(name), VersionEditFormat.LogNumber(n), VersionEditFormat.PrevLogNumber(n),
               VersionEditFormat.NextFile(n), VersionEditFormat.LastSequence(n),
               VersionEditFormat.CompactPointer(p.0, p.1), VersionEditFormat.DeletedFile(d.0, d.1),
               VersionEditFormat.NewFile(f.0, f.1)]
  {
    var e := VersionEditFormat.Edit(DbFormat.Some(name), DbFormat.Some(n), DbFormat.Some(n), DbFormat.Some(n),
                                    DbFormat.Some(n), [p], [d], [f]);
    assert VersionEditFormat.FirstFields(e, 1) == [VersionEditFormat.Comparator(name)];
    assert VersionEditFormat.FirstFields(e, 2) == [VersionEditFormat.Comparator(name), VersionEditFormat.LogNumber(n)];
    assert VersionEditFormat.FirstFields(e, 4) ==
      [VersionEditFormat.Comparator(name), VersionEditFormat.LogNumber(n), VersionEditFormat.PrevLogNumber(n),
       VersionEditFormat.NextFile(n)];
  }

  /** Handles padded to 40 bytes and the magic number 0xdb4775248b80fb57. */
  lemma AFooter()
    ensures TableFormat.FooterBytes(TableFormat.BlockHandle(1, 2), TableFormat.BlockHandle(3, 4)) ==
              [1, 2, 3, 4] + seq(36, _ => 0) + [0x57, 0xfb, 0x80, 0x8b, 0x24, 0x75, 0x47, 0xdb]
  {
    hide TableFormat.HandleBytes, Fixed32;
    SmallHandle(1, 2);
    SmallHandle(3, 4);
    Magic();
    var meta, index := TableFormat.BlockHandle(1, 2), TableFormat.BlockHandle(3, 4);
    assert TableFormat.HandleBytes(meta) + TableFormat.HandleBytes(index) == [1, 2, 3, 4];
  }

  lemma SmallHandle(offset: nat, size: nat)
    requires offset < 128 && size < 128
    ensures TableFormat.HandleBytes(TableFormat.BlockHandle(offset, size)) == [offset, size]
  {
  }

  lemma Magic()
    ensures Fixed32(TableFormat.MAGIC_LOW) + Fixed32(TableFormat.MAGIC_HIGH) ==
              [0x57, 0xfb, 0x80, 0x8b, 0x24, 0x75, 0x47, 0xdb]
  {
  }

  /** Type 0 and the masked checksum follow a block. */
  lemma AStoredBlock(crc: LogFormat.Checksum, contents: Bytes)
    ensures TableFormat.StoredBytes(crc, contents) ==
              contents + [0] + Fixed32(LogFormat.Mask(crc(contents + [0])))
  {
  }

  /** One entry, one restart point. */
  lemma ABlock(k: Byte, v: Byte, contents: Bytes)
    requires BlockFormat.IsBlock(contents, [BlockFormat.Item(0, [k], [v])], [0])
    ensures contents == [0, 1, 1, k, v] + ZEROS4 + [1, 0, 0, 0]
  {
    var items, points := [BlockFormat.Item(0, [k], [v])], [0];
    assert items[..0] == [] && items[..1] == items && points[..0] == [];
    assert BlockFormat.Data(items) == [0, 1, 1, k, v];
    assert BlockFormat.Offsets(items, points) == [0];
    assert BlockFormat.Fixed32s([0]) == ZEROS4;
  }

  /** A filter block without filters; 11 is the logarithm of the 2 KiB that a filter covers. */
  lemma AFilterBlock(contents: Bytes)
    requires FilterBlock.IsFilterBlock(contents, [], [])
    ensures contents == ZEROS4 + [11] && FilterBlock.FILTER_BASE == 2048
  {
  }

  /** Wire types in the low three bits of a tag. */
  lemma WireTypes()
    ensures PbFormat.ItemBytes(Types(), PbFormat.Single(0, PbFormat.Num(150))) == [0x08, 0x96, 0x01]
    ensures PbFormat.ItemBytes(Types(), PbFormat.Single(1, PbFormat.Blob([0x74, 0x65]))) == [0x12, 0x02, 0x74, 0x65]
    ensures PbFormat.ItemBytes(Types(), PbFormat.Single(2, PbFormat.Num(1))) == [0x1d, 1, 0, 0, 0]
    ensures PbFormat.ItemBytes(Types(), PbFormat.Single(3, PbFormat.Num(1))) == [0x21, 1] + ZEROS7
    ensures PbFormat.ItemBytes(Types(), PbFormat.Single(4, PbFormat.Num(-2))) == [0x28, 3]
  {
    assert Varint(150) == [0x96] + Varint(1);
    assert Fixed64(1) == [1] + ZEROS7;
  }

  function Types(): PbFormat.LType {
    PbFormat.PbMessage([PbFormat.Field(1, PbFormat.PbUint(PbFormat.W32), PbFormat.Optional),
                        PbFormat.Field(2, PbFormat.PbText(8), PbFormat.Optional),
                        PbFormat.Field(3, PbFormat.PbFixed32, PbFormat.Optional),
                        PbFormat.Field(4, PbFormat.PbFixed64, PbFormat.Optional),
                        PbFormat.Field(5, PbFormat.PbSint(PbFormat.W32), PbFormat.Optional)])
  }

  /** Zero is not encoded where there is no has_ flag, and any other number is. */
  lemma ANumberWithoutFlag(n: nat)
    requires n < 128
    ensures var t, v := PbFormat.PbMessage([Flagless()]), PbFormat.Message([PbFormat.Present(PbFormat.Num(n))]);
            PbFormat.MessageBytes(t, v) == if n == 0 then [] else [8, n]
  {
    var t, v := PbFormat.PbMessage([Flagless()]), PbFormat.Message([PbFormat.Present(PbFormat.Num(n))]);
    assert PbFormat.Items(t, v, 0) == [];
    assert PbFormat.Items(t, v, 1) == if n == 0 then [] else [PbFormat.Single(0, PbFormat.Num(n))];
  }

  function Flagless(): PbFormat.Field { PbFormat.Field(1, PbFormat.PbUint(PbFormat.W32), PbFormat.Singular) }

  /** A packed array of 3, 270 and 86942 under tag 6. */
  lemma APackedArray()
    ensures PbFormat.ItemBytes(Arrays(), PbFormat.Packed(0, [PbFormat.Num(3), PbFormat.Num(270),
                                                             PbFormat.Num(86942)])) ==
              [0x32, 0x06, 0x03, 0x8e, 0x02, 0x9e, 0xa7, 0x05]
  {
    var vs := [PbFormat.Num(3), PbFormat.Num(270), PbFormat.Num(86942)];
    assert Varint(270) == [0x8e] + Varint(2);
    assert Varint(86942) == [0x9e] + Varint(679) && Varint(679) == [0xa7] + Varint(5);
    assert vs[1..] == [vs[1], vs[2]] && vs[1..][1..] == [vs[2]] && vs[1..][1..][1..] == [];
    assert PbFormat.ValsBytes(PbFormat.PbUint(PbFormat.W32), vs) == [3, 0x8e, 2, 0x9e, 0xa7, 5];
  }

  /** A negative int32 takes ten bytes. */
  lemma ANegativeNumber()
    ensures PbFormat.ItemBytes(Arrays(), PbFormat.Single(1, PbFormat.Num(-1))) ==
              [0x38, 0xff, 0xff, 0xff, 0xff, 0xff, 0xff, 0xff, 0xff, 0xff, 0x01]
  {
    AllOnes();
  }

  lemma AllOnes()
    ensures Varint(0xffff_ffff_ffff_ffff) == [0xff, 0xff, 0xff, 0xff, 0xff, 0xff, 0xff, 0xff, 0xff, 0x01]
  {
    assert Varint(0x7fff) == [0xff] + Varint(0xff) && Varint(0xff) == [0xff, 0x01];
    assert Varint(0x1fff_ffff) == [0xff] + Varint(0x3f_ffff) && Varint(0x3f_ffff) == [0xff] + Varint(0x7fff);
    assert Varint(0x7ff_ffff_ffff) == [0xff] + Varint(0xf_ffff_ffff);
    assert Varint(0xf_ffff_ffff) == [0xff] + Varint(0x1fff_ffff);
    assert Varint(0x3_ffff_ffff_ffff) == [0xff] + Varint(0x7ff_ffff_ffff);
  }

  function Arrays(): PbFormat.LType {
    PbFormat.PbMessage([PbFormat.Field(6, PbFormat.PbUint(PbFormat.W32), PbFormat.Repeated(4)),
                        PbFormat.Field(7, PbFormat.PbInt(PbFormat.W32), PbFormat.Optional)])
  }
}
