/** The formats byte by byte: samples in which every constant, tag, width and order shows. */
module Formats {
  import opened Coding
  import opened Common
  import LogFormat
  import WriteBatches
  import LogReplay
  import VersionEdits
  import Blocks
  import TableFormat
  import FilterBlocks
  import Bloom
  import Separators
  import PbWire
  import PbParse

  // ----- Numbers -----

  lemma {:induction false} NumberBytes()
    ensures Varint(300) == [0xac, 0x02] && Varint(127) == [0x7f] && Varint(16384) == [0x80, 0x80, 0x01]
    ensures Fixed32(0x01020304) == [4, 3, 2, 1]
    ensures Fixed64(0x0102030405060708) == [8, 7, 6, 5, 4, 3, 2, 1]
  {
    assert Varint(300) == [0xac] + Varint(2) && Varint(16384) == [0x80] + Varint(128) && Varint(128) == [0x80] + Varint(1);
  }

  /** A varint for 32 bits has at most five bytes, and higher bits are dropped; for 64 bits it has ten. */
  lemma {:induction false} VarintLimits()
    ensures GetVarint32([0x80, 0x80, 0x80, 0x80, 0x01], 0) == Some((0x1000_0000, 5))
    ensures GetVarint32([0xff, 0xff, 0xff, 0xff, 0x7f], 0) == Some((0xffff_ffff, 5))
    ensures GetVarint32([0x80, 0x80, 0x80, 0x80, 0x80, 0x00], 0) == None
    ensures GetVarint64([0x80, 0x80, 0x80, 0x80, 0x80, 0x80, 0x80, 0x80, 0x80, 0x00], 0).Some?
    ensures GetVarint64([0x80, 0x80, 0x80, 0x80, 0x80, 0x80, 0x80, 0x80, 0x80, 0x80, 0x00], 0) == None
  {
    TenBytes([0x80, 0x80, 0x80, 0x80, 0x80, 0x80, 0x80, 0x80, 0x80, 0x00], 0, 10);
    TooLong([0x80, 0x80, 0x80, 0x80, 0x80, 0x80, 0x80, 0x80, 0x80, 0x80, 0x00], 0, 10);
    TooLong([0x80, 0x80, 0x80, 0x80, 0x80, 0x00], 0, 5);
  }

  lemma {:induction false} TenBytes(b: Bytes, pos: nat, n: nat)
    requires pos + n == |b| && n > 0 && b[|b| - 1] == 0
    ensures DecodeVarint(b, pos, n).Some?
    decreases n
  {
    if n > 1 {
      TenBytes(b, pos + 1, n - 1);
    }
  }

  lemma {:induction false} TooLong(b: Bytes, pos: nat, n: nat)
    requires pos + n <= |b| && forall i :: pos <= i < pos + n ==> b[i] >= 128
    ensures DecodeVarint(b, pos, n) == None
    decreases n
  {
    if n > 0 {
      TooLong(b, pos + 1, n - 1);
    }
  }

  // ----- The write-ahead log -----

  /** The checksum rotated right by 15, and 0xa282ead8 added. */
  lemma {:induction false} MaskBytes()
    ensures Fixed32(LogFormat.Mask(0x12345678)) == [0x40, 0x0f, 0x73, 0x4f]
  {
    assert LogFormat.Mask(0x12345678) == 0x4f730f40;
  }

  /** A record of one byte at the start of a block: the masked checksum of type and payload, the length, type 1, and the byte. */
  lemma {:induction false} LogRecord(crc: LogFormat.Checksum)
    requires crc([1, 0x61]) == 0x12345678
    ensures LogFormat.Physical(crc, LogFormat.Fragment(1, [0x61])) == [0x40, 0x0f, 0x73, 0x4f, 1, 0, 1, 0x61]
  {
    hide LogFormat.Mask, Fixed32;
    assert [1 as Byte] + [0x61] == [1, 0x61];
    MaskBytes();
  }

  /** Six bytes are left in the block: they are zero, and the record starts in the next one. */
  lemma {:induction false} SixBytesLeft(crc: LogFormat.Checksum, data: Bytes)
    requires |data| <= 32761
    ensures LogFormat.Written(crc, 32762, data) == [0, 0, 0, 0, 0, 0] + LogFormat.Physical(crc, LogFormat.Fragment(1, data))
  {
    hide LogFormat.Physical;
    var f := LogFormat.Fragment(LogFormat.FULL, data);
    assert LogFormat.Split(32762, data, true) == [f] by {
      assert data[..|data|] == data;
    }
    assert LogFormat.Layout(crc, LogFormat.EndOf(32762, f), []) == [];
    assert LogFormat.Zeros(6) == [0, 0, 0, 0, 0, 0];
    LogFormat.SplitFits(32762, data, true);
    OneFragment(crc, 32762, f);
  }

  lemma {:induction false} OneFragment(crc: LogFormat.Checksum, pos: nat, f: LogFormat.Fragment)
    requires LogFormat.Fits(pos, [f])
    ensures LogFormat.Layout(crc, pos, [f]) == LogFormat.Zeros(LogFormat.Trailer(pos)) + LogFormat.Physical(crc, f)
  {
    hide LogFormat.Physical;
    assert [f][1..] == [];
    assert LogFormat.Layout(crc, LogFormat.EndOf(pos, f), []) == [];
  }

  /** Seven bytes are left in the block: an empty first fragment fills them, and the last one is in the next block. */
  lemma {:induction false} SevenBytesLeft(crc: LogFormat.Checksum, data: Bytes)
    requires 0 < |data| <= 32761
    ensures LogFormat.Written(crc, 32761, data) ==
            LogFormat.Physical(crc, LogFormat.Fragment(2, [])) + LogFormat.Physical(crc, LogFormat.Fragment(4, data))
  {
    hide LogFormat.Physical;
    var first, last := LogFormat.Fragment(LogFormat.FIRST, []), LogFormat.Fragment(LogFormat.LAST, data);
    LogFormat.SplitFits(32761, data, true);
    assert data[..0] == [] && data[0..] == data && data[..|data|] == data;
    assert LogFormat.EndOf(32761, first) == 32768;
    assert LogFormat.Split(32768, data, false) == [last];
    assert LogFormat.Split(32761, data, true) == [first] + [last];
    assert ([first] + [last])[1..] == [last];
    OneFragment(crc, 32768, last);
    assert LogFormat.Zeros(0) == [];
  }

  // ----- Write batches -----

  lemma {:induction false} OpBytes()
    ensures WriteBatches.EncodeOp(WriteBatches.Put([0x6b], [0x76, 0x77])) == [1, 1, 0x6b, 2, 0x76, 0x77]
    ensures WriteBatches.EncodeOp(WriteBatches.Delete([0x6c])) == [0, 1, 0x6c]
  {
  }

  lemma {:induction false} TwoOps(a: WriteBatches.Op, b: WriteBatches.Op)
    ensures WriteBatches.EncodeOps([a, b]) == WriteBatches.EncodeOp(a) + WriteBatches.EncodeOp(b)
  {
    hide WriteBatches.EncodeOp;
    assert [a, b][1..] == [b] && [b][1..] == [];
    assert WriteBatches.EncodeOps([b]) == WriteBatches.EncodeOp(b) + WriteBatches.EncodeOps([]);
  }

  /** Sequence number, count, and the operations: type 1 for a put, 0 for a deletion. */
  lemma {:induction false} BatchBytes()
    ensures WriteBatches.BatchOf(0x0102, [WriteBatches.Put([0x6b], [0x76, 0x77]), WriteBatches.Delete([0x6c])]) ==
            [2, 1, 0, 0, 0, 0, 0, 0, 2, 0, 0, 0, 1, 1, 0x6b, 2, 0x76, 0x77, 0, 1, 0x6c]
  {
    hide WriteBatches.EncodeOp, WriteBatches.EncodeOps;
    OpBytes();
    TwoOps(WriteBatches.Put([0x6b], [0x76, 0x77]), WriteBatches.Delete([0x6c]));
    assert Fixed32(0) == [0, 0, 0, 0] && Fixed32(0x0102) == [2, 1, 0, 0] && Fixed32(2) == [2, 0, 0, 0];
  }

  /** The count of a batch is a signed number of 32 bits, and the sum has 64. */
  lemma {:induction false} LastSequences()
    ensures LogReplay.LastOf([5, 0, 0, 0, 0, 0, 0, 0, 3, 0, 0, 0]) == 7
    ensures LogReplay.LastOf([5, 0, 0, 0, 0, 0, 0, 0, 0xff, 0xff, 0xff, 0xff]) == 3
    ensures LogReplay.LastOf([0, 0, 0, 0, 0, 0, 0, 0, 0, 0, 0, 0]) == 0xffff_ffff_ffff_ffff
  {
    FrontOf([5, 0, 0, 0, 0, 0, 0, 0, 3, 0, 0, 0]);
    FrontOf([5, 0, 0, 0, 0, 0, 0, 0, 0xff, 0xff, 0xff, 0xff]);
    FrontOf([0, 0, 0, 0, 0, 0, 0, 0, 0, 0, 0, 0]);
  }

  lemma {:induction false} FrontOf(b: Bytes)
    requires |b| == 12
    ensures b[..8][..4] == [b[0], b[1], b[2], b[3]] && b[..8][4..] == [b[4], b[5], b[6], b[7]]
    ensures b[8..12] == [b[8], b[9], b[10], b[11]]
  {
  }

  // ----- Version edits -----

  lemma {:induction false} FieldBytes()
    ensures VersionEdits.EncodeField(VersionEdits.Comparator([0x63])) == [1, 1, 0x63]
    ensures VersionEdits.EncodeField(VersionEdits.LogNumber(300)) == [2, 0xac, 0x02]
    ensures VersionEdits.EncodeField(VersionEdits.NextFile(8)) == [3, 8]
    ensures VersionEdits.EncodeField(VersionEdits.LastSequence(9)) == [4, 9]
    ensures VersionEdits.EncodeField(VersionEdits.CompactPointer(2, [0x6b])) == [5, 2, 1, 0x6b]
    ensures VersionEdits.EncodeField(VersionEdits.DeletedFile(3, 17)) == [6, 3, 17]
    ensures VersionEdits.EncodeField(VersionEdits.NewFile(1, VersionEdits.Meta(18, 100, [0x61], [0x62]))) ==
            [7, 1, 18, 100, 1, 0x61, 1, 0x62]
    ensures VersionEdits.EncodeField(VersionEdits.PrevLogNumber(0)) == [9, 0]
  {
    NumberBytes();
  }

  lemma {:induction false} EditOrder(name: Bytes, level: nat, key: Bytes, meta: VersionEdits.Meta)
    ensures VersionEdits.Fields(VersionEdits.Edit(Some(name), Some(2), Some(9), Some(3), Some(4), [(level, key)], [(level, 6)], [(level, meta)])) ==
            [VersionEdits.Comparator(name), VersionEdits.LogNumber(2), VersionEdits.PrevLogNumber(9), VersionEdits.NextFile(3),
             VersionEdits.LastSequence(4), VersionEdits.CompactPointer(level, key), VersionEdits.DeletedFile(level, 6),
             VersionEdits.NewFile(level, meta)]
  {
  }

  // ----- Tables -----

  lemma {:induction false} HandleBytes()
    ensures TableFormat.EncodeHandle(TableFormat.BlockHandle(300, 5)) == [0xac, 0x02, 5]
    ensures Blocks.EncodeItem(Blocks.Item(3, [0x61, 0x62], [0x63])) == [3, 2, 1, 0x61, 0x62, 0x63]
  {
    hide Varint;
    NumberBytes();
    SmallVarint(5);
    SmallVarint(3);
    SmallVarint(2);
    SmallVarint(1);
  }

  /** Type 0, for no compression, and the checksum of contents and type. */
  lemma {:induction false} BlockBytes(crc: LogFormat.Checksum)
    requires crc([0x61, 0]) == 0x12345678
    ensures TableFormat.RawBlock(crc, [0x61]) == [0x61, 0, 0x40, 0x0f, 0x73, 0x4f]
  {
    hide LogFormat.Mask, Fixed32;
    assert [0x61 as Byte] + [0] == [0x61, 0];
    MaskBytes();
  }

  /** The filters, where they start, where that array starts, and 11 for 2 KB. */
  lemma {:induction false} FilterBytes()
    ensures FilterBlocks.Finished([0xaa], [0, 1]) == [0xaa, 0, 0, 0, 0, 1, 0, 0, 0, 1, 0, 0, 0, 11]
  {
    assert WordArray([0, 1]) == Fixed32(0) + Fixed32(1) by {
      assert [0, 1][..1] == [0] && [0][..0] == [];
    }
    assert Fixed32(0) == [0, 0, 0, 0] && Fixed32(1) == [1, 0, 0, 0];
  }

  /** The footer: the handles, zeros up to byte 40, and the magic number. */
  lemma {:induction false} FooterBytes()
    ensures var b := TableFormat.EncodeFooter(TableFormat.BlockHandle(1, 2), TableFormat.BlockHandle(3, 4));
            && |b| == 48 && b[..4] == [1, 2, 3, 4] && (forall i :: 4 <= i < 40 ==> b[i] == 0)
            && b[40..] == [0x57, 0xfb, 0x80, 0x8b, 0x24, 0x75, 0x47, 0xdb]
  {
    assert Fixed32(0x8b80fb57) == [0x57, 0xfb, 0x80, 0x8b] && Fixed32(0xdb477524) == [0x24, 0x75, 0x47, 0xdb];
    assert TableFormat.EncodeHandle(TableFormat.BlockHandle(1, 2)) == [1, 2];
    assert TableFormat.EncodeHandle(TableFormat.BlockHandle(3, 4)) == [3, 4];
  }

  /** The user key, and the sequence number above the type. */
  lemma {:induction false} InternalKeyBytes()
    ensures Separators.UserPart([0x6b, 1, 2, 0, 0, 0, 0, 0, 0]) == [0x6b]
    ensures Separators.TagPart([0x6b, 1, 2, 0, 0, 0, 0, 0, 0]) == 2 * 256 + 1
  {
    var k: Bytes := [0x6b, 1, 2, 0, 0, 0, 0, 0, 0];
    assert k[1..] == [1, 2, 0, 0, 0, 0, 0, 0];
    assert k[1..][..4] == [1, 2, 0, 0] && k[1..][4..] == [0, 0, 0, 0];
  }

  /** Ten bits a key make six probes, the hash goes on by itself rotated right by 17, and bits count from the low end. */
  lemma {:induction false} BloomProbes(hash: Bloom.Hash)
    ensures Bloom.BloomFilterPolicy(10, hash).K() == 6 && Bloom.BloomFilterPolicy(1, hash).K() == 1
    ensures Bloom.BloomFilterPolicy(100, hash).K() == 30
    ensures Bloom.Delta(0x2_0000) == 1 && Bloom.Delta(1) == 0x8000 && Bloom.Delta(0x1_ffff) == 0xffff_8000
    ensures Bloom.Position(0x12345678, 0, 1000) == 0x12345678 % 1000
    ensures Bloom.Position(0x12345678, 1, 1000) == 0x3d705f92 % 1000
    ensures Bloom.BitAt([0, 4], 10) && !Bloom.BitAt([0, 4], 9)
  {
    assert (10 as real * 0.69).Floor == 6 && (1 as real * 0.69).Floor == 0 && (100 as real * 0.69).Floor == 69;
    assert Bloom.Delta(0x12345678) == 0x2b3c091a;
    assert Bloom.ProbeHash(0x12345678, 1) == 0x3d705f92;
    assert !Bloom.Bit(4, 1) && Bloom.Bit(4, 2);
  }

  // ----- Protocol Buffers -----

  /** Tag 1 and the value, for each way of writing a number. */
  lemma {:induction false} MessageBytes()
    ensures PbWire.WireTag(1, 0) == [0x08] && PbWire.WireTag(2, 5) == [0x15] && PbWire.WireTag(16, 2) == [0x82, 0x01]
    ensures PbWire.WireType(PbWire.Signed(4)) == 0 && PbWire.WireType(PbWire.Word64) == 1 && PbWire.WireType(PbWire.Text(9)) == 2
    ensures PbWire.WireType(PbWire.Word32) == 5
    ensures PbWire.WireNumber(PbWire.Unsigned(4), 300) == [0xac, 0x02]
    ensures PbWire.WireNumber(PbWire.ZigzagSigned(4), -2) == [0x03] && PbWire.WireNumber(PbWire.ZigzagSigned(4), 2) == [0x04]
    ensures PbWire.WireNumber(PbWire.Signed(4), -1) == [0xff, 0xff, 0xff, 0xff, 0xff, 0xff, 0xff, 0xff, 0xff, 0x01]
    ensures PbWire.WireNumber(PbWire.Word32, 1) == [1, 0, 0, 0] && PbWire.WireNumber(PbWire.Word64, 2) == [2, 0, 0, 0, 0, 0, 0, 0]
  {
    NumberBytes();
    assert Varint(130) == [0x82] + Varint(1);
    MinusOne();
  }

  lemma {:induction false} VarintStep(v: nat)
    requires v >= 128
    ensures Varint(v) == [128 + v % 128] + Varint(v / 128)
  {
  }

  lemma {:induction false} MinusOne()
    ensures Varint(0xffff_ffff_ffff_ffff) == [0xff, 0xff, 0xff, 0xff, 0xff, 0xff, 0xff, 0xff, 0xff, 0x01]
  {
    hide Varint;
    VarintStep(0xffff_ffff_ffff_ffff);
    VarintStep(0x1ff_ffff_ffff_ffff);
    VarintStep(0x3_ffff_ffff_ffff);
    VarintStep(0x7ff_ffff_ffff);
    VarintStep(0xf_ffff_ffff);
    VarintStep(0x1fff_ffff);
    VarintStep(0x3f_ffff);
    VarintStep(0x7fff);
    VarintStep(0xff);
    assert Varint(1) == [1] by { SmallVarint(1); }
  }

  lemma {:induction false} SmallVarint(v: nat)
    requires v < 128
    ensures Varint(v) == [v]
  {
  }
}
