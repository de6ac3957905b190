/** The pieces of a table file: block handles, blocks with type and checksum, the footer. */
module TableFormat {
  import opened Coding
  import opened Common
  import opened LogFormat

  // ----- Block handles -----

  datatype BlockHandle = BlockHandle(offset: nat, size: nat)

  /** Both fields have 64 bits. */
  function EncodeHandle(h: BlockHandle): Bytes {
    Varint(Truncate64(h.offset)) + Varint(Truncate64(h.size))
  }

  /** What stands after the handle is ignored. */
  function DecodeHandle(b: Bytes, p: nat): Option<(BlockHandle, nat)> {
    match GetVarint64(b, p)
    case None => None
    case Some((offset, q)) =>
      match GetVarint64(b, q)
      case None => None
      case Some((size, r)) => Some((BlockHandle(offset, size), r))
  }

  ghost predicate HandleFits(h: BlockHandle) {
    h.offset < LONG && h.size < LONG
  }

  lemma {:induction false} HandleRoundTrip(data: Bytes, p: nat, h: BlockHandle)
    requires HandleFits(h) && AtPos(data, p, EncodeHandle(h))
    ensures DecodeHandle(data, p) == Some((h, p + |EncodeHandle(h)|))
  {
    hide AtPos, GetVarint64, Varint, Truncate64;
    AtSplit(data, p, Varint(h.offset), Varint(h.size));
    Varint64RoundTrip(data, p, h.offset);
    Varint64RoundTrip(data, p + |Varint(h.offset)|, h.size);
  }

  lemma {:induction false} HandleSize(h: BlockHandle)
    ensures |EncodeHandle(h)| <= 20
  {
    Varint64Size(Truncate64(h.offset));
    Varint64Size(Truncate64(h.size));
  }

  // ----- Blocks in the file -----

  const NO_COMPRESSION: Byte := 0

  const SNAPPY: Byte := 1

  const TRAILER: nat := 5

  /** The contents, the type and the masked checksum of both. */
  function RawBlock(crc: Checksum, contents: Bytes): (r: Bytes)
    ensures |r| == |contents| + TRAILER
  {
    contents + [NO_COMPRESSION] + Fixed32(Mask(crc(contents + [NO_COMPRESSION])))
  }

  /** A block with these contents is in the file where the handle says. */
  ghost predicate StoredAt(crc: Checksum, file: Bytes, h: BlockHandle, contents: Bytes) {
    AtPos(file, h.offset, RawBlock(crc, contents)) && h.size == |contents|
  }

  datatype Contents = Contents(data: Bytes) | Truncated | Mismatch | BadType

  /** What a read of `n` bytes at `offset` returns: fewer at the end of the file. */
  function ReadAt(file: Bytes, offset: nat, n: nat): Bytes {
    file[Min(offset, |file|)..Min(offset + n, |file|)]
  }

  function ReadBlock(crc: Checksum, file: Bytes, verifyChecksums: bool, h: BlockHandle): Contents {
    var n := h.size;
    var read := ReadAt(file, h.offset, n + TRAILER);
    if |read| != n + TRAILER then Truncated
    else if verifyChecksums && Unmask(DecodeFixed32(read[n + 1..n + 5])) != crc(read[..n + 1]) then Mismatch
    else if read[n] == NO_COMPRESSION then Contents(read[..n])
    else BadType
  }

  /** A stored block is read back, with its checksum verified or not. */
  lemma {:induction false} BlockRoundTrip(crc: Checksum, file: Bytes, verifyChecksums: bool, h: BlockHandle, contents: Bytes)
    requires StoredAt(crc, file, h, contents)
    ensures ReadBlock(crc, file, verifyChecksums, h) == Contents(contents)
  {
    var raw, n := RawBlock(crc, contents), h.size;
    AtSlice(file, h.offset, raw);
    assert ReadAt(file, h.offset, n + TRAILER) == raw;
    assert raw[..n + 1] == contents + [NO_COMPRESSION] && raw[..n] == contents;
    assert raw[n + 1..n + 5] == Fixed32(Mask(crc(contents + [NO_COMPRESSION])));
    Fixed32RoundTrip(Mask(crc(contents + [NO_COMPRESSION])));
    UnmaskMask(crc(contents + [NO_COMPRESSION]));
  }

  lemma {:induction false} StaysStored(crc: Checksum, file: Bytes, more: Bytes, h: BlockHandle, contents: Bytes)
    requires StoredAt(crc, file, h, contents)
    ensures StoredAt(crc, file + more, h, contents)
  {
    AtPrefix(file, more, h.offset, RawBlock(crc, contents));
  }

  lemma {:induction false} StoredAtEnd(crc: Checksum, file: Bytes, contents: Bytes)
    ensures StoredAt(crc, file + RawBlock(crc, contents), BlockHandle(|file|, |contents|), contents)
  {
    AtEnd(file, RawBlock(crc, contents));
  }

  // ----- The footer -----

  const MAGIC_LOW: Word := 0x8b80fb57

  const MAGIC_HIGH: Word := 0xdb477524

  const HANDLES: nat := 40

  const FOOTER: nat := 48

  function EncodeFooter(metaindex: BlockHandle, index: BlockHandle): (r: Bytes)
    ensures |r| == FOOTER
  {
    HandleSize(metaindex);
    HandleSize(index);
    var handles := EncodeHandle(metaindex) + EncodeHandle(index);
    handles + Zeros(HANDLES - |handles|) + (Fixed32(MAGIC_LOW) + Fixed32(MAGIC_HIGH))
  }

  function DecodeFooter(b: Bytes): Option<(BlockHandle, BlockHandle)>
    requires |b| == FOOTER
  {
    if DecodeFixed32(b[HANDLES..HANDLES + 4]) != MAGIC_LOW || DecodeFixed32(b[HANDLES + 4..FOOTER]) != MAGIC_HIGH then None
    else
      match DecodeHandle(b, 0)
      case None => None
      case Some((metaindex, p)) =>
        match DecodeHandle(b, p)
        case None => None
        case Some((index, _)) => Some((metaindex, index))
  }

  lemma {:induction false} FooterRoundTrip(metaindex: BlockHandle, index: BlockHandle)
    requires HandleFits(metaindex) && HandleFits(index)
    ensures DecodeFooter(EncodeFooter(metaindex, index)) == Some((metaindex, index))
  {
    hide AtPos, DecodeHandle, Fixed32, DecodeFixed32, EncodeHandle;
    var b := EncodeFooter(metaindex, index);
    var first, second := EncodeHandle(metaindex), EncodeHandle(index);
    HandleSize(metaindex);
    HandleSize(index);
    var padding := Zeros(HANDLES - |first + second|);
    var magic := Fixed32(MAGIC_LOW) + Fixed32(MAGIC_HIGH);
    assert b == first + second + padding + magic;
    FooterMagic(first + second + padding);
    TwoHandles(first, second, padding + magic);
    assert b == first + second + (padding + magic);
    HandleRoundTrip(b, 0, metaindex);
    HandleRoundTrip(b, |first|, index);
  }

  lemma {:induction false} FooterMagic(front: Bytes)
    requires |front| == HANDLES
    ensures var b := front + (Fixed32(MAGIC_LOW) + Fixed32(MAGIC_HIGH));
            && DecodeFixed32(b[HANDLES..HANDLES + 4]) == MAGIC_LOW
            && DecodeFixed32(b[HANDLES + 4..FOOTER]) == MAGIC_HIGH
  {
    var b := front + (Fixed32(MAGIC_LOW) + Fixed32(MAGIC_HIGH));
    assert b[HANDLES..HANDLES + 4] == Fixed32(MAGIC_LOW) && b[HANDLES + 4..FOOTER] == Fixed32(MAGIC_HIGH);
    Fixed32RoundTrip(MAGIC_LOW);
    Fixed32RoundTrip(MAGIC_HIGH);
  }

  lemma {:induction false} TwoHandles(first: Bytes, second: Bytes, rest: Bytes)
    ensures AtPos(first + second + rest, 0, first) && AtPos(first + second + rest, |first|, second)
  {
    AtEnd([], first);
    assert [] + first == first;
    AtPrefix(first, second + rest, 0, first);
    AtEnd(first, second);
    AtPrefix(first + second, rest, |first|, second);
    assert first + (second + rest) == first + second + rest;
  }
}
