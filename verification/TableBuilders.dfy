/** Writing a table file. */
module TableBuilders {
  import opened Blocks
  import opened Bloom
  import opened Coding
  import opened Common
  import opened FilterBlocks
  import opened LogFormat
  import opened Separators
  import opened TableFormat
  import opened TableLookup

  /** "filter.leveldb.BuiltinBloomFilter2". */
  const FILTER_KEY: Bytes := [
    0x66, 0x69, 0x6c, 0x74, 0x65, 0x72, 0x2e, 0x6c, 0x65, 0x76, 0x65, 0x6c, 0x64, 0x62, 0x2e, 0x42, 0x75, 0x69,
    0x6c, 0x74, 0x69, 0x6e, 0x42, 0x6c, 0x6f, 0x6f, 0x6d, 0x46, 0x69, 0x6c, 0x74, 0x65, 0x72, 0x32]

  /** The filter block: where its array of offsets is and which keys are behind every filter. */
  datatype FilterSpec = FilterSpec(hash: Hash, handle: BlockHandle, contents: Bytes, arrayAt: nat, groups: seq<seq<Bytes>>)
  {
    ghost predicate Serves(crc: Checksum, file: Bytes) {
      && StoredAt(crc, file, handle, contents) && arrayAt <= |contents|
      && (arrayAt < WORD ==> ServesAll(hash, contents, arrayAt, groups))
    }
  }

  /** What the bytes of a table stand for; `homes` has the offset of the block of every pair. */
  datatype TableSpec = TableSpec(pairs: seq<Pair>, chunks: seq<Chunk>, homes: seq<nat>,
                                 index: Layout, indexHandle: BlockHandle, indexContents: Bytes,
                                 meta: Layout, metaHandle: BlockHandle, metaContents: Bytes,
                                 filter: Option<FilterSpec>)
  {
    /** Offsets in blocks have 32 bits, offsets in the file 64. */
    ghost predicate SizesFit(file: Bytes) {
      && |file| < LONG && |indexContents| < WORD
      && (forall i {:trigger chunks[i]} :: 0 <= i < |chunks| ==> |chunks[i].contents| < WORD)
      && (filter.Some? ==> filter.value.arrayAt < WORD)
    }

    /** All data blocks are in the file, with one index entry each. */
    ghost predicate DataStored(crc: Checksum, file: Bytes) {
      && Increasing(pairs) && Chunked(crc, file, pairs, chunks) && Covered(chunks) == |pairs|
      && |index.pairs| == |chunks| && Indexed(pairs, chunks, index.pairs)
    }

    ghost predicate IndexStored(crc: Checksum, file: Bytes) {
      StoredAt(crc, file, indexHandle, indexContents) && (|indexContents| < WORD ==> Stands(indexContents, index))
    }

    ghost predicate MetaStored(crc: Checksum, file: Bytes) {
      && StoredAt(crc, file, metaHandle, metaContents) && Stands(metaContents, meta)
      && meta.pairs == if filter.None? then [] else [Pair(FILTER_KEY, EncodeHandle(filter.value.handle))]
    }

    /** The key of every pair is in the filter for the offset of the pair's block. */
    ghost predicate FilterStored(crc: Checksum, file: Bytes) {
      && |homes| == |pairs| && Housed(chunks, homes, 0)
      && (filter.Some? ==> filter.value.Serves(crc, file) && Hosts(filter.value.groups, [], pairs, homes))
    }

    /** The file is a table of the pairs. */
    ghost predicate IsTable(crc: Checksum, file: Bytes) {
      && |file| >= FOOTER && file[|file| - FOOTER..] == EncodeFooter(metaHandle, indexHandle)
      && DataStored(crc, file) && IndexStored(crc, file) && MetaStored(crc, file) && FilterStored(crc, file)
    }
  }

  /** All sizes fit a table of less than 4 GB. */
  lemma {:induction false} SmallTableFits(crc: Checksum, file: Bytes, spec: TableSpec)
    requires spec.IsTable(crc, file) && |file| < WORD
    ensures spec.SizesFit(file)
  {
    forall i {:trigger spec.chunks[i]} | 0 <= i < |spec.chunks| ensures |spec.chunks[i].contents| < WORD {
      assert Placed(crc, file, spec.pairs, spec.chunks, i);
    }
  }

  /** The filter for the offset of a pair's block has the pair's key. */
  ghost predicate Hosts(groups: seq<seq<Bytes>>, pending: seq<Bytes>, pairs: seq<Pair>, homes: seq<nat>) {
    && |homes| == |pairs|
    && forall p {:trigger homes[p]} :: 0 <= p < |pairs| ==> pairs[p].key in GroupOf(groups, pending, homes[p] / BASE)
  }

  class TableBuilder {
    const crc: Checksum
    const blockSize: nat
    const policy: Option<InternalFilterPolicy>
    const data: BlockBuilder
    const index: BlockBuilder
    const filter: FilterBlockBuilder?
    var file: Bytes
    var lastKey: Bytes
    var numEntries: nat
    var closed: bool
    var pendingIndexEntry: bool
    var pendingHandle: BlockHandle
    /** All pairs, the written blocks, and where the block of every pair starts. */
    ghost var pairs: seq<Pair>
    ghost var chunks: seq<Chunk>
    ghost var homes: seq<nat>

    ghost function Parts(): set<object> {
      if filter == null then {data, index} else {data, index, filter}
    }

    ghost predicate Builders()
      reads data, index
    {
      && data != index && data.Wf() && index.Wf() && !data.finished && !index.finished
      && data.less == Before && index.less == Before
    }

    /** The blocks and their index entries, with the blocks in the file as far as `body`. */
    ghost predicate WrittenTo(body: Bytes)
      reads `lastKey, `numEntries, `pendingIndexEntry, `pendingHandle, `pairs, `chunks, data, index
    {
      && Sound(crc, body, pairs, chunks, data.layout.pairs, index.layout.pairs, pendingIndexEntry)
      && (pendingIndexEntry ==> pendingHandle == chunks[|chunks| - 1].handle)
      && numEntries == |pairs| && |lastKey| < WORD
      && (|pairs| > 0 ==> IsKey(lastKey) && lastKey == pairs[|pairs| - 1].key)
    }

    ghost predicate Written()
      reads `file, `lastKey, `numEntries, `pendingIndexEntry, `pendingHandle, `pairs, `chunks, data, index
    {
      WrittenTo(file)
    }

    /** The filter block has the keys of `ps`. */
    ghost predicate Filtered(ps: seq<Pair>)
      reads `file, `chunks, `homes, filter
    {
      && (filter == null <==> policy.None?)
      && |homes| == |ps| && Housed(chunks, homes, |file|)
      && (filter != null ==>
            && filter.Wf() && filter.policy == policy.value
            && |filter.groups| == |file| / BASE && Hosts(filter.groups, filter.pending, ps, homes))
    }

    ghost predicate Wf()
      reads this, Parts()
    {
      Builders() && Written() && Filtered(pairs)
    }

    constructor (crc: Checksum, blockSize: nat, interval: nat, policy: Option<InternalFilterPolicy>)
      requires interval >= 1
      ensures Wf() && fresh(Parts()) && !closed && pairs == []
      ensures this.crc == crc && this.policy == policy && file == []
    {
      hide Sound, Housed, Hosts, Built, Flattened, Filters, Before, Layout.Wf, GroupOf;
      this.crc, this.blockSize, this.policy := crc, blockSize, policy;
      var dataBlock := new BlockBuilder(interval, Before);
      var indexBlock := new BlockBuilder(1, Before);
      var filterBlock := StartFilter(policy);
      data, index, filter := dataBlock, indexBlock, filterBlock;
      file, lastKey, numEntries, closed, pendingIndexEntry := [], [], 0, false, false;
      pendingHandle := BlockHandle(0, 0);
      pairs, chunks, homes := [], [], [];
      new;
      NothingWritten(crc, if policy.Some? then filter.groups else [], if policy.Some? then filter.pending else []);
      assert Builders();
      assert Written();
    }

    static method StartFilter(policy: Option<InternalFilterPolicy>) returns (filter: FilterBlockBuilder?)
      ensures filter == null <==> policy.None?
      ensures filter != null ==> fresh(filter) && filter.Wf() && filter.policy == policy.value && filter.groups == []
    {
      filter := null;
      if policy.Some? {
        filter := new FilterBlockBuilder(policy.value);
        filter.StartBlock(0);
      }
    }

    /** The index entry of the last block, now that the next key is known. */
    method AddIndexEntry(key: Bytes) returns (ghost entry: Pair)
      requires Builders() && Written() && pendingIndexEntry && |pairs| > 0 && IsKey(key) && Before(lastKey, key)
      modifies index, `lastKey, `pendingIndexEntry
      ensures Builders() && !pendingIndexEntry
      ensures index.layout.pairs == old(index.layout.pairs) + [entry]
      ensures Separates(old(lastKey), entry.key, key) && entry.value == EncodeHandle(pendingHandle)
    {
      assert index.lastKey == index.layout.Previous(|index.layout.pairs|);
      hide Built, Chunked, Before, Layout.Wf, Less, Varint;
      var sep := InternalSeparator(lastKey, key);
      entry := Pair(sep, EncodeHandle(pendingHandle));
      NextSeparator(crc, file, pairs, chunks, index.layout.pairs, entry, key);
      HandleSize(pendingHandle);
      lastKey := sep;
      index.Add(lastKey, EncodeHandle(pendingHandle));
      pendingIndexEntry := false;
    }

    method Add(key: Bytes, value: Bytes)
      requires Wf() && !closed && IsKey(key) && |key| < WORD && |value| < WORD
      requires |pairs| > 0 ==> Before(lastKey, key)
      modifies this, Parts()
      ensures Wf() && !closed && pairs == old(pairs) + [Pair(key, value)]
      // a block is written as soon as it has reached its size
      ensures Covered(chunks) == |pairs| || data.CurrentSizeEstimate() < blockSize
    {
      AddToBlock(key, value);
      var estimatedBlockSize := data.CurrentSizeEstimate();
      if estimatedBlockSize >= blockSize {
        Flush();
      }
    }

    /** The filter for the current offset gets the key. */
    method AddToFilter(key: Bytes, ghost pair: Pair)
      requires Filtered(pairs) && IsKey(key) && pair.key == key
      requires Chunked(crc, file, pairs, chunks) && Covered(chunks) <= |pairs|
      modifies filter, `homes
      ensures Filtered(pairs + [pair])
    {
      HousedNext(crc, file, pairs, chunks, homes, |file|);
      if filter != null {
        HostsNext(filter.groups, filter.pending, pairs, homes, |file|, pair);
      }
      hide Housed, Hosts, Flattened, Filters, Chunked, Covered;
      if filter != null {
        filter.AddKey(key);
      }
      homes := homes + [|file|];
    }

    /** Everything in the file and in the index is ready for the pair. */
    ghost predicate Ready(pair: Pair)
      reads `file, `numEntries, `pendingIndexEntry, `pairs, `chunks, data, index
    {
      && Builders() && !pendingIndexEntry && numEntries == |pairs|
      && Sound(crc, file, pairs + [pair], chunks, data.layout.pairs + [pair], index.layout.pairs, false)
    }

    method Prepare(key: Bytes, ghost pair: Pair)
      requires Builders() && Written() && IsKey(key) && pair.key == key && (|pairs| > 0 ==> Before(lastKey, key))
      modifies index, `lastKey, `pendingIndexEntry
      ensures Ready(pair)
    {
      LastOfBlock(crc, file, pairs, chunks, data.layout.pairs, index.layout.pairs, pendingIndexEntry);
      hide Built, Sound, Before, Separates, Layout.Wf, EncodeHandle, Chunked, Covered;
      ghost var entry := Pair([], []);
      if pendingIndexEntry {
        entry := AddIndexEntry(key);
      }
      SoundNext(crc, file, pairs, chunks, old(data.layout.pairs), old(index.layout.pairs), old(pendingIndexEntry), pair, entry);
    }

    /** The pair goes into the block that is being filled. */
    method Append(key: Bytes, value: Bytes)
      requires Ready(Pair(key, value)) && IsKey(key) && |key| < WORD && |value| < WORD
      requires |data.layout.pairs| > 0 ==> Before(data.lastKey, key)
      modifies data, `lastKey, `numEntries, `pairs
      ensures Builders() && Written() && pairs == old(pairs) + [Pair(key, value)] && !pendingIndexEntry
    {
      hide Built, Sound, Before, Layout.Wf, Chunked, Covered;
      lastKey := key;
      numEntries := numEntries + 1;
      data.Add(key, value);
      pairs := pairs + [Pair(key, value)];
    }

    lemma {:induction false} LastKey()
      requires Wf()
      ensures |pairs| > 0 ==> lastKey == pairs[|pairs| - 1].key
    {
    }

    /** The last key of the data block is the last key of all. */
    lemma {:induction false} LastInBlock()
      requires Builders() && Written()
      ensures |data.layout.pairs| > 0 ==> |pairs| > 0 && data.lastKey == lastKey
      ensures Chunked(crc, file, pairs, chunks) && Covered(chunks) <= |pairs| && data != index
    {
      assert data.lastKey == data.layout.Previous(|data.layout.pairs|);
      LastOfBlock(crc, file, pairs, chunks, data.layout.pairs, index.layout.pairs, pendingIndexEntry);
    }

    method AddToBlock(key: Bytes, value: Bytes)
      requires Wf() && !closed && IsKey(key) && |key| < WORD && |value| < WORD
      requires |pairs| > 0 ==> Before(lastKey, key)
      modifies this, Parts()
      ensures Wf() && !closed && pairs == old(pairs) + [Pair(key, value)]
    {
      hide Sound, Chunked, Covered, Before;
      hide TableBuilder.Ready, TableBuilder.Builders, TableBuilder.Written, TableBuilder.Filtered;
      LastInBlock();
      assert |data.layout.pairs| > 0 ==> Before(data.lastKey, key);
      Prepare(key, Pair(key, value));
      AddToFilter(key, Pair(key, value));
      Append(key, value);
    }

    /** The block that is being filled goes to the file. */
    method FlushData()
      requires Builders() && Written() && data.layout.pairs != [] && |homes| == |pairs| && Housed(chunks, homes, |file|)
      modifies `file, `pendingHandle, `pendingIndexEntry, `chunks, data
      ensures Builders() && Written() && Covered(chunks) == |pairs| && Housed(chunks, homes, |file|)
      ensures old(file) <= file
    {
      assert !pendingIndexEntry;
      hide Built, Sound, Housed, Before, Layout.Wf, EncodeHandle, Covered;
      ghost var layout, from, here, contents := data.layout, Covered(chunks), |file|, [];
      pendingHandle, contents := WriteBlock(data);
      pendingIndexEntry := true;
      ghost var c := Chunk(from, |pairs|, pendingHandle, contents, layout);
      SoundBlock(crc, old(file), RawBlock(crc, contents), pairs, chunks, index.layout.pairs, c);
      HousedChunk(chunks, homes, here, |file|, c);
      chunks := chunks + [c];
    }

    /** Write the data block, if there is anything in it. */
    method Flush()
      requires Wf() && !closed
      modifies this, Parts()
      ensures Wf() && !closed && pairs == old(pairs) && Covered(chunks) == |pairs| && old(file) <= file
    {
      data.EmptyMeansNoPairs();
      if data.Empty() {
        return;
      }
      hide Sound, Housed, Flattened, Filters, Hosts, GroupOf, Covered;
      hide TableBuilder.Builders, TableBuilder.Written;
      FlushData();
      if filter != null {
        filter.StartBlock(|file|);
        assert forall i: nat :: GroupOf(filter.groups, filter.pending, i) == old(GroupOf(filter.groups, filter.pending, i));
        SameHosts(old(filter.groups), old(filter.pending), filter.groups, filter.pending, pairs, homes);
      }
    }

    method WriteRawBlock(contents: Bytes) returns (handle: BlockHandle)
      modifies `file
      ensures file == old(file) + RawBlock(crc, contents)
      ensures handle == BlockHandle(old(|file|), |contents|)
      ensures StoredAt(crc, file, handle, contents)
    {
      StoredAtEnd(crc, file, contents);
      handle := BlockHandle(|file|, |contents|);
      file := file + contents;
      var trailer := [NO_COMPRESSION];
      trailer := trailer + Fixed32(Mask(crc(contents + trailer)));
      file := file + trailer;
      assert file == old(file) + RawBlock(crc, contents);
    }

    method WriteBlock(block: BlockBuilder) returns (handle: BlockHandle, ghost contents: Bytes)
      requires block.Wf() && !block.finished
      modifies `file, block
      ensures block.Wf() && !block.finished && block.layout.pairs == [] && block.buffer == []
      ensures |contents| >= old(|block.buffer|) + 4
      ensures old(|block.buffer|) < WORD - 1 ==> Stands(contents, old(block.layout))
      ensures file == old(file) + RawBlock(crc, contents)
      ensures handle == BlockHandle(old(|file|), |contents|)
      ensures StoredAt(crc, file, handle, contents)
    {
      var raw := block.Finish();
      handle := WriteRawBlock(raw);
      contents := raw;
      block.Reset();
    }

    // ----- Finishing -----

    /** The filter block, if there is a filter policy. */
    method WriteFilter() returns (handle: BlockHandle, ghost spec: Option<FilterSpec>)
      requires Filtered(pairs)
      modifies `file, filter
      ensures old(file) <= file && (spec.Some? <==> policy.Some?)
      ensures spec.Some? ==> spec.value.handle == handle && spec.value.hash == policy.value.user.hash
      ensures spec.Some? ==> spec.value.Serves(crc, file)
      ensures spec.Some? ==> Hosts(spec.value.groups, [], pairs, homes)
    {
      handle, spec := BlockHandle(0, 0), None;
      if filter != null {
        HostsFinished(filter.groups, filter.pending, pairs, homes);
        hide Housed, Hosts, Flattened, Filters, ServesAll, StoredAt;
        var contents := filter.Finish();
        handle := WriteRawBlock(contents);
        spec := Some(FilterSpec(policy.value.user.hash, handle, contents, |filter.result|, filter.groups));
      }
    }

    /** The metaindex block has an entry for the filter block. */
    method WriteMetaIndex(ghost filterSpec: Option<FilterSpec>, filterHandle: BlockHandle)
      returns (handle: BlockHandle, ghost contents: Bytes, ghost layout: Layout)
      requires filter != null <==> filterSpec.Some?
      requires filterSpec.Some? ==> filterSpec.value.handle == filterHandle
      requires data.interval >= 1
      modifies `file
      ensures old(file) <= file && StoredAt(crc, file, handle, contents) && Stands(contents, layout)
      ensures layout.pairs == if filterSpec.None? then [] else [Pair(FILTER_KEY, EncodeHandle(filterHandle))]
    {
      hide Built, Stands, StoredAt, EncodeHandle;
      var metaIndexBlock := new BlockBuilder(data.interval, Before);
      if filter != null {
        HandleSize(filterHandle);
        metaIndexBlock.Add(FILTER_KEY, EncodeHandle(filterHandle));
      }
      layout := metaIndexBlock.layout;
      handle, contents := WriteBlock(metaIndexBlock);
    }

    /** The entry of the last block: no key comes after it, so a short successor separates. */
    method WriteIndex(ghost body: Bytes) returns (handle: BlockHandle, ghost contents: Bytes, ghost layout: Layout)
      requires Builders() && WrittenTo(body) && Covered(chunks) == |pairs|
      modifies `file, `lastKey, `pendingIndexEntry, index
      ensures old(file) <= file && StoredAt(crc, file, handle, contents)
      ensures |contents| < WORD ==> Stands(contents, layout)
      ensures |layout.pairs| == |chunks| && Increasing(pairs) && Indexed(pairs, chunks, layout.pairs)
    {
      if pendingIndexEntry {
        AddLastEntry(body);
      }
      layout := index.layout;
      hide Built, Stands, StoredAt, Indexed, Increasing, Sound;
      handle, contents := WriteBlock(index);
    }

    method AddLastEntry(ghost body: Bytes)
      requires Builders() && WrittenTo(body) && pendingIndexEntry
      modifies `lastKey, `pendingIndexEntry, index
      ensures Builders() && !pendingIndexEntry
      ensures |index.layout.pairs| == |chunks| && Indexed(pairs, chunks, index.layout.pairs)
    {
      assert index.lastKey == index.layout.Previous(|index.layout.pairs|);
      LastOfBlock(crc, body, pairs, chunks, data.layout.pairs, index.layout.pairs, pendingIndexEntry);
      hide Built, Chunked, Before, Layout.Wf, Less, Varint, Indexed;
      lastKey := InternalSuccessor(lastKey);
      LastEntry(crc, body, pairs, chunks, index.layout.pairs, Pair(lastKey, EncodeHandle(pendingHandle)));
      HandleSize(pendingHandle);
      index.Add(lastKey, EncodeHandle(pendingHandle));
      pendingIndexEntry := false;
    }

    /** Filter block, metaindex block, index block and footer. */
    method WriteTail() returns (ghost spec: TableSpec)
      requires Builders() && Written() && Filtered(pairs) && Housed(chunks, homes, 0)
      requires Chunked(crc, file, pairs, chunks) && Covered(chunks) == |pairs|
      modifies `file, `lastKey, `pendingIndexEntry, index, filter
      ensures old(file) <= file && spec.pairs == pairs && spec.IsTable(crc, file)
      ensures spec.filter.Some? <==> policy.Some?
      ensures spec.filter.Some? ==> spec.filter.value.hash == policy.value.user.hash
    {
      assert |homes| == |pairs| && (filter == null <==> policy.None?) && data.interval >= 1 && data != index;
      hide StoredAt, Stands, Hosts, ServesAll, EncodeHandle, Chunked, EncodeFooter, Housed, Indexed, Increasing, Covered;
      hide TableBuilder.Builders, TableBuilder.WrittenTo, TableBuilder.Filtered;
      var filterHandle, metaHandle, indexHandle;
      ghost var filterSpec, metaContents, indexContents, meta, indexLayout;
      ghost var body := file;
      filterHandle, filterSpec := WriteFilter();
      ghost var afterFilter := file;
      metaHandle, metaContents, meta := WriteMetaIndex(filterSpec, filterHandle);
      ghost var afterMeta := file;
      indexHandle, indexContents, indexLayout := WriteIndex(body);
      ghost var afterIndex := file;
      file := file + EncodeFooter(metaHandle, indexHandle);
      spec := TableSpec(pairs, chunks, homes, indexLayout, indexHandle, indexContents, meta, metaHandle, metaContents, filterSpec);
      TableInLonger(crc, spec, body, afterFilter, afterMeta, afterIndex, file);
    }

    /** The rest of the file: it is a table of all the added pairs. */
    method Finish() returns (ghost spec: TableSpec)
      requires Wf() && !closed
      modifies this, Parts()
      ensures closed && old(file) <= file && spec.pairs == old(pairs) && spec.IsTable(crc, file)
      ensures spec.filter.Some? <==> policy.Some?
      ensures spec.filter.Some? ==> spec.filter.value.hash == policy.value.user.hash
    {
      Flush();
      hide TableSpec.IsTable;
      closed := true;
      LastOfBlock(crc, file, pairs, chunks, data.layout.pairs, index.layout.pairs, pendingIndexEntry);
      assert Housed(chunks, homes, 0);
      hide Housed, Chunked, Covered, Sound, Hosts, Built, Flattened, Filters;
      spec := WriteTail();
    }
  }

  lemma {:induction false} StaysIn(crc: Checksum, file: Bytes, longer: Bytes, h: BlockHandle, contents: Bytes)
    requires StoredAt(crc, file, h, contents) && file <= longer
    ensures StoredAt(crc, longer, h, contents)
  {
    assert longer == file + longer[|file|..];
    StaysStored(crc, file, longer[|file|..], h, contents);
  }

  /** The parts of a table, each in the file as far as it was written then, make a table. */
  lemma {:induction false} TableInLonger(crc: Checksum, spec: TableSpec, body: Bytes, afterFilter: Bytes, afterMeta: Bytes,
                                         afterIndex: Bytes, file: Bytes)
    requires body <= afterFilter <= afterMeta <= afterIndex
    requires file == afterIndex + EncodeFooter(spec.metaHandle, spec.indexHandle)
    requires spec.DataStored(crc, body) && spec.FilterStored(crc, afterFilter)
    requires spec.MetaStored(crc, afterMeta) && spec.IndexStored(crc, afterIndex)
    ensures spec.IsTable(crc, file)
  {
    hide StoredAt, Chunked, Stands, EncodeFooter, ServesAll;
    assert body <= file && afterFilter <= file && afterMeta <= file && afterIndex <= file;
    assert file == body + file[|body|..];
    FileGrows(crc, body, file[|body|..], spec.pairs, spec.chunks);
    if spec.filter.Some? {
      StaysIn(crc, afterFilter, file, spec.filter.value.handle, spec.filter.value.contents);
    }
    StaysIn(crc, afterMeta, file, spec.metaHandle, spec.metaContents);
    StaysIn(crc, afterIndex, file, spec.indexHandle, spec.indexContents);
  }

  /** The pairs in the written blocks and in the block that is being filled; `pending` says that the last
      written block has no index entry yet. */
  ghost predicate Sound(crc: Checksum, file: Bytes, pairs: seq<Pair>, chunks: seq<Chunk>, block: seq<Pair>,
                        index: seq<Pair>, pending: bool)
  {
    && Increasing(pairs) && Chunked(crc, file, pairs, chunks)
    && Covered(chunks) <= |pairs| && block == pairs[Covered(chunks)..]
    && Settled(pairs, chunks, index)
    && |index| == |chunks| - (if pending then 1 else 0)
    && (pending ==> block == [])
    && (!pending && |pairs| > 0 ==> block != [])
  }

  /** A new table. */
  lemma {:induction false} NothingWritten(crc: Checksum, groups: seq<seq<Bytes>>, pending: seq<Bytes>)
    ensures Sound(crc, [], [], [], [], [], false) && Housed([], [], 0) && Hosts(groups, pending, [], [])
  {
  }

  lemma {:induction false} LastOfBlock(crc: Checksum, file: Bytes, pairs: seq<Pair>, chunks: seq<Chunk>, block: seq<Pair>,
                                       index: seq<Pair>, pending: bool)
    requires Sound(crc, file, pairs, chunks, block, index, pending)
    ensures block != [] ==> |pairs| > 0 && block[|block| - 1] == pairs[|pairs| - 1]
    ensures pending ==> |pairs| > 0
    ensures Chunked(crc, file, pairs, chunks) && Covered(chunks) <= |pairs|
  {
    if pending {
      assert Placed(crc, file, pairs, chunks, |chunks| - 1);
    }
  }

  /** The new entry comes after the index entries there are. */
  lemma {:induction false} NextSeparator(crc: Checksum, file: Bytes, pairs: seq<Pair>, chunks: seq<Chunk>, index: seq<Pair>,
                                         entry: Pair, key: Bytes)
    requires Sound(crc, file, pairs, chunks, [], index, true) && |pairs| > 0
    requires Separates(pairs[|pairs| - 1].key, entry.key, key) && Before(pairs[|pairs| - 1].key, key)
    requires entry.value == EncodeHandle(chunks[|chunks| - 1].handle)
    ensures |index| > 0 ==> Before(index[|index| - 1].key, entry.key)
  {
    IncreasingAppended(pairs, Pair(key, []));
    NewEntry(crc, file, pairs, chunks, index, entry, Pair(key, []));
  }

  /** One more pair, and with it the index entry that was pending. */
  lemma {:induction false} SoundNext(crc: Checksum, file: Bytes, pairs: seq<Pair>, chunks: seq<Chunk>, block: seq<Pair>,
                                     index: seq<Pair>, pending: bool, pair: Pair, entry: Pair)
    requires Sound(crc, file, pairs, chunks, block, index, pending) && IsKey(pair.key)
    requires |pairs| > 0 ==> Before(pairs[|pairs| - 1].key, pair.key)
    requires pending ==>
      && |pairs| > 0 && Separates(pairs[|pairs| - 1].key, entry.key, pair.key)
      && entry.value == EncodeHandle(chunks[|chunks| - 1].handle)
    ensures Sound(crc, file, pairs + [pair], chunks, block + [pair], if pending then index + [entry] else index, false)
  {
    IncreasingAppended(pairs, pair);
    PairAppended(crc, file, pairs, chunks, pair);
    if pending {
      NewEntry(crc, file, pairs, chunks, index, entry, pair);
    } else {
      SettledAppended(pairs, chunks, index, pair);
    }
    assert (pairs + [pair])[Covered(chunks)..] == pairs[Covered(chunks)..] + [pair];
  }

  /** With the last filter made, all keys have their filters. */
  lemma {:induction false} HostsFinished(groups: seq<seq<Bytes>>, pending: seq<Bytes>, pairs: seq<Pair>, homes: seq<nat>)
    requires Hosts(groups, pending, pairs, homes)
    ensures Hosts(if pending == [] then groups else groups + [pending], [], pairs, homes)
  {
  }

  /** The last entry comes after the others, and no key comes after it. */
  lemma {:induction false} LastEntry(crc: Checksum, file: Bytes, pairs: seq<Pair>, chunks: seq<Chunk>, index: seq<Pair>, entry: Pair)
    requires Sound(crc, file, pairs, chunks, [], index, true) && |pairs| > 0 && IsKey(entry.key)
    requires var last := pairs[|pairs| - 1].key; entry.key == last || (IsKey(last) && Less(UserPart(last), UserPart(entry.key)))
    requires entry.value == EncodeHandle(chunks[|chunks| - 1].handle)
    ensures |index| > 0 ==> Before(index[|index| - 1].key, entry.key)
    ensures Indexed(pairs, chunks, index + [entry])
  {
    assert Placed(crc, file, pairs, chunks, |index|);
    EntryAppended(pairs, chunks, index, entry);
    if |index| > 0 {
      SeparatorsAscend(crc, file, pairs, chunks, index + [entry], |index| - 1, |index|);
    }
  }

  /** The block is written. */
  lemma {:induction false} SoundBlock(crc: Checksum, file: Bytes, more: Bytes, pairs: seq<Pair>, chunks: seq<Chunk>,
                                      index: seq<Pair>, c: Chunk)
    requires Sound(crc, file, pairs, chunks, c.layout.pairs, index, false) && c.layout.pairs != []
    requires c.from == Covered(chunks) && c.to == |pairs|
    requires StoredAt(crc, file + more, c.handle, c.contents) && c.handle.offset == |file|
    requires |c.contents| < WORD ==> Stands(c.contents, c.layout)
    ensures Sound(crc, file + more, pairs, chunks + [c], [], index, true)
    ensures Covered(chunks + [c]) == |pairs|
  {
    FileGrows(crc, file, more, pairs, chunks);
    if |chunks| > 0 {
      assert Placed(crc, file, pairs, chunks, |chunks| - 1);
    }
    ChunkAppended(crc, file + more, pairs, chunks, c);
    SettledChunk(pairs, chunks, index, c);
  }

  lemma {:induction false} HousedNext(crc: Checksum, file: Bytes, pairs: seq<Pair>, chunks: seq<Chunk>, homes: seq<nat>, here: nat)
    requires Chunked(crc, file, pairs, chunks) && Covered(chunks) <= |pairs| == |homes| && Housed(chunks, homes, here)
    ensures Housed(chunks, homes + [here], here)
  {
    var more := homes + [here];
    forall i, p {:trigger chunks[i], more[p]} | 0 <= i < |chunks| && chunks[i].from <= p < chunks[i].to && p < |more|
      ensures more[p] == chunks[i].handle.offset
    {
      assert Placed(crc, file, pairs, chunks, i) && p < |homes| && more[p] == homes[p];
    }
  }

  lemma {:induction false} HostsNext(groups: seq<seq<Bytes>>, pending: seq<Bytes>, pairs: seq<Pair>, homes: seq<nat>,
                                     here: nat, pair: Pair)
    requires Hosts(groups, pending, pairs, homes) && |groups| == here / BASE
    ensures Hosts(groups, pending + [pair.key], pairs + [pair], homes + [here])
  {
    var more := homes + [here];
    forall p {:trigger more[p]} | 0 <= p < |pairs + [pair]|
      ensures (pairs + [pair])[p].key in GroupOf(groups, pending + [pair.key], more[p] / BASE)
    {
      assert p < |pairs| ==> more[p] == homes[p];
    }
  }

  lemma {:induction false} SameHosts(groups: seq<seq<Bytes>>, pending: seq<Bytes>, groups': seq<seq<Bytes>>, pending': seq<Bytes>,
                                     pairs: seq<Pair>, homes: seq<nat>)
    requires Hosts(groups, pending, pairs, homes)
    requires forall i: nat :: GroupOf(groups', pending', i) == GroupOf(groups, pending, i)
    ensures Hosts(groups', pending', pairs, homes)
  {
  }

  lemma {:induction false} HousedChunk(chunks: seq<Chunk>, homes: seq<nat>, here: nat, next: nat, c: Chunk)
    requires Housed(chunks, homes, here) && c.from == Covered(chunks) && c.to == |homes| && c.handle.offset == here
    ensures Housed(chunks + [c], homes, next)
  {
    var more := chunks + [c];
    forall i, p {:trigger more[i], homes[p]} | 0 <= i < |more| && more[i].from <= p < more[i].to && p < |homes|
      ensures homes[p] == more[i].handle.offset
    {
      assert i < |chunks| ==> more[i] == chunks[i];
    }
  }

  /** The new entry comes after the index entries there are, and separates its block from the next key. */
  lemma {:induction false} NewEntry(crc: Checksum, file: Bytes, pairs: seq<Pair>, chunks: seq<Chunk>, index: seq<Pair>,
                                    entry: Pair, pair: Pair)
    requires Increasing(pairs) && Increasing(pairs + [pair])
    requires Chunked(crc, file, pairs, chunks) && Settled(pairs, chunks, index)
    requires |chunks| == |index| + 1 && Covered(chunks) == |pairs| && |pairs| > 0
    requires Separates(pairs[|pairs| - 1].key, entry.key, pair.key)
    requires entry.value == EncodeHandle(chunks[|chunks| - 1].handle)
    ensures |index| > 0 ==> Before(index[|index| - 1].key, entry.key)
    ensures Settled(pairs + [pair], chunks, index + [entry])
  {
    var more := pairs + [pair];
    var c := chunks[|index|];
    assert Placed(crc, file, pairs, chunks, |index|);
    PairAppended(crc, file, pairs, chunks, pair);
    SettledAppended(pairs, chunks, index, pair);
    assert more[c.to].key == pair.key && more[c.to - 1] == pairs[c.to - 1];
    EntryAppended(more, chunks, index, entry);
    if |index| > 0 {
      SeparatorsAscend(crc, file, more, chunks, index + [entry], |index| - 1, |index|);
    }
  }
}
