/** Reading a table file. */
module Tables {
  import opened Blocks
  import opened Bloom
  import opened Coding
  import opened Common
  import opened FilterBlocks
  import opened LogFormat
  import opened Separators
  import opened TableBuilders
  import opened TableFormat
  import opened TableLookup

  // ----- What a table says about its parts -----

  lemma {:induction false} BeforeIsTransitive()
    ensures Blocks.Transitive(Before)
  {
    forall a, b, c {:trigger Before(a, b), Before(b, c)} | Before(a, b) && Before(b, c) ensures Before(a, c) {
      BeforeTransitive(a, b, c);
    }
  }

  /** A handle of the index is read back. */
  lemma {:induction false} HandleDecodes(crc: Checksum, file: Bytes, h: BlockHandle, contents: Bytes)
    requires StoredAt(crc, file, h, contents) && |file| < LONG
    ensures HandleFits(h) && DecodeHandle(EncodeHandle(h), 0) == Some((h, |EncodeHandle(h)|))
  {
    AtEnd([], EncodeHandle(h));
    assert [] + EncodeHandle(h) == EncodeHandle(h);
    HandleRoundTrip(EncodeHandle(h), 0, h);
  }

  lemma {:induction false} IndexSorted(crc: Checksum, file: Bytes, spec: TableSpec)
    requires spec.DataStored(crc, file)
    ensures spec.index.SortedBy(Before)
  {
    forall i, j {:trigger Before(spec.index.pairs[i].key, spec.index.pairs[j].key)} | 0 <= i < j < |spec.index.pairs|
      ensures Before(spec.index.pairs[i].key, spec.index.pairs[j].key)
    {
      SeparatorsAscend(crc, file, spec.pairs, spec.chunks, spec.index.pairs, i, j);
    }
  }

  lemma {:induction false} ChunkSorted(pairs: seq<Pair>, c: Chunk)
    requires Increasing(pairs) && c.from < c.to <= |pairs| && c.layout.pairs == pairs[c.from..c.to]
    ensures c.layout.SortedBy(Before)
  {
    forall i, j {:trigger Before(c.layout.pairs[i].key, c.layout.pairs[j].key)} | 0 <= i < j < |c.layout.pairs|
      ensures Before(c.layout.pairs[i].key, c.layout.pairs[j].key)
    {
      assert Before(pairs[c.from + i].key, pairs[c.from + j].key);
    }
  }

  /** No separator is left, so there is no answer. */
  lemma {:induction false} NothingLeft(crc: Checksum, file: Bytes, spec: TableSpec, target: Bytes)
    requires spec.DataStored(crc, file) && IsKey(target)
    requires forall j :: 0 <= j < |spec.index.pairs| ==> Before(spec.index.pairs[j].key, target)
    ensures Correct(spec.pairs, target, None)
  {
    forall p | 0 <= p < |spec.pairs| ensures !Answers(spec.pairs[p], target) {
      PastTheEnd(crc, file, spec.pairs, spec.chunks, spec.index.pairs, target, p);
      AnswersNotBefore(spec.pairs[p], target);
    }
    NothingIsCorrect(spec.pairs, target);
  }

  /** Nothing in the block has the target's user key if the filter says so. */
  lemma {:induction false} NotInBlock(spec: TableSpec, i: nat, target: Bytes)
    requires spec.filter.Some? && |spec.homes| == |spec.pairs| && Housed(spec.chunks, spec.homes, 0)
    requires Hosts(spec.filter.value.groups, [], spec.pairs, spec.homes) && IsKey(target) && i < |spec.chunks|
    requires var g := spec.chunks[i].handle.offset / BASE;
             g < |spec.filter.value.groups| ==>
               forall k :: k in spec.filter.value.groups[g] && IsKey(k) ==> UserPart(k) != UserPart(target)
    ensures forall p :: spec.chunks[i].from <= p < spec.chunks[i].to && p < |spec.pairs| ==> !Answers(spec.pairs[p], target)
  {
    var c := spec.chunks[i];
    forall p | c.from <= p < c.to && p < |spec.pairs| ensures !Answers(spec.pairs[p], target) {
      assert spec.homes[p] == c.handle.offset;
      assert spec.pairs[p].key in GroupOf(spec.filter.value.groups, [], spec.homes[p] / BASE);
    }
  }

  // ----- Lookup -----

  class Table {
    const crc: Checksum
    const file: Bytes
    const indexContents: Bytes
    const filter: FilterBlockReader?
    /** What the file stands for, if a builder made it. */
    ghost const spec: Option<TableSpec>

    ghost predicate Wf() {
      && (filter != null ==> filter.Wf())
      && (spec.Some? ==>
            && spec.value.IsTable(crc, file) && spec.value.SizesFit(file)
            && indexContents == spec.value.indexContents
            && (filter != null ==>
                  spec.value.filter.Some? && filter.groups == Some(spec.value.filter.value.groups)))
    }

    constructor (crc: Checksum, file: Bytes, indexContents: Bytes, filter: FilterBlockReader?, ghost spec: Option<TableSpec>)
      ensures this.crc == crc && this.file == file && this.indexContents == indexContents
      ensures this.filter == filter && this.spec == spec
    {
      this.crc, this.file, this.indexContents, this.filter, this.spec := crc, file, indexContents, filter, spec;
    }

    /** The block that an index entry points to. */
    method BlockReader(verifyChecksums: bool, indexValue: Bytes, ghost c: Option<Chunk>) returns (iter: Iter?, ok: bool)
      requires c.Some? ==>
        && StoredAt(crc, file, c.value.handle, c.value.contents) && Stands(c.value.contents, c.value.layout)
        && |file| < LONG && indexValue == EncodeHandle(c.value.handle)
      ensures iter != null ==> fresh(iter) && iter.Wf() && iter.less == Before && iter.status.Ok?
      ensures c.Some? ==> iter != null && ok && iter.layout == Some(c.value.layout)
    {
      hide StoredAt, Stands, EncodeHandle, DecodeHandle;
      if c.Some? {
        HandleDecodes(crc, file, c.value.handle, c.value.contents);
        BlockRoundTrip(crc, file, verifyChecksums, c.value.handle, c.value.contents);
      }
      var h := DecodeHandle(indexValue, 0);
      if h.None? {
        return null, false;
      }
      var contents := TableFormat.ReadBlock(crc, file, verifyChecksums, h.value.0);
      if !contents.Contents? {
        return null, false;
      }
      iter, ok := NewIterator(contents.data, Before, if c.Some? then Some(c.value.layout) else None);
    }

    /** The index entry is the first one that is not before the key. */
    ghost predicate Sought(i: nat, k: Bytes)
      requires spec.Some?
    {
      && i < |spec.value.index.pairs| && IsKey(k) && !Before(spec.value.index.pairs[i].key, k)
      && forall j :: 0 <= j < i ==> Before(spec.value.index.pairs[j].key, k)
    }

    /** The filter cannot tell that the block has no answer. */
    method MayContain(handleValue: Bytes, k: Bytes, ghost i: nat) returns (may: bool)
      requires Wf() && IsKey(k)
      requires spec.Some? ==> Sought(i, k) && handleValue == spec.value.index.pairs[i].value
      ensures spec.Some? && !may ==> Correct(spec.value.pairs, k, None)
    {
      if filter == null {
        return true;
      }
      var h := DecodeHandle(handleValue, 0);
      if h.None? {
        return true;
      }
      may := filter.KeyMayMatch(h.value.0.offset, k);
      if spec.Some? && !may {
        var t := spec.value;
        assert Indexes(t.pairs, t.chunks, t.index.pairs, i) && Placed(crc, file, t.pairs, t.chunks, i);
        HandleDecodes(crc, file, t.chunks[i].handle, t.chunks[i].contents);
        NotInBlock(t, i, k);
        FilteredOut(crc, file, t.pairs, t.chunks, t.index.pairs, k, i);
      }
    }

    /** Where the block of index entry `i` is. */
    lemma {:induction false} BlockInPlace(i: nat, k: Bytes)
      requires Wf() && spec.Some? && Sought(i, k)
      ensures var t := spec.value;
              && i < |t.chunks| && t.chunks[i].layout.SortedBy(Before) && Blocks.Transitive(Before)
              && StoredAt(crc, file, t.chunks[i].handle, t.chunks[i].contents)
              && Stands(t.chunks[i].contents, t.chunks[i].layout)
              && |file| < LONG && t.index.pairs[i].value == EncodeHandle(t.chunks[i].handle)
    {
      var t := spec.value;
      assert Indexes(t.pairs, t.chunks, t.index.pairs, i) && Placed(crc, file, t.pairs, t.chunks, i);
      ChunkSorted(t.pairs, t.chunks[i]);
      BeforeIsTransitive();
    }

    /** The first pair of the block that is not before the key is the answer. */
    lemma {:induction false} FirstOfBlock(i: nat, k: Bytes, q: nat)
      requires Wf() && spec.Some? && Sought(i, k) && i < |spec.value.chunks|
      requires var l := spec.value.chunks[i].layout;
               && q <= |l.pairs| && (forall j :: 0 <= j < q ==> Before(l.pairs[j].key, k))
               && (q < |l.pairs| ==> !Before(l.pairs[q].key, k))
      ensures var l := spec.value.chunks[i].layout;
              Correct(spec.value.pairs, k, if q < |l.pairs| then Some(l.pairs[q]) else None)
    {
      hide StoredAt, Stands, Correct, Before, Increasing, EncodeHandle, Divides, ServesAll, EncodeFooter;
      var t := spec.value;
      assert Indexes(t.pairs, t.chunks, t.index.pairs, i) && Placed(crc, file, t.pairs, t.chunks, i);
      var c := t.chunks[i];
      hide Indexed, Chunked, TableSpec.IsTable;
      forall p | c.from <= p < c.from + q && p < |t.pairs| ensures Before(t.pairs[p].key, k) {
        assert c.layout.pairs[p - c.from] == t.pairs[p];
      }
      BlockAnswers(crc, file, t.pairs, t.chunks, t.index.pairs, k, i, c.from + q);
    }

    /** The first entry of the block that is not before the key. */
    method SeekInBlock(verifyChecksums: bool, handleValue: Bytes, k: Bytes, ghost i: nat)
      returns (reported: Option<Pair>, ok: bool)
      requires Wf() && IsKey(k)
      requires spec.Some? ==> Sought(i, k) && handleValue == spec.value.index.pairs[i].value
      ensures spec.Some? ==> ok && Correct(spec.value.pairs, k, reported)
    {
      hide StoredAt, Stands, EncodeHandle, Before, Correct, Blocks.Transitive, Layout.SortedBy, Layout.Wf;
      hide TableSpec.IsTable, TableSpec.SizesFit;
      ghost var c: Option<Chunk> := None;
      if spec.Some? {
        BlockInPlace(i, k);
        c := Some(spec.value.chunks[i]);
      }
      var blockIter, fine := BlockReader(verifyChecksums, handleValue, c);
      if blockIter == null {
        return None, fine;
      }
      blockIter.Seek(k);
      reported := None;
      if blockIter.Valid() {
        var value := blockIter.Value();
        reported := Some(Pair(blockIter.key, value));
      }
      ok := blockIter.status.Ok?;
      if spec.Some? {
        FirstOfBlock(i, k, blockIter.index);
      }
    }

    /** Hand over the first entry that is not before the key, of the block that can have the key. */
    method InternalGet(verifyChecksums: bool, k: Bytes) returns (reported: Option<Pair>, ok: bool)
      requires Wf() && IsKey(k)
      ensures spec.Some? ==> ok && Correct(spec.value.pairs, k, reported)
    {
      if spec.Some? {
        IndexSorted(crc, file, spec.value);
        BeforeIsTransitive();
      }
      var iiter, fine := NewIterator(indexContents, Before, if spec.Some? then Some(spec.value.index) else None);
      if iiter == null {
        return None, fine;
      }
      iiter.Seek(k);
      reported, ok := None, true;
      if iiter.Valid() {
        var handleValue := iiter.Value();
        var may := MayContain(handleValue, k, iiter.index);
        if may {
          reported, ok := SeekInBlock(verifyChecksums, handleValue, k, iiter.index);
        }
      } else if spec.Some? {
        NothingLeft(crc, file, spec.value, k);
      }
      ok := ok && iiter.status.Ok?;
    }
  }

  // ----- Opening -----

  /** The filter block that the metaindex names, if it can be read. */
  method ReadMeta(crc: Checksum, file: Bytes, verifyChecksums: bool, policy: Option<InternalFilterPolicy>,
                  metaHandle: BlockHandle, ghost spec: Option<TableSpec>)
    returns (filter: FilterBlockReader?)
    requires spec.Some? ==>
      && spec.value.MetaStored(crc, file) && spec.value.FilterStored(crc, file) && spec.value.SizesFit(file)
      && metaHandle == spec.value.metaHandle && Readable(policy, spec.value)
    ensures filter != null ==> filter.Wf() && policy.Some?
    ensures spec.Some? && filter != null ==>
      spec.value.filter.Some? && filter.groups == Some(spec.value.filter.value.groups)
    ensures spec.Some? && policy.Some? && spec.value.filter.Some? ==> filter != null
  {
    hide StoredAt, EncodeHandle, Less, Blocks.Transitive, Layout.Wf;
    filter := null;
    if policy.None? {
      return;
    }
    if spec.Some? {
      BlockRoundTrip(crc, file, verifyChecksums, metaHandle, spec.value.metaContents);
    }
    var contents := TableFormat.ReadBlock(crc, file, verifyChecksums, metaHandle);
    if !contents.Contents? {
      return;
    }
    LessIsTransitive();
    var iter, _ := NewIterator(contents.data, Less, if spec.Some? then Some(spec.value.meta) else None);
    if iter == null {
      return;
    }
    iter.Seek(FILTER_KEY);
    if spec.Some? && spec.value.filter.Some? {
      LessTotal(FILTER_KEY, FILTER_KEY);
    }
    if iter.Valid() && iter.key == FILTER_KEY {
      var value := iter.Value();
      filter := ReadFilter(crc, file, verifyChecksums, policy.value, value, if spec.Some? then spec.value.filter else None);
    }
  }

  lemma {:induction false} LessIsTransitive()
    ensures Blocks.Transitive(Less)
  {
    forall a, b, c {:trigger Less(a, b), Less(b, c)} | Less(a, b) && Less(b, c) ensures Less(a, c) {
      LessTransitive(a, b, c);
    }
  }

  /** A reader's policy uses the hash that the filters were made with; the number of bits may differ. */
  ghost predicate Readable(policy: Option<InternalFilterPolicy>, spec: TableSpec) {
    policy.Some? && spec.filter.Some? ==> policy.value.user.hash == spec.filter.value.hash
  }

  method ReadFilter(crc: Checksum, file: Bytes, verifyChecksums: bool, policy: InternalFilterPolicy, handleValue: Bytes,
                    ghost spec: Option<FilterSpec>)
    returns (filter: FilterBlockReader?)
    requires spec.Some? ==>
      && spec.value.Serves(crc, file) && spec.value.arrayAt < WORD && |file| < LONG
      && handleValue == EncodeHandle(spec.value.handle) && policy.user.hash == spec.value.hash
    ensures filter != null ==> filter.Wf()
    ensures spec.Some? ==> filter != null && filter.groups == Some(spec.value.groups)
  {
    if spec.Some? {
      HandleDecodes(crc, file, spec.value.handle, spec.value.contents);
      BlockRoundTrip(crc, file, verifyChecksums, spec.value.handle, spec.value.contents);
    }
    var h := DecodeHandle(handleValue, 0);
    if h.None? {
      return null;
    }
    var contents := TableFormat.ReadBlock(crc, file, verifyChecksums, h.value.0);
    if !contents.Contents? {
      return null;
    }
    filter := new FilterBlockReader(policy, contents.data, if spec.Some? then spec.value.arrayAt else 0,
      if spec.Some? then Some(spec.value.groups) else None);
  }

  /** Table::Open.  A file that a builder made is always opened. */
  method Open(crc: Checksum, file: Bytes, paranoidChecks: bool, policy: Option<InternalFilterPolicy>, ghost spec: Option<TableSpec>)
    returns (table: Table?)
    requires spec.Some? ==>
      spec.value.IsTable(crc, file) && spec.value.SizesFit(file) && Readable(policy, spec.value)
    ensures table != null ==> fresh(table) && table.Wf() && table.spec == spec && table.file == file
    ensures spec.Some? ==> table != null
  {
    if |file| < FOOTER {
      return null;
    }
    if spec.Some? {
      OpensAt(crc, file, paranoidChecks, spec.value);
    }
    var footer := DecodeFooter(file[|file| - FOOTER..]);
    if footer.None? {
      return null;
    }
    var (metaHandle, indexHandle) := footer.value;
    var index := TableFormat.ReadBlock(crc, file, paranoidChecks, indexHandle);
    if !index.Contents? {
      return null;
    }
    var filter := ReadMeta(crc, file, paranoidChecks, policy, metaHandle, spec);
    table := new Table(crc, file, index.data, filter, spec);
  }

  lemma {:induction false} OpensAt(crc: Checksum, file: Bytes, verifyChecksums: bool, spec: TableSpec)
    requires spec.IsTable(crc, file) && spec.SizesFit(file)
    ensures DecodeFooter(file[|file| - FOOTER..]) == Some((spec.metaHandle, spec.indexHandle))
    ensures TableFormat.ReadBlock(crc, file, verifyChecksums, spec.indexHandle) == Contents(spec.indexContents)
  {
    FooterRoundTrip(spec.metaHandle, spec.indexHandle);
    BlockRoundTrip(crc, file, verifyChecksums, spec.indexHandle, spec.indexContents);
  }

  /** A table of the pairs. */
  method WriteTable(crc: Checksum, blockSize: nat, interval: nat, policy: Option<InternalFilterPolicy>, pairs: seq<Pair>)
    returns (file: Bytes, ghost spec: TableSpec)
    requires interval >= 1 && Increasing(pairs)
    requires forall i :: 0 <= i < |pairs| ==> |pairs[i].key| < WORD && |pairs[i].value| < WORD
    ensures spec.IsTable(crc, file) && spec.pairs == pairs
    ensures policy.Some? <==> spec.filter.Some?
    ensures policy.Some? ==> spec.filter.value.hash == policy.value.user.hash
  {
    hide TableSpec.IsTable, Before, TableBuilder.Wf;
    var builder := new TableBuilder(crc, blockSize, interval, policy);
    for i := 0 to |pairs|
      invariant fresh(builder) && fresh(builder.Parts()) && builder.Wf() && !builder.closed && builder.pairs == pairs[..i]
      invariant builder.crc == crc && builder.policy == policy
    {
      builder.LastKey();
      if i > 0 {
        assert Before(pairs[i - 1].key, pairs[i].key);
      }
      builder.Add(pairs[i].key, pairs[i].value);
    }
    spec := builder.Finish();
    file := builder.file;
  }

  /** Build a table, open it and look a key up.  The reader's policy may use other numbers of bits. */
  method WriteAndGet(crc: Checksum, blockSize: nat, interval: nat, policy: Option<InternalFilterPolicy>,
                     readerPolicy: Option<InternalFilterPolicy>, checks: bool, pairs: seq<Pair>, k: Bytes)
    returns (file: Bytes, reported: Option<Pair>)
    requires interval >= 1 && Increasing(pairs) && IsKey(k)
    requires forall i :: 0 <= i < |pairs| ==> |pairs[i].key| < WORD && |pairs[i].value| < WORD
    requires policy.Some? && readerPolicy.Some? ==> policy.value.user.hash == readerPolicy.value.user.hash
    ensures |file| < WORD ==> Correct(pairs, k, reported)
  {
    hide TableSpec.IsTable, TableSpec.SizesFit, Correct, Increasing, Table.Wf;
    ghost var spec;
    file, spec := WriteTable(crc, blockSize, interval, policy, pairs);
    if |file| < WORD {
      SmallTableFits(crc, file, spec);
    }
    var table := Open(crc, file, checks, readerPolicy, if |file| < WORD then Some(spec) else None);
    reported := None;
    if table != null {
      var r, _ := table.InternalGet(checks, k);
      reported := r;
    }
  }
}
