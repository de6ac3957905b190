/** The iterator over a whole table: one iterator over the index, one over the current block. */
module TwoLevelIterators {
  import opened Blocks
  import opened Coding
  import opened Common
  import opened LogFormat
  import opened Separators
  import opened TableBuilders
  import opened TableFormat
  import opened TableLookup
  import opened Tables

  // ----- The blocks of a table in a row -----

  lemma {:induction false} ChunkBounds(crc: Checksum, file: Bytes, spec: TableSpec, i: nat)
    requires spec.DataStored(crc, file) && i < |spec.chunks|
    ensures var c := spec.chunks[i];
            && c.from < c.to <= |spec.pairs| && |c.layout.pairs| == c.to - c.from
            && c.from == (if i == 0 then 0 else spec.chunks[i - 1].to)
            && (if i + 1 < |spec.chunks| then c.to == spec.chunks[i + 1].from else c.to == |spec.pairs|)
            && spec.index.pairs[i].value == EncodeHandle(c.handle)
  {
    assert Placed(crc, file, spec.pairs, spec.chunks, i);
    assert Indexes(spec.pairs, spec.chunks, spec.index.pairs, i);
    assert i > 0 ==> spec.chunks[..i][i - 1] == spec.chunks[i - 1];
    if i + 1 < |spec.chunks| {
      assert Placed(crc, file, spec.pairs, spec.chunks, i + 1);
      assert spec.chunks[..i + 1][i] == spec.chunks[i];
    }
  }

  /** Blocks have different handles. */
  lemma {:induction false} SameHandleSameBlock(crc: Checksum, file: Bytes, spec: TableSpec, i: nat, j: nat)
    requires spec.DataStored(crc, file) && |file| < LONG && i < |spec.chunks| && j < |spec.chunks|
    requires EncodeHandle(spec.chunks[i].handle) == EncodeHandle(spec.chunks[j].handle)
    ensures i == j
  {
    assert Placed(crc, file, spec.pairs, spec.chunks, i) && Placed(crc, file, spec.pairs, spec.chunks, j);
    HandleDecodes(crc, file, spec.chunks[i].handle, spec.chunks[i].contents);
    HandleDecodes(crc, file, spec.chunks[j].handle, spec.chunks[j].contents);
    if i < j {
      OffsetsAscend(crc, file, spec.pairs, spec.chunks, i, j);
    } else if j < i {
      OffsetsAscend(crc, file, spec.pairs, spec.chunks, j, i);
    }
  }

  /** The least position that is not before the target; the number of pairs if all are. */
  ghost predicate LowerBound(pairs: seq<Pair>, target: Bytes, at: nat) {
    && at <= |pairs| && (forall p :: 0 <= p < at ==> Before(pairs[p].key, target))
    && (at < |pairs| ==> !Before(pairs[at].key, target))
  }

  /** The first position at or after the target in the block that the index finds, or else the start of the next
      block, is the first one of the table. */
  lemma {:induction false} SeekLands(crc: Checksum, file: Bytes, spec: TableSpec, target: Bytes, i: nat, q: nat)
    requires spec.DataStored(crc, file) && IsKey(target) && i < |spec.chunks|
    requires !Before(spec.index.pairs[i].key, target)
    requires forall j :: 0 <= j < i ==> Before(spec.index.pairs[j].key, target)
    requires var l := spec.chunks[i].layout;
             && q <= |l.pairs| && (forall j :: 0 <= j < q ==> Before(l.pairs[j].key, target))
             && (q < |l.pairs| ==> !Before(l.pairs[q].key, target))
    ensures LowerBound(spec.pairs, target, spec.chunks[i].from + q)
  {
    hide StoredAt, Stands, EncodeHandle, Before, Separates;
    ChunkBounds(crc, file, spec, i);
    assert Indexes(spec.pairs, spec.chunks, spec.index.pairs, i) && Placed(crc, file, spec.pairs, spec.chunks, i);
    var c := spec.chunks[i];
    var at := c.from + q;
    forall p | 0 <= p < at ensures Before(spec.pairs[p].key, target) {
      if p < c.from {
        BeforeTheBlock(crc, file, spec.pairs, spec.chunks, spec.index.pairs, target, i, p);
      } else {
        assert c.layout.pairs[p - c.from] == spec.pairs[p];
      }
    }
    if at == c.to < |spec.pairs| {
      NextIsPast(spec.pairs, c, spec.index.pairs[i].key, target, at);
    }
  }

  lemma {:induction false} NextIsPast(pairs: seq<Pair>, c: Chunk, sep: Bytes, target: Bytes, at: nat)
    requires Increasing(pairs) && c.from < c.to <= at < |pairs| && Divides(pairs, c, sep)
    requires IsKey(target) && !Before(sep, target)
    ensures !Before(pairs[at].key, target)
  {
    SeparatorOrder(pairs, c, sep, at);
    BeforeTotal(sep, target);
    BeforeTotal(pairs[at].key, sep);
    if Before(pairs[at].key, target) {
      BeforeTransitive(sep, pairs[at].key, target);
    }
  }

  lemma {:induction false} AllBefore(crc: Checksum, file: Bytes, spec: TableSpec, target: Bytes)
    requires spec.DataStored(crc, file) && IsKey(target)
    requires forall j :: 0 <= j < |spec.index.pairs| ==> Before(spec.index.pairs[j].key, target)
    ensures LowerBound(spec.pairs, target, |spec.pairs|)
  {
    forall p | 0 <= p < |spec.pairs| ensures Before(spec.pairs[p].key, target) {
      PastTheEnd(crc, file, spec.pairs, spec.chunks, spec.index.pairs, target, p);
    }
  }

  // ----- The iterator -----

  class TwoLevelIterator {
    const table: Table
    const verifyChecksums: bool
    const indexIter: Iter
    var dataIter: Iter?
    var dataBlockHandle: Bytes
    /** The block that `dataIter` is over, and the position in the table; the number of pairs when it is not valid. */
    ghost var block: nat
    ghost var at: nat

    ghost function Spec(): TableSpec
      requires table.spec.Some?
    {
      table.spec.value
    }

    /** The iterators are over the index and over one of the blocks. */
    ghost predicate Wf()
      reads this, indexIter, dataIter
    {
      && table.Wf() && table.spec.Some?
      && indexIter.Wf() && indexIter.layout == Some(Spec().index) && indexIter.less == Before
      && (dataIter != null ==> OverBlock(block))
    }

    ghost predicate OverBlock(i: nat)
      requires table.spec.Some?
      reads `dataIter, `dataBlockHandle, dataIter
    {
      && dataIter != null && dataIter != indexIter && dataIter.Wf() && dataIter.less == Before
      && i < |Spec().chunks| && dataIter.layout == Some(Spec().chunks[i].layout)
      && dataBlockHandle == EncodeHandle(Spec().chunks[i].handle)
    }

    /** The block is the one that the index points to, if it points to any. */
    ghost predicate Matched()
      requires table.spec.Some?
      reads this, indexIter, dataIter
    {
      if dataIter == null then indexIter.index == |Spec().index.pairs| else indexIter.index == block
    }

    /** The position is that of the two iterators. */
    ghost predicate Positioned()
      reads this, indexIter, dataIter
    {
      && Wf() && Matched()
      && if dataIter == null then at == |Spec().pairs| else dataIter.Valid() && at == Spec().chunks[block].from + dataIter.index
    }

    predicate Valid()
      reads `dataIter, dataIter
    {
      dataIter != null && dataIter.Valid()
    }

    constructor (table: Table, verifyChecksums: bool, indexIter: Iter)
      requires table.Wf() && table.spec.Some?
      requires indexIter.Wf() && !indexIter.Valid() && indexIter.layout == Some(table.spec.value.index) && indexIter.less == Before
      ensures Positioned() && !Valid() && this.table == table && this.indexIter == indexIter && dataIter == null
    {
      this.table, this.verifyChecksums, this.indexIter := table, verifyChecksums, indexIter;
      dataIter, dataBlockHandle := null, [];
      block, at := 0, |table.spec.value.pairs|;
    }

    /** The pair at the position. */
    method Current() returns (key: Bytes, value: Bytes)
      requires Positioned() && Valid()
      ensures at < |Spec().pairs| && Pair(key, value) == Spec().pairs[at]
    {
      key := dataIter.key;
      value := dataIter.Value();
      ChunkBounds(table.crc, table.file, Spec(), block);
      assert Placed(table.crc, table.file, Spec().pairs, Spec().chunks, block);
    }

    /** A block that is open already stays open, wherever its iterator is. */
    method InitDataBlock()
      requires Wf()
      modifies `dataIter, `dataBlockHandle, `block
      ensures Wf() && Matched() && (dataIter == null <==> !indexIter.Valid())
      ensures dataIter == null || dataIter == old(dataIter) || fresh(dataIter)
    {
      if !indexIter.Valid() {
        dataIter := null;
        return;
      }
      var handle := indexIter.Value();
      ghost var i, t := indexIter.index, Spec();
      ChunkBounds(table.crc, table.file, t, i);
      if dataIter != null && handle == dataBlockHandle {
        SameHandleSameBlock(table.crc, table.file, t, i, block);
      } else {
        assert Placed(table.crc, table.file, t.pairs, t.chunks, i);
        var iter, _ := table.BlockReader(verifyChecksums, handle, Some(t.chunks[i]));
        dataIter, dataBlockHandle := iter, handle;
        block := i;
      }
    }

    /** The position when moving forward: past the end of a block comes the next block. */
    ghost function Ahead(): nat
      requires Wf()
      reads this, indexIter, dataIter
    {
      if dataIter == null then |Spec().pairs| else Spec().chunks[block].from + dataIter.index
    }

    lemma {:induction false} EntryPerBlock()
      requires table.Wf() && table.spec.Some?
      ensures |Spec().index.pairs| == |Spec().chunks|
    {
    }

    /** The start of the next block is where the end of this one is. */
    method ToNextBlock()
      requires Wf() && Matched() && dataIter != null && !dataIter.Valid() && indexIter.Valid()
      modifies this, indexIter, dataIter
      ensures Wf() && Matched() && Ahead() == old(Ahead()) && indexIter.index == old(indexIter.index) + 1
      ensures dataIter == null || dataIter == old(dataIter) || fresh(dataIter)
    {
      hide Iter.At, Laid, TableSpec.IsTable, TableSpec.SizesFit, EncodeHandle, Before;
      EntryPerBlock();
      NextBlock(block);
      indexIter.Next();
      InitDataBlock();
      if dataIter != null {
        dataIter.SeekToFirst();
      }
    }

    method SkipEmptyDataBlocksForward()
      requires Wf() && Matched()
      modifies this, indexIter, dataIter
      ensures Positioned() && at == old(Ahead())
      ensures dataIter == null || dataIter == old(dataIter) || fresh(dataIter)
    {
      hide Layout.Wf, Laid, TableSpec.IsTable, TableSpec.SizesFit, EncodeHandle, Before;
      EntryPerBlock();
      while dataIter == null || !dataIter.Valid()
        invariant Wf() && Matched() && Ahead() == old(Ahead())
        invariant dataIter == null || dataIter == old(dataIter) || fresh(dataIter)
        decreases |Spec().index.pairs| - indexIter.index
      {
        if !indexIter.Valid() {
          dataIter := null;
          at := |Spec().pairs|;
          return;
        }
        ToNextBlock();
      }
      at := Spec().chunks[block].from + dataIter.index;
    }

    lemma {:induction false} NextBlock(i: nat)
      requires table.Wf() && table.spec.Some? && i < |Spec().chunks|
      ensures var c := Spec().chunks[i];
              && c.from < c.to <= |Spec().pairs| && |c.layout.pairs| == c.to - c.from
              && c.from == (if i == 0 then 0 else Spec().chunks[i - 1].to)
              && (if i + 1 < |Spec().chunks| then c.to == Spec().chunks[i + 1].from else c.to == |Spec().pairs|)
    {
      ChunkBounds(table.crc, table.file, Spec(), i);
    }

    /** The position when moving backward: before the start of a block comes the one before. */
    ghost function Behind(): int
      requires Wf()
      reads this, indexIter, dataIter
    {
      if dataIter == null then |Spec().pairs|
      else if dataIter.Valid() then Spec().chunks[block].from + dataIter.index
      else if block == 0 then |Spec().pairs|
      else Spec().chunks[block].from - 1
    }

    /** The last pair of the previous block is what comes before this one. */
    method ToPreviousBlock()
      requires Wf() && Matched() && dataIter != null && !dataIter.Valid() && indexIter.Valid()
      modifies this, indexIter, dataIter
      ensures Wf() && Matched() && Behind() == old(Behind())
      ensures dataIter != null ==> indexIter.index == old(indexIter.index) - 1
      ensures dataIter == null || dataIter == old(dataIter) || fresh(dataIter)
    {
      hide Iter.Wf, Iter.Valid, TableSpec.IsTable, TableSpec.SizesFit, EncodeHandle, Before;
      EntryPerBlock();
      NextBlock(block);
      if block > 0 {
        NextBlock(block - 1);
      }
      indexIter.Prev();
      InitDataBlock();
      if dataIter != null {
        ToBlockEnd();
      }
    }

    method ToBlockEnd()
      requires Wf() && Matched() && dataIter != null && |Spec().chunks[block].layout.pairs| > 0
      modifies dataIter
      ensures Wf() && Matched() && dataIter.Valid() && dataIter.index == |Spec().chunks[block].layout.pairs| - 1
    {
      hide Layout.Wf, Laid, TableSpec.IsTable, TableSpec.SizesFit, EncodeHandle, Before;
      dataIter.SeekToLast();
    }

    method SkipEmptyDataBlocksBackward()
      requires Wf() && Matched()
      modifies this, indexIter, dataIter
      ensures Positioned() && at == old(Behind())
      ensures dataIter == null || dataIter == old(dataIter) || fresh(dataIter)
    {
      hide Layout.Wf, Laid, TableSpec.IsTable, TableSpec.SizesFit, EncodeHandle, Before;
      EntryPerBlock();
      while dataIter == null || !dataIter.Valid()
        invariant Wf() && Matched() && Behind() == old(Behind())
        invariant dataIter == null || dataIter == old(dataIter) || fresh(dataIter)
        decreases if dataIter == null then 0 else indexIter.index + 1
      {
        if !indexIter.Valid() {
          dataIter := null;
          at := |Spec().pairs|;
          return;
        }
        ToPreviousBlock();
      }
      at := Spec().chunks[block].from + dataIter.index;
    }

    method Seek(target: Bytes)
      requires Wf() && IsKey(target)
      modifies this, indexIter, dataIter
      ensures Positioned() && LowerBound(Spec().pairs, target, at)
      ensures dataIter == null || dataIter == old(dataIter) || fresh(dataIter)
    {
      hide Layout.Wf, Laid, TableSpec.IsTable, TableSpec.SizesFit, EncodeHandle, Before, LowerBound;
      SeekIndex(target);
      InitDataBlock();
      if dataIter != null {
        SeekData(target);
      }
      SkipEmptyDataBlocksForward();
    }

    /** Index entry `i` is the first one that is not before the target. */
    ghost predicate Found(i: nat, target: Bytes)
      requires table.spec.Some?
    {
      var entries := Spec().index.pairs;
      && i <= |entries| && (forall j :: 0 <= j < i ==> Before(entries[j].key, target))
      && (i < |entries| ==> !Before(entries[i].key, target))
    }

    method SeekIndex(target: Bytes)
      requires Wf() && IsKey(target)
      modifies indexIter
      ensures Wf() && Found(indexIter.index, target)
      ensures !indexIter.Valid() ==> LowerBound(Spec().pairs, target, |Spec().pairs|)
    {
      IndexSorted(table.crc, table.file, Spec());
      BeforeIsTransitive();
      hide Layout.Wf, Laid, TableSpec.IsTable, TableSpec.SizesFit, EncodeHandle, Before, LowerBound, Blocks.Transitive,
           Layout.SortedBy;
      indexIter.Seek(target);
      if !indexIter.Valid() {
        AllBefore(table.crc, table.file, Spec(), target);
      }
    }

    method SeekData(target: Bytes)
      requires Wf() && Matched() && dataIter != null && IsKey(target) && Found(indexIter.index, target)
      modifies dataIter
      ensures Wf() && Matched() && LowerBound(Spec().pairs, target, Ahead())
    {
      BlockSorted(block);
      BeforeIsTransitive();
      EntryPerBlock();
      hide Layout.Wf, Laid, TableSpec.IsTable, TableSpec.SizesFit, EncodeHandle, Before, LowerBound, Blocks.Transitive,
           Layout.SortedBy;
      dataIter.Seek(target);
      SeekLands(table.crc, table.file, Spec(), target, block, dataIter.index);
    }

    lemma {:induction false} BlockSorted(i: nat)
      requires table.Wf() && table.spec.Some? && i < |Spec().chunks|
      ensures Spec().chunks[i].layout.SortedBy(Before)
    {
      assert Placed(table.crc, table.file, Spec().pairs, Spec().chunks, i);
      ChunkSorted(Spec().pairs, Spec().chunks[i]);
    }

    method SeekToFirst()
      requires Wf()
      modifies this, indexIter, dataIter
      ensures Positioned() && at == 0
      ensures dataIter == null || dataIter == old(dataIter) || fresh(dataIter)
    {
      indexIter.SeekToFirst();
      InitDataBlock();
      if dataIter != null {
        NextBlock(block);
        dataIter.SeekToFirst();
      } else {
        assert |Spec().pairs| == 0;
      }
      SkipEmptyDataBlocksForward();
    }

    method SeekToLast()
      requires Wf()
      modifies this, indexIter, dataIter
      ensures Positioned() && at == if |Spec().pairs| == 0 then 0 else |Spec().pairs| - 1
      ensures dataIter == null || dataIter == old(dataIter) || fresh(dataIter)
    {
      indexIter.SeekToLast();
      InitDataBlock();
      if dataIter != null {
        NextBlock(block);
        dataIter.SeekToLast();
      } else {
        assert |Spec().pairs| == 0;
      }
      SkipEmptyDataBlocksBackward();
    }

    method Next()
      requires Positioned() && Valid()
      modifies this, indexIter, dataIter
      ensures Positioned() && at == old(at) + 1
      ensures dataIter == null || dataIter == old(dataIter) || fresh(dataIter)
    {
      dataIter.Next();
      SkipEmptyDataBlocksForward();
    }

    method Prev()
      requires Positioned() && Valid()
      modifies this, indexIter, dataIter
      ensures Positioned() && at == if old(at) == 0 then |Spec().pairs| else old(at) - 1
      ensures dataIter == null || dataIter == old(dataIter) || fresh(dataIter)
    {
      NextBlock(block);
      if block > 0 {
        NextBlock(block - 1);
      }
      dataIter.Prev();
      SkipEmptyDataBlocksBackward();
    }
  }

  /** Table::NewIterator. */
  method NewTableIterator(table: Table, verifyChecksums: bool) returns (iter: TwoLevelIterator)
    requires table.Wf() && table.spec.Some?
    ensures fresh(iter) && fresh(iter.indexIter) && iter.Positioned() && !iter.Valid() && iter.table == table
  {
    var indexIter, _ := Blocks.NewIterator(table.indexContents, Before, Some(table.spec.value.index));
    iter := new TwoLevelIterator(table, verifyChecksums, indexIter);
  }
}
