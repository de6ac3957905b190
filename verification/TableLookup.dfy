/** What a table file means: sorted pairs cut into blocks, an index of separators over the blocks. */
module TableLookup {
  import opened Blocks
  import opened Coding
  import opened Common
  import opened LogFormat
  import opened Separators
  import opened TableFormat

  /** Keys are internal keys in strictly increasing order. */
  ghost predicate Increasing(pairs: seq<Pair>) {
    && (forall i {:trigger pairs[i]} :: 0 <= i < |pairs| ==> IsKey(pairs[i].key))
    && forall i, j {:trigger Before(pairs[i].key, pairs[j].key)} :: 0 <= i < j < |pairs| ==>
         Before(pairs[i].key, pairs[j].key)
  }

  /** A data block: which pairs it holds, where it is and what its bytes mean. */
  datatype Chunk = Chunk(from: nat, to: nat, handle: BlockHandle, contents: Bytes, layout: Layout)

  ghost predicate InPlace(crc: Checksum, file: Bytes, pairs: seq<Pair>, c: Chunk) {
    && c.from < c.to <= |pairs| && c.layout.pairs == pairs[c.from..c.to]
    && StoredAt(crc, file, c.handle, c.contents)
    && (|c.contents| < WORD ==> Stands(c.contents, c.layout))
  }

  function Covered(chunks: seq<Chunk>): nat {
    if chunks == [] then 0 else chunks[|chunks| - 1].to
  }

  /** Chunk `i` starts where the one before ends, and is in the file, past the one before. */
  ghost predicate Placed(crc: Checksum, file: Bytes, pairs: seq<Pair>, chunks: seq<Chunk>, i: nat)
    requires i < |chunks|
  {
    && chunks[i].from == Covered(chunks[..i]) && InPlace(crc, file, pairs, chunks[i])
    && (i > 0 ==> chunks[i - 1].handle.offset < chunks[i].handle.offset)
  }

  ghost predicate Chunked(crc: Checksum, file: Bytes, pairs: seq<Pair>, chunks: seq<Chunk>) {
    forall i {:trigger Placed(crc, file, pairs, chunks, i)} :: 0 <= i < |chunks| ==> Placed(crc, file, pairs, chunks, i)
  }

  /** The key of index entry `i` separates block `i` from the next one. */
  ghost predicate Divides(pairs: seq<Pair>, c: Chunk, sep: Bytes)
    requires Increasing(pairs) && c.from < c.to <= |pairs|
  {
    var last := pairs[c.to - 1].key;
    if c.to < |pairs| then
      Separates(last, sep, pairs[c.to].key)
    else
      IsKey(sep) && (sep == last || Less(UserPart(last), UserPart(sep)))
  }

  ghost predicate Indexes(pairs: seq<Pair>, chunks: seq<Chunk>, index: seq<Pair>, i: nat)
    requires Increasing(pairs) && i < |index| <= |chunks|
  {
    && chunks[i].from < chunks[i].to <= |pairs|
    && Divides(pairs, chunks[i], index[i].key)
    && index[i].value == EncodeHandle(chunks[i].handle)
  }

  ghost predicate Indexed(pairs: seq<Pair>, chunks: seq<Chunk>, index: seq<Pair>)
    requires Increasing(pairs)
  {
    && |index| <= |chunks|
    && forall i {:trigger Indexes(pairs, chunks, index, i)} :: 0 <= i < |index| ==> Indexes(pairs, chunks, index, i)
  }

  /** Every entry of the index has a next block to separate from. */
  ghost predicate Settled(pairs: seq<Pair>, chunks: seq<Chunk>, index: seq<Pair>)
    requires Increasing(pairs)
  {
    && Indexed(pairs, chunks, index)
    && forall i {:trigger chunks[i]} :: 0 <= i < |index| ==> chunks[i].to < |pairs|
  }

  /** Where the block of pair `p` starts: its own block's offset, or `here` if it is not written. */
  ghost predicate Housed(chunks: seq<Chunk>, homes: seq<nat>, here: nat) {
    && (forall i, p {:trigger chunks[i], homes[p]} :: 0 <= i < |chunks| && chunks[i].from <= p < chunks[i].to && p < |homes| ==>
          homes[p] == chunks[i].handle.offset)
    && forall p {:trigger homes[p]} :: Covered(chunks) <= p < |homes| ==> homes[p] == here
  }

  // ----- The order of blocks and separators -----

  lemma {:induction false} ChunksAscend(crc: Checksum, file: Bytes, pairs: seq<Pair>, chunks: seq<Chunk>, i: nat, j: nat)
    requires Chunked(crc, file, pairs, chunks) && i < j < |chunks|
    ensures chunks[i].to <= chunks[j].from
    decreases j - i
  {
    assert Placed(crc, file, pairs, chunks, j) && chunks[..j][j - 1] == chunks[j - 1];
    if i < j - 1 {
      ChunksAscend(crc, file, pairs, chunks, i, j - 1);
      assert Placed(crc, file, pairs, chunks, j - 1);
    }
  }

  lemma {:induction false} OffsetsAscend(crc: Checksum, file: Bytes, pairs: seq<Pair>, chunks: seq<Chunk>, i: nat, j: nat)
    requires Chunked(crc, file, pairs, chunks) && i < j < |chunks|
    ensures chunks[i].handle.offset < chunks[j].handle.offset
    decreases j - i
  {
    assert Placed(crc, file, pairs, chunks, j);
    if i < j - 1 {
      OffsetsAscend(crc, file, pairs, chunks, i, j - 1);
    }
  }

  /** No key of the block is past the separator; all later keys are. */
  lemma {:induction false} SeparatorOrder(pairs: seq<Pair>, c: Chunk, sep: Bytes, p: nat)
    requires Increasing(pairs) && c.from < c.to <= |pairs| && Divides(pairs, c, sep) && p < |pairs|
    ensures p < c.to ==> !Before(sep, pairs[p].key)
    ensures p >= c.to ==> Before(sep, pairs[p].key)
  {
    var last := pairs[c.to - 1].key;
    if c.to < |pairs| {
      SeparatesOrder(last, sep, pairs[c.to].key);
    }
    BeforeTotal(last, sep);
    if p < c.to - 1 && Before(sep, pairs[p].key) {
      BeforeTransitive(sep, pairs[p].key, last);
    }
    if p > c.to {
      BeforeTransitive(sep, pairs[c.to].key, pairs[p].key);
    }
  }

  /** The separators ascend too. */
  lemma {:induction false} SeparatorsAscend(crc: Checksum, file: Bytes, pairs: seq<Pair>, chunks: seq<Chunk>,
                                            index: seq<Pair>, i: nat, j: nat)
    requires Increasing(pairs) && Chunked(crc, file, pairs, chunks) && Indexed(pairs, chunks, index)
    requires i < j < |index|
    ensures Before(index[i].key, index[j].key)
  {
    assert Indexes(pairs, chunks, index, i) && Indexes(pairs, chunks, index, j);
    ChunksAscend(crc, file, pairs, chunks, i, j);
    var last := chunks[j].to - 1;
    assert Placed(crc, file, pairs, chunks, j);
    SeparatorOrder(pairs, chunks[i], index[i].key, last);
    SeparatorOrder(pairs, chunks[j], index[j].key, last);
    BeforeTotal(pairs[last].key, index[j].key);
    if pairs[last].key != index[j].key {
      BeforeTransitive(index[i].key, pairs[last].key, index[j].key);
    }
  }

  // ----- Growth -----

  lemma {:induction false} FileGrows(crc: Checksum, file: Bytes, more: Bytes, pairs: seq<Pair>, chunks: seq<Chunk>)
    requires Chunked(crc, file, pairs, chunks)
    ensures Chunked(crc, file + more, pairs, chunks)
  {
    forall i | 0 <= i < |chunks| ensures Placed(crc, file + more, pairs, chunks, i) {
      assert Placed(crc, file, pairs, chunks, i);
      StaysStored(crc, file, more, chunks[i].handle, chunks[i].contents);
    }
  }

  lemma {:induction false} PairAppended(crc: Checksum, file: Bytes, pairs: seq<Pair>, chunks: seq<Chunk>, pair: Pair)
    requires Chunked(crc, file, pairs, chunks)
    ensures Chunked(crc, file, pairs + [pair], chunks)
  {
    hide StoredAt, Stands;
    var more := pairs + [pair];
    forall i | 0 <= i < |chunks| ensures Placed(crc, file, more, chunks, i) {
      assert Placed(crc, file, pairs, chunks, i);
      var c := chunks[i];
      assert more[c.from..c.to] == pairs[c.from..c.to];
    }
  }

  lemma {:induction false} ChunkAppended(crc: Checksum, file: Bytes, pairs: seq<Pair>, chunks: seq<Chunk>, c: Chunk)
    requires Chunked(crc, file, pairs, chunks) && InPlace(crc, file, pairs, c) && c.from == Covered(chunks)
    requires |chunks| > 0 ==> chunks[|chunks| - 1].handle.offset < c.handle.offset
    ensures Chunked(crc, file, pairs, chunks + [c]) && Covered(chunks + [c]) == c.to
  {
    hide InPlace;
    var more := chunks + [c];
    forall i | 0 <= i < |more| ensures Placed(crc, file, pairs, more, i) {
      if i < |chunks| {
        assert Placed(crc, file, pairs, chunks, i);
        assert more[..i] == chunks[..i] && more[i] == chunks[i];
      } else {
        assert more[..i] == chunks;
      }
    }
  }

  lemma {:induction false} IncreasingAppended(pairs: seq<Pair>, pair: Pair)
    requires Increasing(pairs) && IsKey(pair.key)
    requires |pairs| > 0 ==> Before(pairs[|pairs| - 1].key, pair.key)
    ensures Increasing(pairs + [pair])
  {
    var more := pairs + [pair];
    forall i, j | 0 <= i < j < |more| ensures Before(more[i].key, more[j].key) {
      if j < |pairs| {
        assert Before(pairs[i].key, pairs[j].key);
      } else if i < |pairs| - 1 {
        assert Before(pairs[i].key, pairs[|pairs| - 1].key);
        BeforeTransitive(pairs[i].key, pairs[|pairs| - 1].key, pair.key);
      }
    }
  }

  lemma {:induction false} SettledAppended(pairs: seq<Pair>, chunks: seq<Chunk>, index: seq<Pair>, pair: Pair)
    requires Increasing(pairs) && Increasing(pairs + [pair]) && Settled(pairs, chunks, index)
    ensures Settled(pairs + [pair], chunks, index)
  {
    var more := pairs + [pair];
    forall i | 0 <= i < |index| ensures Indexes(more, chunks, index, i) {
      assert Indexes(pairs, chunks, index, i) && chunks[i].to < |pairs|;
    }
  }

  /** One more entry in the index. */
  lemma {:induction false} EntryAppended(pairs: seq<Pair>, chunks: seq<Chunk>, index: seq<Pair>, entry: Pair)
    requires Increasing(pairs) && Indexed(pairs, chunks, index) && |index| < |chunks|
    requires var c := chunks[|index|];
             c.from < c.to <= |pairs| && Divides(pairs, c, entry.key) && entry.value == EncodeHandle(c.handle)
    ensures Indexed(pairs, chunks, index + [entry])
  {
    forall i | 0 <= i < |index + [entry]| ensures Indexes(pairs, chunks, index + [entry], i) {
      assert i < |index| ==> Indexes(pairs, chunks, index, i);
    }
  }

  /** One more block, whose entry the index does not have. */
  lemma {:induction false} SettledChunk(pairs: seq<Pair>, chunks: seq<Chunk>, index: seq<Pair>, c: Chunk)
    requires Increasing(pairs) && Settled(pairs, chunks, index)
    ensures Settled(pairs, chunks + [c], index)
  {
    forall i | 0 <= i < |index|
      ensures Indexes(pairs, chunks + [c], index, i)
    {
      assert Indexes(pairs, chunks, index, i);
    }
  }

  // ----- Lookup -----

  /** The pair is of the sought user key and not newer than sought. */
  predicate Answers(pair: Pair, target: Bytes) {
    && IsKey(pair.key) && IsKey(target)
    && UserPart(pair.key) == UserPart(target) && TagPart(pair.key) <= TagPart(target)
  }

  lemma {:induction false} AnswersNotBefore(pair: Pair, target: Bytes)
    requires IsKey(pair.key) && IsKey(target)
    ensures Answers(pair, target) <==> !Before(pair.key, target) && UserPart(pair.key) == UserPart(target)
  {
    LessTotal(UserPart(pair.key), UserPart(target));
  }

  /** A lookup that reports the newest answer, or reports nothing of the sought user key if there is none. */
  ghost predicate Correct(pairs: seq<Pair>, target: Bytes, reported: Option<Pair>) {
    && (reported.Some? && IsKey(target) && IsKey(reported.value.key) && UserPart(reported.value.key) == UserPart(target) ==>
          reported.value in pairs && Answers(reported.value, target))
    && forall e :: e in pairs && Answers(e, target) ==>
         && reported.Some? && Answers(reported.value, target)
         && TagPart(e.key) <= TagPart(reported.value.key)
  }

  /** The first pair that is not before the target is what a lookup must report. */
  lemma {:induction false} FirstIsCorrect(pairs: seq<Pair>, target: Bytes, q: nat)
    requires Increasing(pairs) && IsKey(target) && q < |pairs|
    requires !Before(pairs[q].key, target) && forall p :: 0 <= p < q ==> Before(pairs[p].key, target)
    ensures Correct(pairs, target, Some(pairs[q]))
  {
    AnswersNotBefore(pairs[q], target);
    forall e | e in pairs && Answers(e, target)
      ensures Answers(pairs[q], target) && TagPart(e.key) <= TagPart(pairs[q].key)
    {
      var p :| 0 <= p < |pairs| && pairs[p] == e;
      AnswersNotBefore(e, target);
      BeforeTotal(pairs[q].key, target);
      if p != q {
        assert Before(pairs[q].key, pairs[p].key);
        LessTotal(UserPart(pairs[q].key), UserPart(target));
      }
    }
  }

  lemma {:induction false} NothingIsCorrect(pairs: seq<Pair>, target: Bytes)
    requires Increasing(pairs) && IsKey(target)
    requires forall p :: 0 <= p < |pairs| ==> !Answers(pairs[p], target)
    ensures Correct(pairs, target, None)
  {
  }

  /** If no separator from `n` on is left, every key is before the target. */
  lemma {:induction false} PastTheEnd(crc: Checksum, file: Bytes, pairs: seq<Pair>, chunks: seq<Chunk>, index: seq<Pair>,
                                      target: Bytes, p: nat)
    requires Increasing(pairs) && Chunked(crc, file, pairs, chunks) && Indexed(pairs, chunks, index) && IsKey(target)
    requires |index| == |chunks| && Covered(chunks) == |pairs| && p < |pairs|
    requires forall j :: 0 <= j < |index| ==> Before(index[j].key, target)
    ensures Before(pairs[p].key, target)
  {
    var j := |chunks| - 1;
    assert Placed(crc, file, pairs, chunks, j) && Indexes(pairs, chunks, index, j);
    SeparatorOrder(pairs, chunks[j], index[j].key, p);
    BeforeTotal(pairs[p].key, index[j].key);
    if pairs[p].key != index[j].key {
      BeforeTransitive(pairs[p].key, index[j].key, target);
    }
  }

  /** All keys of the blocks before the one that the index finds are before the target. */
  lemma {:induction false} BeforeTheBlock(crc: Checksum, file: Bytes, pairs: seq<Pair>, chunks: seq<Chunk>,
                                          index: seq<Pair>, target: Bytes, i: nat, p: nat)
    requires Increasing(pairs) && Chunked(crc, file, pairs, chunks) && Indexed(pairs, chunks, index) && IsKey(target)
    requires i < |index| && p < chunks[i].from && p < |pairs|
    requires forall j :: 0 <= j < i ==> Before(index[j].key, target)
    ensures Before(pairs[p].key, target)
  {
    assert Placed(crc, file, pairs, chunks, i) && i > 0;
    var j := i - 1;
    assert chunks[..i][j] == chunks[j];
    assert Placed(crc, file, pairs, chunks, j) && Indexes(pairs, chunks, index, j);
    SeparatorOrder(pairs, chunks[j], index[j].key, p);
    BeforeTotal(pairs[p].key, index[j].key);
    if pairs[p].key != index[j].key {
      BeforeTransitive(pairs[p].key, index[j].key, target);
    }
  }

  /** If a later block has an answer, so does the last pair of the block that the index finds: the separator
      is that pair's key, or no key of the sought user key comes after it. */
  lemma {:induction false} AfterTheBlock(pairs: seq<Pair>, c: Chunk, sep: Bytes, target: Bytes, p: nat)
    requires Increasing(pairs) && c.from < c.to <= |pairs| && Divides(pairs, c, sep) && IsKey(target)
    requires !Before(sep, target) && c.to <= p < |pairs| && Answers(pairs[p], target)
    ensures Answers(pairs[c.to - 1], target)
  {
    var last, next := pairs[c.to - 1], pairs[c.to];
    LaterUser(pairs, c.to, p);
    LaterUser(pairs, c.to - 1, p);
    LessTotal(UserPart(last.key), UserPart(target));
    if Less(UserPart(sep), UserPart(next.key)) {
      // the target's user key is at most the separator's, which is before the next block's
      LessThrough(UserPart(target), UserPart(sep), UserPart(next.key));
    }
    AnswersNotBefore(last, target);
  }

  /** A lookup in the one block that the index finds, at its first pair that is not before the target, gives the
      answer for the whole table; and if no key of the block has the sought user key, there is no answer. */
  lemma {:induction false} BlockAnswers(crc: Checksum, file: Bytes, pairs: seq<Pair>, chunks: seq<Chunk>,
                                        index: seq<Pair>, target: Bytes, i: nat, q: nat)
    requires Increasing(pairs) && Chunked(crc, file, pairs, chunks) && Indexed(pairs, chunks, index) && IsKey(target)
    requires i < |index| && !Before(index[i].key, target) && forall j :: 0 <= j < i ==> Before(index[j].key, target)
    requires chunks[i].from <= q <= chunks[i].to
    requires forall p :: chunks[i].from <= p < q && p < |pairs| ==> Before(pairs[p].key, target)
    ensures q < chunks[i].to && q < |pairs| && !Before(pairs[q].key, target) ==> Correct(pairs, target, Some(pairs[q]))
    ensures q == chunks[i].to ==> Correct(pairs, target, None)
  {
    assert Placed(crc, file, pairs, chunks, i) && Indexes(pairs, chunks, index, i);
    forall p | 0 <= p < q && p < |pairs| ensures Before(pairs[p].key, target) {
      if p < chunks[i].from {
        BeforeTheBlock(crc, file, pairs, chunks, index, target, i, p);
      }
    }
    if q < chunks[i].to {
      if !Before(pairs[q].key, target) {
        FirstIsCorrect(pairs, target, q);
      }
    } else {
      AnswersNotBefore(pairs[q - 1], target);
      forall p | 0 <= p < |pairs| ensures !Answers(pairs[p], target) {
        AnswersNotBefore(pairs[p], target);
        if p >= q && Answers(pairs[p], target) {
          AfterTheBlock(pairs, chunks[i], index[i].key, target, p);
        }
      }
      NothingIsCorrect(pairs, target);
    }
  }

  lemma {:induction false} FilteredOut(crc: Checksum, file: Bytes, pairs: seq<Pair>, chunks: seq<Chunk>,
                                       index: seq<Pair>, target: Bytes, i: nat)
    requires Increasing(pairs) && Chunked(crc, file, pairs, chunks) && Indexed(pairs, chunks, index) && IsKey(target)
    requires i < |index| && !Before(index[i].key, target) && forall j :: 0 <= j < i ==> Before(index[j].key, target)
    requires forall p :: chunks[i].from <= p < chunks[i].to && p < |pairs| ==> !Answers(pairs[p], target)
    ensures Correct(pairs, target, None)
  {
    assert Placed(crc, file, pairs, chunks, i) && Indexes(pairs, chunks, index, i);
    forall p | 0 <= p < |pairs| ensures !Answers(pairs[p], target) {
      if p < chunks[i].from {
        BeforeTheBlock(crc, file, pairs, chunks, index, target, i, p);
        AnswersNotBefore(pairs[p], target);
      } else if p >= chunks[i].to && Answers(pairs[p], target) {
        AfterTheBlock(pairs, chunks[i], index[i].key, target, p);
      }
    }
    NothingIsCorrect(pairs, target);
  }

  lemma {:induction false} LaterUser(pairs: seq<Pair>, i: nat, j: nat)
    requires Increasing(pairs) && i <= j < |pairs|
    ensures IsKey(pairs[i].key) && IsKey(pairs[j].key) && !Less(UserPart(pairs[j].key), UserPart(pairs[i].key))
  {
    LessTotal(UserPart(pairs[i].key), UserPart(pairs[j].key));
    if i < j {
      assert Before(pairs[i].key, pairs[j].key);
    }
  }

  lemma {:induction false} LessThrough(a: Bytes, b: Bytes, c: Bytes)
    requires !Less(b, a) && Less(b, c)
    ensures Less(a, c)
  {
    LessTotal(a, b);
    if a != b {
      LessTransitive(a, b, c);
    }
  }
}
