/** What reading a log, or any byte prefix of it, gives back. */
module LogRecovery {
  import opened Coding
  import opened Common
  import opened LogFormat

  /** The file from `pos` on is the start of the layout of `fs`. */
  ghost predicate Holds(crc: Checksum, file: seq<Byte>, pos: nat, fs: seq<Fragment>) {
    pos <= |file| && Fits(pos, fs) && file[pos..] <= Layout(crc, pos, fs)
  }

  predicate Typed(fs: seq<Fragment>) {
    forall f <- fs :: FULL <= f.kind <= LAST
  }

  lemma {:induction false} PrefixAt(a: seq<Byte>, b: seq<Byte>, lo: nat, hi: nat)
    requires a <= b && lo <= hi <= |a|
    ensures a[lo..hi] == b[lo..hi] && a[lo..] <= b[lo..]
  {
  }

  lemma {:induction false} EndInBlock(pos: nat, f: Fragment)
    requires |f.payload| <= Room(pos)
    ensures var start := StartOf(pos);
            EndOf(pos, f) <= start - Offset(start) + BLOCK
  {
    StartInBlock(pos);
  }

  /** The header of the fragment at a start position. */
  lemma {:induction false} HeaderBytes(crc: Checksum, f: Fragment)
    requires |f.payload| <= 0xffff
    ensures var b := Physical(crc, f);
            && DecodeFixed32(b[..4]) == Mask(crc([f.kind] + f.payload))
            && b[4] as int + 256 * b[5] as int == |f.payload|
            && b[6] == f.kind
            && b[6..] == [f.kind] + f.payload
            && b[HEADER..] == f.payload
  {
    var b := Physical(crc, f);
    var mask := Fixed32(Mask(crc([f.kind] + f.payload)));
    Fixed32RoundTrip(Mask(crc([f.kind] + f.payload)));
    assert b[..4] == mask;
    assert b[4] == |f.payload| % 256 && b[5] == |f.payload| / 256;
  }

  /** A fragment that is wholly in the buffer is read back with its type. */
  lemma {:induction false} DecodeWhole(crc: Checksum, buffer: seq<Byte>, f: Fragment, eof: bool)
    requires |f.payload| <= 0xffff && Physical(crc, f) <= buffer
    requires FULL <= f.kind <= LAST
    ensures Decode(crc, buffer, eof) == Verdict(f.kind, f.payload, HEADER + |f.payload|, false)
  {
    var n := HEADER + |f.payload|;
    var b := Physical(crc, f);
    HeaderBytes(crc, f);
    assert buffer[..4] == b[..4];
    assert buffer[4] == b[4] && buffer[5] == b[5] && buffer[6] == b[6];
    assert buffer[6..n] == b[6..];
    assert buffer[HEADER..n] == b[HEADER..];
    UnmaskMask(crc([f.kind] + f.payload));
  }

  lemma {:induction false} SliceStart(file: seq<Byte>, start: nat, bound: nat, n: nat)
    requires start + n <= bound <= |file|
    ensures file[start..bound][..n] == file[start..start + n]
  {
  }

  lemma {:induction false} ParseWhole(crc: Checksum, file: seq<Byte>, start: nat, f: Fragment)
    requires Trailer(start) == 0 && |f.payload| <= Room(start)
    requires start + HEADER + |f.payload| <= |file|
    requires file[start..start + HEADER + |f.payload|] == Physical(crc, f)
    requires FULL <= f.kind <= LAST
    ensures Parse(crc, file, start) == Outcome(f.kind, f.payload, start + HEADER + |f.payload|, false)
  {
    EndInBlock(start, f);
    var bound := BufferEnd(file, start);
    SliceStart(file, start, bound, HEADER + |f.payload|);
    DecodeWhole(crc, file[start..bound], f, AtEof(file, start));
  }

  /** A fragment that the file ends inside of is the end of the file, not a corruption. */
  lemma {:induction false} ParseTorn(crc: Checksum, file: seq<Byte>, start: nat, f: Fragment)
    requires Trailer(start) == 0 && |f.payload| <= Room(start)
    requires start <= |file| < start + HEADER + |f.payload|
    requires file[start..] <= Physical(crc, f)
    ensures Parse(crc, file, start) == Outcome(EOF, [], |file|, false)
  {
    EndInBlock(start, f);
    assert BufferEnd(file, start) == |file| && AtEof(file, start);
    if |file| - start >= HEADER {
      HeaderBytes(crc, f);
      var b := Physical(crc, f);
      var buffer := file[start..|file|];
      assert buffer == file[start..];
      assert buffer[4] == b[4] && buffer[5] == b[5];
    }
  }

  /** The trailer of a block is skipped. */
  lemma {:induction false} ParseTrailer(crc: Checksum, file: seq<Byte>, pos: nat)
    requires pos <= |file|
    ensures StartOf(pos) <= |file| ==> Parse(crc, file, pos) == Parse(crc, file, StartOf(pos))
    ensures StartOf(pos) > |file| ==> Parse(crc, file, pos) == Outcome(EOF, [], |file|, false)
    ensures pos == |file| ==> Parse(crc, file, pos) == Outcome(EOF, [], |file|, false)
  {
    if Trailer(pos) > 0 {
      OffsetAdd(pos, Trailer(pos));
    }
  }

  /** The part of a truncated concatenation that belongs to its middle piece, and what follows. */
  lemma {:induction false} MiddlePiece(file: seq<Byte>, pos: nat, gap: seq<Byte>, body: seq<Byte>, rest: seq<Byte>)
    requires pos <= |file| && file[pos..] <= gap + body + rest
    ensures var start, end := pos + |gap|, pos + |gap| + |body|;
            && (end <= |file| ==> file[start..end] == body && file[end..] <= rest)
            && (start <= |file| < end ==> file[start..] <= body)
  {
    var start, end := pos + |gap|, pos + |gap| + |body|;
    var all := gap + body + rest;
    if end <= |file| {
      PrefixAt(file[pos..], all, start - pos, end - pos);
      assert file[start..end] == file[pos..][start - pos..end - pos];
      assert all[start - pos..end - pos] == body;
      PrefixAt(file[pos..], all, end - pos, end - pos);
      assert file[end..] == file[pos..][end - pos..];
      assert all[end - pos..] == rest;
    } else if start <= |file| {
      PrefixAt(file[pos..], all, start - pos, |file| - pos);
      assert file[start..] == file[pos..][start - pos..|file| - pos];
      assert all[start - pos..|file| - pos] == body[..|file| - start];
    }
  }

  lemma {:induction false} NoGapAtStart(pos: nat)
    ensures Trailer(StartOf(pos)) == 0 && Room(StartOf(pos)) == Room(pos)
  {
    StartInBlock(pos);
  }

  /** A read of the next block does not change what is parsed. */
  lemma {:induction false} ParseAfterRead(crc: Checksum, file: seq<Byte>, pos: nat, loaded: nat)
    requires pos <= loaded <= |file|
    requires loaded == pos || (loaded == BufferEnd(file, pos) && !AtEof(file, pos) && loaded - pos < HEADER)
    ensures Parse(crc, file, pos) == Parse(crc, file, loaded)
  {
  }

  lemma {:induction false} ParseLayout(crc: Checksum, file: seq<Byte>, pos: nat, fs: seq<Fragment>)
    requires Holds(crc, file, pos, fs) && Typed(fs)
    ensures var o := Parse(crc, file, pos);
            if |fs| > 0 && EndOf(pos, fs[0]) <= |file|
            then o == Outcome(fs[0].kind, fs[0].payload, EndOf(pos, fs[0]), false)
                 && Holds(crc, file, EndOf(pos, fs[0]), fs[1..])
            else o == Outcome(EOF, [], |file|, false)
  {
    ParseTrailer(crc, file, pos);
    if |fs| == 0 {
      assert |file[pos..]| == 0;
    } else if StartOf(pos) <= |file| {
      var f := fs[0];
      MiddlePiece(file, pos, Zeros(Trailer(pos)), Physical(crc, f), Layout(crc, EndOf(pos, f), fs[1..]));
      NoGapAtStart(pos);
      if EndOf(pos, f) <= |file| {
        ParseWhole(crc, file, StartOf(pos), f);
      } else {
        ParseTorn(crc, file, StartOf(pos), f);
      }
    }
  }

  lemma {:induction false} SplitTyped(pos: nat, data: seq<Byte>, begin: bool)
    ensures Typed(Split(pos, data, begin))
    decreases 2 * |data| + if Room(pos) == 0 then 1 else 0
  {
    var n := Min(|data|, Room(pos));
    var f := Fragment(KindOf(begin, n == |data|), data[..n]);
    if n < |data| {
      NoRoomThenBlock(pos, f);
      SplitTyped(EndOf(pos, f), data[n..], false);
    }
  }

  /** The first fragment of a record, and the end of all of them. */
  lemma {:induction false} SplitStep(pos: nat, data: seq<Byte>, begin: bool, rest: seq<Fragment>)
    ensures var n := Min(|data|, Room(pos));
            var f := Fragment(KindOf(begin, n == |data|), data[..n]);
            var fs := Split(pos, data, begin);
            && fs[0] == f
            && (fs + rest)[0] == f
            && (n == |data| ==> EndOfAll(pos, fs) == EndOf(pos, f) && (fs + rest)[1..] == rest && f.payload == data)
            && (n < |data| ==> EndOfAll(pos, fs) == EndOfAll(EndOf(pos, f), Split(EndOf(pos, f), data[n..], false))
                               && (fs + rest)[1..] == Split(EndOf(pos, f), data[n..], false) + rest)
            && EndOfAll(pos, fs) >= EndOf(pos, f)
  {
    var n := Min(|data|, Room(pos));
    var f := Fragment(KindOf(begin, n == |data|), data[..n]);
    var fs := Split(pos, data, begin);
    assert (fs + rest)[1..] == fs[1..] + rest;
    EndGrows(EndOf(pos, f), fs[1..]);
    if n < |data| {
      NoRoomThenBlock(pos, f);
      assert fs[1..] == Split(EndOf(pos, f), data[n..], false);
    } else {
      assert fs[1..] == [] && [] + rest == rest;
      assert data[..n] == data;
    }
  }

  lemma {:induction false} LayoutSnoc(crc: Checksum, pos: nat, fs: seq<Fragment>, f: Fragment)
    requires Fits(pos, fs) && |f.payload| <= Room(EndOfAll(pos, fs))
    ensures Fits(pos, fs + [f]) && EndOfAll(pos, fs + [f]) == EndOf(EndOfAll(pos, fs), f)
    ensures Layout(crc, pos, fs + [f]) ==
            Layout(crc, pos, fs) + Zeros(Trailer(EndOfAll(pos, fs))) + Physical(crc, f)
    decreases |fs|
  {
    if |fs| == 0 {
      assert fs + [f] == [f] && [f][1..] == [];
    } else {
      assert (fs + [f])[1..] == fs[1..] + [f];
      LayoutSnoc(crc, EndOf(pos, fs[0]), fs[1..], f);
    }
  }

  /** What a fragment in its place does to the reader. */
  lemma {:induction false} ReadStep(crc: Checksum, file: seq<Byte>, pos: nat, begin: bool, end: bool,
                                    payload: seq<Byte>, next: nat, scratch: seq<Byte>)
    requires pos < next <= |file|
    requires Parse(crc, file, pos) == Outcome(KindOf(begin, end), payload, next, false)
    requires begin ==> scratch == []
    ensures ReadFrom(crc, file, pos, !begin, scratch, 0) ==
            if end then Reading(Some(scratch + payload), next, 0)
            else ReadFrom(crc, file, next, true, scratch + payload, 0)
  {
    if begin {
      assert scratch + payload == payload;
    }
  }

  lemma {:induction false} JoinSplit(scratch: seq<Byte>, data: seq<Byte>, n: nat)
    requires n <= |data|
    ensures scratch + data[..n] + data[n..] == scratch + data
  {
  }

  /** Reading the fragments of one record gives the record if all of them are in the file, and
      nothing, with no corruption, otherwise. */
  lemma {:induction false} ReadSplit(crc: Checksum, file: seq<Byte>, pos: nat, data: seq<Byte>, begin: bool,
                                     rest: seq<Fragment>, scratch: seq<Byte>)
    requires Holds(crc, file, pos, Split(pos, data, begin) + rest) && Typed(rest)
    requires begin ==> scratch == []
    ensures var end := EndOfAll(pos, Split(pos, data, begin));
            var r := ReadFrom(crc, file, pos, !begin, scratch, 0);
            if end <= |file| then r == Reading(Some(scratch + data), end, 0) && Holds(crc, file, end, rest)
            else r == Reading(None, |file|, 0)
    decreases 2 * |data| + if Room(pos) == 0 then 1 else 0
  {
    var n := Min(|data|, Room(pos));
    var f := Fragment(KindOf(begin, n == |data|), data[..n]);
    var next := EndOf(pos, f);
    SplitTyped(pos, data, begin);
    SplitStep(pos, data, begin, rest);
    ParseLayout(crc, file, pos, Split(pos, data, begin) + rest);
    if next <= |file| {
      ReadStep(crc, file, pos, begin, n == |data|, f.payload, next, scratch);
      if n < |data| {
        NoRoomThenBlock(pos, f);
        ReadSplit(crc, file, next, data[n..], false, rest, scratch + data[..n]);
        JoinSplit(scratch, data, n);
      }
    }
  }

  lemma {:induction false} EndGrows(pos: nat, fs: seq<Fragment>)
    ensures EndOfAll(pos, fs) >= pos
    decreases |fs|
  {
    if |fs| > 0 {
      EndGrows(EndOf(pos, fs[0]), fs[1..]);
    }
  }

  lemma {:induction false} SplitAllTyped(pos: nat, records: seq<seq<Byte>>)
    ensures Typed(SplitAll(pos, records))
    decreases |records|
  {
    if |records| > 0 {
      SplitTyped(pos, records[0], true);
      SplitAllTyped(EndOfAll(pos, Split(pos, records[0], true)), records[1..]);
    }
  }

  lemma {:induction false} WrittenLength(crc: Checksum, pos: nat, data: seq<Byte>)
    ensures pos + |Written(crc, pos, data)| == EndOfAll(pos, Split(pos, data, true))
  {
    var fs := Split(pos, data, true);
    SplitFits(pos, data, true);
    LayoutConcat(crc, pos, fs, []);
  }

  /** A log is the layout of the fragments of its records. */
  lemma {:induction false} LogIsLayout(crc: Checksum, pos: nat, records: seq<seq<Byte>>)
    ensures Fits(pos, SplitAll(pos, records))
    ensures LogOf(crc, pos, records) == Layout(crc, pos, SplitAll(pos, records))
    decreases |records|
  {
    SplitAllFits(pos, records);
    if |records| > 0 {
      var fs := Split(pos, records[0], true);
      SplitFits(pos, records[0], true);
      SplitAllFits(EndOfAll(pos, fs), records[1..]);
      WrittenLength(crc, pos, records[0]);
      LogIsLayout(crc, EndOfAll(pos, fs), records[1..]);
      LayoutConcat(crc, pos, fs, SplitAll(EndOfAll(pos, fs), records[1..]));
    }
  }

  lemma {:induction false} ChainConcat(write: (nat, seq<Byte>) -> seq<Byte>, pos: nat,
                                       first: seq<seq<Byte>>, second: seq<seq<Byte>>)
    ensures Chain(write, pos, first + second) ==
            Chain(write, pos, first) + Chain(write, pos + |Chain(write, pos, first)|, second)
    decreases |first|
  {
    if |first| == 0 {
      assert first + second == second;
    } else {
      assert (first + second)[1..] == first[1..] + second;
      ChainConcat(write, pos + |write(pos, first[0])|, first[1..], second);
    }
  }

  lemma {:induction false} ChainPrefix(write: (nat, seq<Byte>) -> seq<Byte>, pos: nat, records: seq<seq<Byte>>, k: nat)
    requires 0 < k <= |records|
    ensures var bytes := write(pos, records[0]);
            |Chain(write, pos, records[..k])| == |bytes| + |Chain(write, pos + |bytes|, records[1..][..k - 1])|
  {
    assert records[..k][1..] == records[1..][..k - 1];
  }

  /** Writing on after a log gives the log of all the records, wherever it was left off. */
  lemma {:induction false} LogConcat(crc: Checksum, pos: nat, first: seq<seq<Byte>>, second: seq<seq<Byte>>)
    ensures LogOf(crc, pos, first + second) ==
            LogOf(crc, pos, first) + LogOf(crc, pos + |LogOf(crc, pos, first)|, second)
  {
    ChainConcat(Writing(crc), pos, first, second);
  }

  /** Where the first `k` records end. */
  lemma {:induction false} EndOfPrefix(crc: Checksum, pos: nat, records: seq<seq<Byte>>, k: nat)
    requires 0 < k <= |records|
    ensures var end := EndOfAll(pos, Split(pos, records[0], true));
            && pos + |LogOf(crc, pos, records[..k])| == end + |LogOf(crc, end, records[1..][..k - 1])|
  {
    hide Split, EndOfAll, Layout;
    ChainPrefix(Writing(crc), pos, records, k);
    WrittenLength(crc, pos, records[0]);
  }

  lemma {:induction false} ConsTake(records: seq<seq<Byte>>, k: nat)
    requires 0 < k <= |records|
    ensures [records[0]] + records[1..][..k - 1] == records[..k]
    ensures records[0] == [] + records[0]
  {
  }

  /** Reading stops after the records that are wholly in the file. */
  lemma {:induction false} ReadsFrom(crc: Checksum, file: seq<Byte>, pos: nat, records: seq<seq<Byte>>, k: nat)
    requires Holds(crc, file, pos, SplitAll(pos, records))
    requires k <= |records|
    requires pos + |LogOf(crc, pos, records[..k])| <= |file|
    requires k < |records| ==> |file| < pos + |LogOf(crc, pos, records[..k + 1])|
    ensures ReadAll(crc, file, pos, 0) == (records[..k], 0)
    decreases |records|
  {
    if |records| == 0 {
      ParseLayout(crc, file, pos, []);
    } else {
      var end := EndOfAll(pos, Split(pos, records[0], true));
      SplitAllTyped(end, records[1..]);
      ReadSplit(crc, file, pos, records[0], true, SplitAll(end, records[1..]), []);
      if k < |records| {
        EndOfPrefix(crc, pos, records, k + 1);
      }
      if k > 0 {
        EndOfPrefix(crc, pos, records, k);
        ReadsFrom(crc, file, end, records[1..], k - 1);
        ConsTake(records, k);
      } else {
        assert records[1..][..0] == [];
      }
    }
  }

  /** Crash recovery: when the log of `records` was cut short at any byte, reading it returns exactly
      the records that are wholly inside what is left, and reports no corruption. */
  lemma {:induction false} CrashRecovery(crc: Checksum, records: seq<seq<Byte>>, cut: nat, k: nat)
    requires cut <= |LogOf(crc, 0, records)|
    requires k <= |records| && |LogOf(crc, 0, records[..k])| <= cut
    requires k < |records| ==> cut < |LogOf(crc, 0, records[..k + 1])|
    ensures ReadAll(crc, LogOf(crc, 0, records)[..cut], 0, 0) == (records[..k], 0)
  {
    LogIsLayout(crc, 0, records);
    var file := LogOf(crc, 0, records)[..cut];
    assert file[0..] == file;
    ReadsFrom(crc, file, 0, records, k);
  }

  /** Every cut has such a number of whole records. */
  lemma {:induction false} WholeRecordsExist(crc: Checksum, records: seq<seq<Byte>>, cut: nat) returns (k: nat)
    requires cut <= |LogOf(crc, 0, records)|
    ensures k <= |records| && |LogOf(crc, 0, records[..k])| <= cut
    ensures k < |records| ==> cut < |LogOf(crc, 0, records[..k + 1])|
    ensures ReadAll(crc, LogOf(crc, 0, records)[..cut], 0, 0) == (records[..k], 0)
  {
    k := 0;
    while k < |records| && |LogOf(crc, 0, records[..k + 1])| <= cut
      invariant k <= |records| && |LogOf(crc, 0, records[..k])| <= cut
    {
      k := k + 1;
    }
    CrashRecovery(crc, records, cut, k);
  }

  /** Reading undoes writing. */
  lemma {:induction false} ReadUndoesWrite(crc: Checksum, records: seq<seq<Byte>>)
    ensures ReadAll(crc, LogOf(crc, 0, records), 0, 0) == (records, 0)
  {
    var file := LogOf(crc, 0, records);
    assert file[..|file|] == file && records[..|records|] == records;
    CrashRecovery(crc, records, |file|, |records|);
  }
}
