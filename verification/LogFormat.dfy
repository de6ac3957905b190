/** The format of the write-ahead log, and what reading and writing it mean. */
module LogFormat {
  import opened Coding
  import opened Common

  const BLOCK: nat := 32768

  const HEADER: nat := 7

  /** The checksum of a byte string. */
  type Checksum = seq<Byte> -> Word

  // ----- Masked checksums -----

  const MASK_DELTA: Word := 0xa282ead8

  /** Rotate right by 15 bits and add a constant, in 32 bits. */
  function Mask(crc: Word): Word {
    ((crc / 0x8000 + crc % 0x8000 * 0x2_0000) + MASK_DELTA) % 0x1_0000_0000
  }

  function Unmask(masked: Word): Word {
    var rot := (masked - MASK_DELTA + 0x1_0000_0000) % 0x1_0000_0000;
    rot / 0x2_0000 + rot % 0x2_0000 * 0x8000
  }

  lemma {:induction false} UnmaskMask(crc: Word)
    ensures Unmask(Mask(crc)) == crc
  {
    var hi, lo := crc / 0x8000, crc % 0x8000;
    var rotated := hi + lo * 0x2_0000;
    assert 0 <= hi < 0x2_0000;
    assert rotated / 0x2_0000 == lo && rotated % 0x2_0000 == hi;
    assert crc == hi * 0x8000 + lo;
    MaskShift(rotated);
  }

  lemma {:induction false} MaskShift(rotated: Word)
    ensures ((rotated + MASK_DELTA) % 0x1_0000_0000 - MASK_DELTA + 0x1_0000_0000) % 0x1_0000_0000 == rotated
  {
    if rotated + MASK_DELTA < 0x1_0000_0000 {
      assert (rotated + MASK_DELTA) % 0x1_0000_0000 == rotated + MASK_DELTA;
    } else {
      assert (rotated + MASK_DELTA) % 0x1_0000_0000 == rotated + MASK_DELTA - 0x1_0000_0000;
    }
  }

  // ----- Fragments -----

  const ZERO: nat := 0
  const FULL: nat := 1
  const FIRST: nat := 2
  const MIDDLE: nat := 3
  const LAST: nat := 4
  const EOF: nat := 5
  const BAD_RECORD: nat := 6

  datatype Fragment = Fragment(kind: Byte, payload: seq<Byte>)

  /** A physical record: masked checksum, length, type, payload. */
  function Physical(crc: Checksum, f: Fragment): (r: seq<Byte>)
    requires |f.payload| <= 0xffff
    ensures |r| == HEADER + |f.payload|
  {
    Fixed32(Mask(crc([f.kind] + f.payload))) + [|f.payload| % 256, |f.payload| / 256, f.kind] + f.payload
  }

  /** The offset of a file position in its block. */
  function Offset(pos: nat): (offset: nat)
    ensures offset < BLOCK && offset <= pos
  {
    if pos < BLOCK then pos else Offset(pos - BLOCK)
  }

  lemma {:induction false} OffsetIsRemainder(pos: nat)
    ensures Offset(pos) == pos % BLOCK
  {
    if pos >= BLOCK {
      OffsetIsRemainder(pos - BLOCK);
    }
  }

  lemma {:induction false} OffsetAdd(pos: nat, n: nat)
    requires Offset(pos) + n <= BLOCK
    ensures Offset(pos + n) == if Offset(pos) + n == BLOCK then 0 else Offset(pos) + n
  {
    if pos >= BLOCK {
      OffsetAdd(pos - BLOCK, n);
    }
  }

  /** The zero bytes between `pos` and the next fragment. */
  function Trailer(pos: nat): nat {
    var left := BLOCK - Offset(pos);
    if left < HEADER then left else 0
  }

  function Zeros(n: nat): (z: seq<Byte>)
    ensures |z| == n
  {
    seq(n, _ => 0)
  }

  function StartOf(pos: nat): nat { pos + Trailer(pos) }

  function EndOf(pos: nat, f: Fragment): nat { StartOf(pos) + HEADER + |f.payload| }

  lemma {:induction false} StartInBlock(pos: nat)
    ensures Offset(StartOf(pos)) + HEADER + Room(pos) == BLOCK
    ensures Trailer(pos) > 0 ==> Offset(StartOf(pos)) == 0
  {
    OffsetAdd(pos, Trailer(pos));
  }

  /** The space for a payload in the block of the next fragment. */
  function Room(pos: nat): nat {
    var left := BLOCK - Offset(pos);
    if left < HEADER then BLOCK - HEADER else left - HEADER
  }

  ghost predicate Fits(pos: nat, fs: seq<Fragment>)
    decreases |fs|
  {
    |fs| == 0 || (|fs[0].payload| <= Room(pos) && Fits(EndOf(pos, fs[0]), fs[1..]))
  }

  /** The bytes of fragments laid out from `pos` on. */
  ghost function Layout(crc: Checksum, pos: nat, fs: seq<Fragment>): seq<Byte>
    requires Fits(pos, fs)
    decreases |fs|
  {
    if |fs| == 0 then []
    else Zeros(Trailer(pos)) + Physical(crc, fs[0]) + Layout(crc, EndOf(pos, fs[0]), fs[1..])
  }

  function KindOf(begin: bool, end: bool): Byte {
    if begin && end then FULL else if begin then FIRST else if end then LAST else MIDDLE
  }

  lemma {:induction false} NoRoomThenBlock(pos: nat, f: Fragment)
    requires |f.payload| == Room(pos)
    ensures Offset(EndOf(pos, f)) == 0 && Room(EndOf(pos, f)) == BLOCK - HEADER
  {
    StartInBlock(pos);
    OffsetAdd(StartOf(pos), HEADER + |f.payload|);
  }

  /** The fragments of one record that is written at `pos`. */
  ghost function Split(pos: nat, data: seq<Byte>, begin: bool): (fs: seq<Fragment>)
    ensures |fs| > 0
    decreases 2 * |data| + if Room(pos) == 0 then 1 else 0
  {
    var n := Min(|data|, Room(pos));
    var f := Fragment(KindOf(begin, n == |data|), data[..n]);
    if n == |data| then [f]
    else
      NoRoomThenBlock(pos, f);
      [f] + Split(EndOf(pos, f), data[n..], false)
  }

  ghost function EndOfAll(pos: nat, fs: seq<Fragment>): nat
    decreases |fs|
  {
    if |fs| == 0 then pos else EndOfAll(EndOf(pos, fs[0]), fs[1..])
  }

  /** The fragments of records written one after another from `pos` on. */
  ghost function SplitAll(pos: nat, records: seq<seq<Byte>>): seq<Fragment>
    decreases |records|
  {
    if |records| == 0 then []
    else
      var fs := Split(pos, records[0], true);
      fs + SplitAll(EndOfAll(pos, fs), records[1..])
  }

  lemma {:induction false} SplitFits(pos: nat, data: seq<Byte>, begin: bool)
    ensures Fits(pos, Split(pos, data, begin))
    decreases 2 * |data| + if Room(pos) == 0 then 1 else 0
  {
    var n := Min(|data|, Room(pos));
    var f := Fragment(KindOf(begin, n == |data|), data[..n]);
    if n < |data| {
      NoRoomThenBlock(pos, f);
      SplitFits(EndOf(pos, f), data[n..], false);
      assert Split(pos, data, begin)[1..] == Split(EndOf(pos, f), data[n..], false);
    }
  }

  lemma {:induction false} FitsConcat(pos: nat, fs: seq<Fragment>, gs: seq<Fragment>)
    requires Fits(pos, fs) && Fits(EndOfAll(pos, fs), gs)
    ensures Fits(pos, fs + gs)
    decreases |fs|
  {
    if |fs| > 0 {
      assert (fs + gs)[1..] == fs[1..] + gs;
      FitsConcat(EndOf(pos, fs[0]), fs[1..], gs);
    } else {
      assert fs + gs == gs;
    }
  }

  lemma {:induction false} LayoutConcat(crc: Checksum, pos: nat, fs: seq<Fragment>, gs: seq<Fragment>)
    requires Fits(pos, fs) && Fits(EndOfAll(pos, fs), gs)
    ensures Fits(pos, fs + gs)
    ensures Layout(crc, pos, fs + gs) == Layout(crc, pos, fs) + Layout(crc, EndOfAll(pos, fs), gs)
    ensures pos + |Layout(crc, pos, fs)| == EndOfAll(pos, fs)
    decreases |fs|
  {
    hide Physical, Offset;
    FitsConcat(pos, fs, gs);
    if |fs| > 0 {
      assert (fs + gs)[1..] == fs[1..] + gs;
      LayoutConcat(crc, EndOf(pos, fs[0]), fs[1..], gs);
    } else {
      assert fs + gs == gs;
    }
  }

  lemma {:induction false} SplitAllFits(pos: nat, records: seq<seq<Byte>>)
    ensures Fits(pos, SplitAll(pos, records))
    decreases |records|
  {
    if |records| > 0 {
      var fs := Split(pos, records[0], true);
      SplitFits(pos, records[0], true);
      SplitAllFits(EndOfAll(pos, fs), records[1..]);
      FitsConcat(pos, fs, SplitAll(EndOfAll(pos, fs), records[1..]));
    }
  }

  /** The bytes of one record that is written at `pos`. */
  ghost function Written(crc: Checksum, pos: nat, data: seq<Byte>): seq<Byte> {
    SplitFits(pos, data, true);
    Layout(crc, pos, Split(pos, data, true))
  }

  /** The outputs of writing the records one after another, each at the position where the last ended. */
  ghost function Chain(write: (nat, seq<Byte>) -> seq<Byte>, pos: nat, records: seq<seq<Byte>>): seq<Byte>
    decreases |records|
  {
    if |records| == 0 then []
    else
      var bytes := write(pos, records[0]);
      bytes + Chain(write, pos + |bytes|, records[1..])
  }

  ghost function Writing(crc: Checksum): (nat, seq<Byte>) -> seq<Byte> {
    (pos, data) => Written(crc, pos, data)
  }

  /** The log that holds the records, from a file position on. */
  ghost function LogOf(crc: Checksum, pos: nat, records: seq<seq<Byte>>): seq<Byte> {
    Chain(Writing(crc), pos, records)
  }

  // ----- Reading -----

  /** What one call of ReadPhysicalRecord does at `pos`: the type and fragment it returns, the
      position after it, and whether it reports a corruption. */
  datatype Outcome = Outcome(kind: nat, fragment: seq<Byte>, next: nat, report: bool)

  /** Where the data that is read together with `pos` ends. */
  function BufferEnd(file: seq<Byte>, pos: nat): nat
    requires pos <= |file|
  {
    Min(pos - Offset(pos) + BLOCK, |file|)
  }

  /** The last read came up short. */
  predicate AtEof(file: seq<Byte>, pos: nat)
    requires pos <= |file|
  {
    pos - Offset(pos) + BLOCK > |file|
  }

  /** What the reader makes of a buffer that holds a header: the type and fragment it returns, how
      much of the buffer it uses up, and whether it reports a corruption. */
  datatype Verdict = Verdict(kind: nat, fragment: seq<Byte>, used: nat, report: bool)

  function Decode(crc: Checksum, buffer: seq<Byte>, eof: bool): (v: Verdict)
    requires |buffer| >= HEADER
    ensures 0 < v.used <= |buffer|
  {
    var low: int, high: int := buffer[4], buffer[5];
    var length := low + 256 * high;
    var kind := buffer[6];
    if HEADER + length > |buffer| then
      if eof then Verdict(EOF, [], |buffer|, false) else Verdict(BAD_RECORD, [], |buffer|, true)
    else if kind == ZERO && length == 0 then Verdict(BAD_RECORD, [], |buffer|, false)
    else if crc(buffer[6..HEADER + length]) != Unmask(DecodeFixed32(buffer[..4])) then
      Verdict(BAD_RECORD, [], |buffer|, true)
    else Verdict(kind, buffer[HEADER..HEADER + length], HEADER + length, false)
  }

  function Parse(crc: Checksum, file: seq<Byte>, pos: nat): (o: Outcome)
    requires pos <= |file|
    ensures pos <= o.next <= |file| && (o.kind != EOF ==> pos < o.next)
    decreases |file| - pos
  {
    var bound := BufferEnd(file, pos);
    if bound - pos < HEADER then
      if AtEof(file, pos) then Outcome(EOF, [], |file|, false) else Parse(crc, file, bound)
    else
      var v := Decode(crc, file[pos..bound], AtEof(file, pos));
      Outcome(v.kind, v.fragment, pos + v.used, v.report)
  }

  /** One call of ReadRecord: the record if there is one, the position after it, and the
      number of corruptions reported. */
  datatype Reading = Reading(record: Option<seq<Byte>>, next: nat, reports: nat)

  /** What a physical record does to the logical record that is being put together. */
  datatype Progress =
    | Finished(record: Option<seq<Byte>>, reports: nat)
    | More(inFragment: bool, scratch: seq<Byte>, reports: nat)

  function Assemble(kind: nat, fragment: seq<Byte>, inFragment: bool, scratch: seq<Byte>, reports: nat): (p: Progress)
    ensures kind == EOF ==> p.Finished? && p.record.None?
    ensures kind != EOF && p.Finished? ==> p.record.Some?
  {
    if kind == FULL then
      Finished(Some(fragment), if inFragment && |scratch| > 0 then reports + 1 else reports)
    else if kind == FIRST then
      More(true, fragment, if inFragment && |scratch| > 0 then reports + 1 else reports)
    else if kind == MIDDLE then
      if inFragment then More(true, scratch + fragment, reports) else More(false, scratch, reports + 1)
    else if kind == LAST then
      if inFragment then Finished(Some(scratch + fragment), reports) else More(false, scratch, reports + 1)
    else if kind == EOF then Finished(None, reports)
    else if kind == BAD_RECORD then
      if inFragment then More(false, [], reports + 1) else More(false, scratch, reports)
    else More(false, [], reports + 1)
  }

  function ReadFrom(crc: Checksum, file: seq<Byte>, pos: nat, inFragment: bool, scratch: seq<Byte>, reports: nat): (r: Reading)
    requires pos <= |file|
    ensures pos <= r.next <= |file| && (r.record.Some? ==> pos < r.next)
    decreases |file| - pos
  {
    var o := Parse(crc, file, pos);
    match Assemble(o.kind, o.fragment, inFragment, scratch, if o.report then reports + 1 else reports)
    case Finished(record, seen) => Reading(record, o.next, seen)
    case More(inFragment', scratch', seen) => ReadFrom(crc, file, o.next, inFragment', scratch', seen)
  }

  /** All records that repeated calls of ReadRecord return, and the corruptions reported by then. */
  function ReadAll(crc: Checksum, file: seq<Byte>, pos: nat, reports: nat): (seq<seq<Byte>>, nat)
    requires pos <= |file|
    decreases |file| - pos
  {
    var r := ReadFrom(crc, file, pos, false, [], reports);
    match r.record
    case None => ([], r.reports)
    case Some(record) =>
      var rest := ReadAll(crc, file, r.next, r.reports);
      ([record] + rest.0, rest.1)
  }
}
