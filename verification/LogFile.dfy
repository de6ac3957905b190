/** Writer and reader of the write-ahead log. */
module LogFile {
  import opened Coding
  import opened Common
  import opened LogFormat
  import opened LogRecovery

  /** The first fragment of what is left of a record, and the rest of them. */
  lemma {:induction false} NextFragment(pos: nat, slice: seq<Byte>, ptr: nat, begin: bool)
    requires ptr <= |slice|
    ensures var n := Min(|slice| - ptr, Room(pos));
            var end := n == |slice| - ptr;
            var f := Fragment(KindOf(begin, end), slice[ptr..ptr + n]);
            && (Split(pos, slice[ptr..], begin) ==
                [f] + if end then [] else Split(EndOf(pos, f), slice[ptr + n..], false))
            && (end || n > 0 || (Room(pos) == 0 && Room(EndOf(pos, f)) > 0))
  {
    var n := Min(|slice| - ptr, Room(pos));
    var end := n == |slice| - ptr;
    var f := Fragment(KindOf(begin, end), slice[ptr..ptr + n]);
    assert slice[ptr..][..n] == slice[ptr..ptr + n];
    if !end {
      NoRoomThenBlock(pos, f);
      assert slice[ptr..][n..] == slice[ptr + n..];
    } else {
      assert [f] + [] == [f];
    }
  }

  lemma {:induction false} Appended(crc: Checksum, start: seq<Byte>, done: seq<Fragment>, f: Fragment,
                                    before: seq<Byte>, after: seq<Byte>)
    requires Fits(|start|, done) && before == start + Layout(crc, |start|, done)
    requires EndOfAll(|start|, done) == |before| && |f.payload| <= Room(|before|)
    requires after == before + Zeros(Trailer(|before|)) + Physical(crc, f)
    ensures Fits(|start|, done + [f]) && after == start + Layout(crc, |start|, done + [f])
    ensures EndOfAll(|start|, done + [f]) == |after| == EndOf(|before|, f)
  {
    LayoutSnoc(crc, |start|, done, f);
  }

  /** A fragment moves from what is left of a record to what is done. */
  lemma {:induction false} MoveFragment(pos: nat, slice: seq<Byte>, ptr: nat, begin: bool, done: seq<Fragment>,
                                        all: seq<Fragment>)
    requires ptr <= |slice| && done + Split(pos, slice[ptr..], begin) == all
    ensures var n := Min(|slice| - ptr, Room(pos));
            var end := n == |slice| - ptr;
            var f := Fragment(KindOf(begin, end), slice[ptr..ptr + n]);
            && (end ==> done + [f] == all)
            && (!end ==> done + [f] + Split(EndOf(pos, f), slice[ptr + n..], false) == all)
            && (end || n > 0 || (Room(pos) == 0 && Room(EndOf(pos, f)) > 0))
  {
    hide Split, Room, KindOf;
    var n := Min(|slice| - ptr, Room(pos));
    var f := Fragment(KindOf(begin, n == |slice| - ptr), slice[ptr..ptr + n]);
    NextFragment(pos, slice, ptr, begin);
    if n < |slice| - ptr {
      var rest := Split(EndOf(pos, f), slice[ptr + n..], false);
      assert done + ([f] + rest) == done + [f] + rest;
    }
  }

  /** Appends records to a file. */
  class Writer {
    const crc: Checksum
    var dest: seq<Byte>
    var blockOffset: nat

    predicate Valid()
      reads this
    {
      || blockOffset == Offset(|dest|)
      || (blockOffset == BLOCK && Offset(|dest|) == 0)
    }

    constructor (crc: Checksum, dest: seq<Byte>)
      ensures Valid() && this.crc == crc && this.dest == dest
    {
      this.crc, this.dest := crc, dest;
      blockOffset := Offset(|dest|);
    }

    method AddRecord(slice: seq<Byte>)
      requires Valid()
      modifies this
      ensures Valid()
      ensures dest == old(dest) + Written(crc, old(|dest|), slice)
    {
      hide Writer.WrittenSoFar, Split, Room, Written, EndOfAll, Layout, Fits;
      var ptr, left, begin, more := 0, |slice|, true, true;
      ghost var done: seq<Fragment> := [];
      ghost var all := Split(|dest|, slice, true);
      SplitFits(|dest|, slice, true);
      assert done + all == all && slice[0..] == slice;
      NothingWritten();
      while more
        invariant Valid() && 0 <= ptr <= |slice| && left == |slice| - ptr
        invariant WrittenSoFar(old(dest), done)
        invariant more ==> done + Split(|dest|, slice[ptr..], begin) == all
        invariant !more ==> done == all
        decreases more, 2 * left + if Room(|dest|) == 0 then 1 else 0
      {
        hide Writer.WrittenSoFar, Split, Room;
        var fragmentLength;
        fragmentLength, done := EmitNext(slice, ptr, begin, old(dest), done, all);
        ptr := ptr + fragmentLength;
        left := left - fragmentLength;
        begin := false;
        more := left > 0;
      }
      AllWritten(old(dest), slice);
    }

    lemma {:induction false} NothingWritten()
      ensures WrittenSoFar(dest, [])
    {
      assert dest + [] == dest;
    }

    lemma {:induction false} AllWritten(start: seq<Byte>, slice: seq<Byte>)
      requires WrittenSoFar(start, Split(|start|, slice, true))
      ensures dest == start + Written(crc, |start|, slice)
    {
    }

    /** The fragments that are done have been appended to `start`. */
    ghost predicate WrittenSoFar(start: seq<Byte>, done: seq<Fragment>)
      reads `dest
    {
      Fits(|start|, done) && dest == start + Layout(crc, |start|, done) && EndOfAll(|start|, done) == |dest|
    }

    /** The next fragment of the record. */
    method EmitNext(slice: seq<Byte>, ptr: nat, begin: bool, ghost start: seq<Byte>, ghost done: seq<Fragment>, ghost all: seq<Fragment>)
      returns (fragmentLength: nat, ghost done': seq<Fragment>)
      requires Valid() && ptr <= |slice| && WrittenSoFar(start, done)
      requires done + Split(|dest|, slice[ptr..], begin) == all
      modifies this
      ensures Valid() && ptr + fragmentLength <= |slice| && WrittenSoFar(start, done')
      ensures ptr + fragmentLength == |slice| ==> done' == all
      ensures ptr + fragmentLength < |slice| ==>
        && done' + Split(|dest|, slice[ptr + fragmentLength..], false) == all
        && (fragmentLength > 0 || (Room(old(|dest|)) == 0 && Room(|dest|) > 0))
    {
      hide Split, Layout, Fits, EndOfAll;
      ghost var before := dest;
      var kind;
      fragmentLength, kind := EmitFragment(slice, ptr, begin);
      ghost var f := Fragment(kind, slice[ptr..ptr + fragmentLength]);
      MoveFragment(|before|, slice, ptr, begin, done, all);
      Appended(crc, start, done, f, before, dest);
      done' := done + [f];
    }

    /** Emit as much of the record from `ptr` on as the block takes. */
    method EmitFragment(slice: seq<Byte>, ptr: nat, begin: bool) returns (fragmentLength: nat, kind: Byte)
      requires Valid() && ptr <= |slice|
      modifies this
      ensures Valid()
      ensures fragmentLength == Min(|slice| - ptr, Room(old(|dest|)))
      ensures kind == KindOf(begin, fragmentLength == |slice| - ptr)
      ensures dest == old(dest) + Zeros(Trailer(old(|dest|))) + Physical(crc, Fragment(kind, slice[ptr..ptr + fragmentLength]))
    {
      SwitchBlock();
      var left, avail := |slice| - ptr, BLOCK - blockOffset - HEADER;
      fragmentLength := if left < avail then left else avail;
      var end := left == fragmentLength;
      kind := if begin && end then FULL else if begin then FIRST else if end then LAST else MIDDLE;
      EmitPhysicalRecord(kind, slice[ptr..ptr + fragmentLength]);
    }

    /** Fill the rest of a block that has no space for a header. */
    method SwitchBlock()
      requires Valid()
      modifies this
      ensures Valid()
      ensures dest == old(dest) + Zeros(Trailer(old(|dest|)))
      ensures |dest| == StartOf(old(|dest|))
      ensures BLOCK - blockOffset - HEADER == Room(old(|dest|))
    {
      StartInBlock(|dest|);
      var leftover := BLOCK - blockOffset;
      if leftover < HEADER {
        if leftover > 0 {
          dest := dest + Zeros(leftover);
        }
        blockOffset := 0;
      }
    }

    method EmitPhysicalRecord(kind: Byte, data: seq<Byte>)
      requires Valid() && blockOffset + HEADER + |data| <= BLOCK
      modifies this
      ensures Valid()
      ensures dest == old(dest) + Physical(crc, Fragment(kind, data))
    {
      var header := Fixed32(Mask(crc([kind] + data))) + [|data| % 256, |data| / 256, kind];
      dest := dest + header;
      dest := dest + data;
      OffsetAdd(old(|dest|), HEADER + |data|);
      blockOffset := blockOffset + HEADER + |data|;
    }
  }

  /** Reads the records of a file from its start. */
  class Reader {
    const crc: Checksum
    const file: seq<Byte>
    var loaded: nat
    var buffer: seq<Byte>
    var eof: bool
    var reports: nat

    predicate Valid()
      reads `loaded, `buffer, `eof
    {
      && |buffer| <= loaded <= |file|
      && buffer == file[loaded - |buffer|..loaded]
      && (buffer == [] ==> if eof then loaded == |file| else Offset(loaded) == 0)
      && (buffer != [] ==> loaded == BufferEnd(file, loaded - |buffer|) && eof == AtEof(file, loaded - |buffer|))
    }

    function Pos(): nat
      requires Valid()
      reads `loaded, `buffer, `eof
    {
      loaded - |buffer|
    }

    constructor (crc: Checksum, file: seq<Byte>)
      ensures Valid() && Pos() == 0 && reports == 0 && this.crc == crc && this.file == file
    {
      this.crc, this.file := crc, file;
      loaded, buffer, eof, reports := 0, [], false, 0;
    }

    method Consume(n: nat)
      requires Valid() && n <= |buffer|
      modifies `buffer
      ensures Valid() && Pos() == old(Pos()) + n
    {
      OffsetAdd(Pos(), n);
      buffer := buffer[n..];
    }

    /** After what was read comes a block. */
    static lemma {:induction false} NextBlock(file: seq<Byte>, pos: nat, loaded: nat)
      requires pos <= loaded <= |file| && (if pos == loaded then Offset(loaded) == 0 else loaded == BufferEnd(file, pos) && !AtEof(file, pos))
      ensures Offset(loaded) == 0
      ensures BufferEnd(file, loaded) == Min(loaded + BLOCK, |file|) && (AtEof(file, loaded) <==> |file| < loaded + BLOCK)
      ensures loaded + BLOCK <= |file| ==> Offset(loaded + BLOCK) == 0
    {
      OffsetAdd(pos, BLOCK - Offset(pos));
      OffsetAdd(loaded, BLOCK);
    }

    /** The next read of the file, of one block. */
    method ReadBlock()
      requires Valid() && |buffer| < HEADER && !eof
      modifies this
      ensures Valid() && reports == old(reports) && Pos() == old(loaded)
      ensures eof || loaded == old(loaded) + BLOCK
      ensures Parse(crc, file, Pos()) == Parse(crc, file, old(Pos()))
    {
      hide Offset, Parse;
      ParseAfterRead(crc, file, Pos(), loaded);
      NextBlock(file, Pos(), loaded);
      var bound := BufferEnd(file, loaded);
      loaded, buffer := bound, file[loaded..bound];
      if |buffer| < BLOCK {
        eof := true;
      }
    }

    /** Make the buffer hold a header, unless the file ends first. */
    method Fill()
      requires Valid()
      modifies this
      ensures Valid() && reports == old(reports)
      ensures Parse(crc, file, Pos()) == Parse(crc, file, old(Pos()))
      ensures |buffer| >= HEADER || eof
    {
      while |buffer| < HEADER && !eof
        invariant Valid() && reports == old(reports)
        invariant Parse(crc, file, Pos()) == Parse(crc, file, old(Pos()))
        decreases !eof, |file| - loaded
      {
        ReadBlock();
      }
    }

    method ReadPhysicalRecord() returns (kind: nat, result: seq<Byte>)
      requires Valid()
      modifies this
      ensures Valid()
      ensures var o := Parse(crc, file, old(Pos()));
              && kind == o.kind && result == o.fragment && Pos() == o.next
              && reports == old(reports) + if o.report then 1 else 0
    {
      Fill();
      if |buffer| < HEADER {
        buffer := [];
        return EOF, [];
      }
      kind, result := ParseHeader();
    }

    /** Take the physical record off the buffer that holds its header. */
    method ParseHeader() returns (kind: nat, result: seq<Byte>)
      requires Valid() && |buffer| >= HEADER
      modifies `buffer, `reports
      ensures Valid()
      ensures var v := Decode(crc, old(buffer), eof);
              && kind == v.kind && result == v.fragment && Pos() == old(Pos()) + v.used
              && reports == old(reports) + if v.report then 1 else 0
    {
      var low: int, high: int := buffer[4], buffer[5];
      var length := low + 256 * high;
      if HEADER + length > |buffer| {
        Consume(|buffer|);
        if !eof {
          reports := reports + 1;
          return BAD_RECORD, [];
        }
        return EOF, [];
      }
      if buffer[6] == ZERO && length == 0 {
        Consume(|buffer|);
        return BAD_RECORD, [];
      }
      if crc(buffer[6..HEADER + length]) != Unmask(DecodeFixed32(buffer[..4])) {
        Consume(|buffer|);
        reports := reports + 1;
        return BAD_RECORD, [];
      }
      kind, result := buffer[6], buffer[HEADER..HEADER + length];
      Consume(HEADER + length);
    }

    /** The next logical record, put together from its fragments. */
    method ReadRecord() returns (record: Option<seq<Byte>>)
      requires Valid()
      modifies this
      ensures Valid()
      ensures var r := ReadFrom(crc, file, old(Pos()), false, [], old(reports));
              && record == r.record && Pos() == r.next && reports == r.reports
    {
      var scratch: seq<Byte> := [];
      var inFragmentedRecord := false;
      while true
        invariant Valid()
        invariant ReadFrom(crc, file, Pos(), inFragmentedRecord, scratch, reports) ==
                  ReadFrom(crc, file, old(Pos()), false, [], old(reports))
        decreases |file| - Pos()
      {
        var kind, fragment := ReadPhysicalRecord();
        var p := TakeFragment(kind, fragment, inFragmentedRecord, scratch);
        if p.Finished? {
          return p.record;
        }
        inFragmentedRecord, scratch := p.inFragment, p.scratch;
      }
    }

    /** What a fragment does to the record that is being put together. */
    method TakeFragment(kind: nat, fragment: seq<Byte>, inFragmentedRecord: bool, scratch: seq<Byte>) returns (p: Progress)
      modifies `reports
      ensures p == Assemble(kind, fragment, inFragmentedRecord, scratch, old(reports))
      ensures reports == p.reports
    {
      if kind == FULL || kind == FIRST {
        if inFragmentedRecord {
          if |scratch| > 0 {
            reports := reports + 1;
          }
        }
        return if kind == FULL then Finished(Some(fragment), reports) else More(true, fragment, reports);
      } else if kind == MIDDLE || kind == LAST {
        if !inFragmentedRecord {
          reports := reports + 1;
          return More(false, scratch, reports);
        }
        var joined := scratch + fragment;
        return if kind == LAST then Finished(Some(joined), reports) else More(true, joined, reports);
      } else if kind == EOF {
        return Finished(None, reports);
      } else if kind == BAD_RECORD && !inFragmentedRecord {
        return More(false, scratch, reports);
      }
      reports := reports + 1;
      return More(false, [], reports);
    }
  }

  /** The records up to and with `record`, followed by all that are still to be read. */
  ghost function Continued(crc: Checksum, file: seq<Byte>, pos: nat, records: seq<seq<Byte>>,
                           record: Option<seq<Byte>>, reports: nat): (seq<seq<Byte>>, nat)
    requires pos <= |file|
  {
    match record
    case None => (records, reports)
    case Some(r) =>
      var rest := ReadAll(crc, file, pos, reports);
      (records + [r] + rest.0, rest.1)
  }

  lemma {:induction false} ContinueOn(crc: Checksum, file: seq<Byte>, pos: nat, records: seq<seq<Byte>>, reports: nat)
    requires pos <= |file|
    ensures var r := ReadFrom(crc, file, pos, false, [], reports);
            var all := ReadAll(crc, file, pos, reports);
            Continued(crc, file, r.next, records, r.record, r.reports) == (records + all.0, all.1)
  {
    var r := ReadFrom(crc, file, pos, false, [], reports);
    if r.record.None? {
      assert records + [] == records;
    } else {
      var rest := ReadAll(crc, file, r.next, r.reports);
      assert records + [r.record.value] + rest.0 == records + ([r.record.value] + rest.0);
    }
  }

  /** Every record of a file, in order, until the reader finds no more. */
  method ReadRecords(crc: Checksum, file: seq<Byte>) returns (records: seq<seq<Byte>>, reports: nat)
    ensures (records, reports) == ReadAll(crc, file, 0, 0)
  {
    hide ReadFrom, ReadAll;
    var reader := new Reader(crc, file);
    records := [];
    ContinueOn(crc, file, 0, records, 0);
    assert [] + ReadAll(crc, file, 0, 0).0 == ReadAll(crc, file, 0, 0).0;
    var record := reader.ReadRecord();
    while record.Some?
      invariant reader.Valid() && fresh(reader) && reader.crc == crc && reader.file == file
      invariant ReadAll(crc, file, 0, 0) == Continued(crc, file, reader.Pos(), records, record, reader.reports)
      decreases record.Some?, |file| - reader.Pos()
    {
      hide ReadFrom, ReadAll;
      records := records + [record.value];
      ContinueOn(crc, file, reader.Pos(), records, reader.reports);
      record := reader.ReadRecord();
    }
    reports := reader.reports;
  }
}
