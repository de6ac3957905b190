/** What any file can make the reader of the log return. */
module LogIntegrity {
  import opened Coding
  import opened Common
  import opened LogFormat

  // ----- Checksums -----

  lemma {:induction false} MaskUnmask(masked: Word)
    ensures Mask(Unmask(masked)) == masked
  {
    var rot := (masked - MASK_DELTA + 0x1_0000_0000) % 0x1_0000_0000;
    var hi, lo := rot / 0x2_0000, rot % 0x2_0000;
    var crc := hi + lo * 0x8000;
    assert rot == hi * 0x2_0000 + lo && hi < 0x8000;
    assert crc / 0x8000 == lo && crc % 0x8000 == hi;
  }

  // ----- Physical records -----

  /** At `pos`, past the trailer of a block, the file has the bytes of this physical record. */
  ghost predicate StoredAt(crc: Checksum, file: seq<Byte>, pos: nat, f: Fragment) {
    && |f.payload| <= Room(pos) && EndOf(pos, f) <= |file|
    && file[StartOf(pos)..EndOf(pos, f)] == Physical(crc, f)
  }

  /** What the checksum test admits is what the writer would have written. */
  lemma {:induction false} DecodedIsPhysical(crc: Checksum, buffer: seq<Byte>, eof: bool)
    requires |buffer| >= HEADER
    requires var v := Decode(crc, buffer, eof); v.kind != EOF && v.kind != BAD_RECORD
    ensures var v := Decode(crc, buffer, eof);
            && v.kind < 256 && !v.report && |v.fragment| <= 0xffff && v.used == HEADER + |v.fragment|
            && buffer[..v.used] == Physical(crc, Fragment(v.kind, v.fragment))
  {
    var v := Decode(crc, buffer, eof);
    var n := v.used;
    assert buffer[6..n] == [buffer[6]] + v.fragment;
    MaskUnmask(DecodeFixed32(buffer[..4]));
    Fixed32Decoded(buffer[..4]);
    assert buffer[..n] == buffer[..4] + [buffer[4], buffer[5], buffer[6]] + v.fragment;
    LengthBytes(buffer[4], buffer[5]);
  }

  lemma {:induction false} LengthBytes(low: Byte, high: Byte)
    ensures var n := low as int + 256 * high as int; n <= 0xffff && n % 256 == low as int && n / 256 == high as int
  {
  }

  /** Whatever is in the file: a fragment that the reader accepts is a whole physical record with its checksum. */
  lemma {:induction false} ParsedIsStored(crc: Checksum, file: seq<Byte>, pos: nat)
    requires pos <= |file|
    requires var o := Parse(crc, file, pos); FULL <= o.kind <= LAST
    ensures var o := Parse(crc, file, pos);
            var f := Fragment(o.kind, o.fragment);
            StoredAt(crc, file, pos, f) && o.next == EndOf(pos, f) && !o.report
    decreases |file| - pos
  {
    hide Decode, Physical;
    var bound := BufferEnd(file, pos);
    if bound - pos < HEADER {
      OffsetAdd(pos, bound - pos);
      ParsedIsStored(crc, file, bound);
    } else {
      var buffer := file[pos..bound];
      DecodedIsPhysical(crc, buffer, AtEof(file, pos));
      var v := Decode(crc, buffer, AtEof(file, pos));
      assert buffer[..v.used] == file[pos..pos + v.used];
    }
  }

  // ----- Records -----

  /** Physical records one after another from `pos` to `end`, with nothing but block trailers between them. */
  ghost predicate Consecutive(crc: Checksum, file: seq<Byte>, pos: nat, fs: seq<Fragment>, end: nat)
    decreases |fs|
  {
    if |fs| == 0 then pos == end
    else StoredAt(crc, file, pos, fs[0]) && Consecutive(crc, file, EndOf(pos, fs[0]), fs[1..], end)
  }

  function Payloads(fs: seq<Fragment>): seq<Byte> {
    if |fs| == 0 then [] else fs[0].payload + Payloads(fs[1..])
  }

  /** A first fragment and any number of middle ones. */
  predicate Begun(fs: seq<Fragment>) {
    |fs| > 0 && fs[0].kind == 2 && forall i :: 1 <= i < |fs| ==> fs[i].kind == 3
  }

  /** The fragments of a whole record: a full one, or a first, any number of middle ones, and a last one. */
  predicate Whole(fs: seq<Fragment>) {
    || (|fs| == 1 && fs[0].kind == 1)
    || (|fs| > 1 && Begun(fs[..|fs| - 1]) && fs[|fs| - 1].kind == 4)
  }

  lemma {:induction false} OneMoreFragment(crc: Checksum, file: seq<Byte>, pos: nat, fs: seq<Fragment>, end: nat, f: Fragment)
    requires Consecutive(crc, file, pos, fs, end) && StoredAt(crc, file, end, f)
    ensures Consecutive(crc, file, pos, fs + [f], EndOf(end, f)) && Payloads(fs + [f]) == Payloads(fs) + f.payload
    decreases |fs|
  {
    hide StoredAt, EndOf;
    if |fs| > 0 {
      OneMoreFragment(crc, file, EndOf(pos, fs[0]), fs[1..], end, f);
      assert (fs + [f])[1..] == fs[1..] + [f];
    } else {
      assert fs + [f] == [f] && [f][1..] == [];
    }
  }

  /** The reader has put together the payloads of `done`, which end at `pos`. */
  ghost predicate InProgress(crc: Checksum, file: seq<Byte>, pos: nat, scratch: seq<Byte>, from: nat, done: seq<Fragment>) {
    Begun(done) && Consecutive(crc, file, from, done, pos) && scratch == Payloads(done)
  }

  ghost predicate IsRecord(crc: Checksum, file: seq<Byte>, from: nat, fs: seq<Fragment>, end: nat, record: seq<Byte>) {
    Whole(fs) && Consecutive(crc, file, from, fs, end) && record == Payloads(fs)
  }

  lemma {:induction false} FragmentJoins(crc: Checksum, file: seq<Byte>, pos: nat, scratch: seq<Byte>, from: nat, done: seq<Fragment>)
    requires pos <= |file| && InProgress(crc, file, pos, scratch, from, done)
    requires var o := Parse(crc, file, pos); o.kind == MIDDLE || o.kind == LAST
    ensures var o := Parse(crc, file, pos);
            var fs := done + [Fragment(o.kind, o.fragment)];
            && (o.kind == MIDDLE ==> InProgress(crc, file, o.next, scratch + o.fragment, from, fs))
            && (o.kind == LAST ==> IsRecord(crc, file, from, fs, o.next, scratch + o.fragment))
  {
    hide Parse, StoredAt, EndOf;
    ParsedIsStored(crc, file, pos);
    var o := Parse(crc, file, pos);
    var fs := done + [Fragment(o.kind, o.fragment)];
    OneMoreFragment(crc, file, from, done, pos, Fragment(o.kind, o.fragment));
    assert fs[..|fs| - 1] == done;
  }

  lemma {:induction false} FragmentBegins(crc: Checksum, file: seq<Byte>, pos: nat)
    requires pos <= |file|
    requires var o := Parse(crc, file, pos); o.kind == FIRST || o.kind == FULL
    ensures var o := Parse(crc, file, pos);
            var fs := [Fragment(o.kind, o.fragment)];
            && (o.kind == FIRST ==> InProgress(crc, file, o.next, o.fragment, pos, fs))
            && (o.kind == FULL ==> IsRecord(crc, file, pos, fs, o.next, o.fragment))
  {
    hide Parse, StoredAt, EndOf;
    ParsedIsStored(crc, file, pos);
    var o := Parse(crc, file, pos);
    var f := Fragment(o.kind, o.fragment);
    OneMoreFragment(crc, file, pos, [], pos, f);
    assert [] + [f] == [f] && [] + f.payload == f.payload;
  }

  /** Whatever is in the file: the record that is returned ends a run of whole physical records with their checksums. */
  lemma {:induction false} RecordIsStored(crc: Checksum, file: seq<Byte>, pos: nat, inFragment: bool, scratch: seq<Byte>, reports: nat,
                                          from: nat, done: seq<Fragment>) returns (start: nat, fs: seq<Fragment>)
    requires pos <= |file| && (inFragment ==> InProgress(crc, file, pos, scratch, from, done))
    requires ReadFrom(crc, file, pos, inFragment, scratch, reports).record.Some?
    ensures var r := ReadFrom(crc, file, pos, inFragment, scratch, reports);
            IsRecord(crc, file, start, fs, r.next, r.record.value)
    ensures start >= pos || (inFragment && start == from)
    decreases |file| - pos
  {
    hide InProgress, IsRecord;
    var o := Parse(crc, file, pos);
    var seen := if o.report then reports + 1 else reports;
    var p := Assemble(o.kind, o.fragment, inFragment, scratch, seen);
    if o.kind == FULL || o.kind == FIRST {
      FragmentBegins(crc, file, pos);
      start, fs := pos, [Fragment(o.kind, o.fragment)];
    } else if (o.kind == MIDDLE || o.kind == LAST) && inFragment {
      FragmentJoins(crc, file, pos, scratch, from, done);
      start, fs := from, done + [Fragment(o.kind, o.fragment)];
    } else {
      start, fs := from, done;
    }
    if p.More? {
      start, fs := RecordIsStored(crc, file, o.next, p.inFragment, p.scratch, p.reports, start, fs);
    }
  }

  /** The records are in the file in this order, from `pos` on, each after the one before it. */
  ghost predicate OccurInOrder(crc: Checksum, file: seq<Byte>, pos: nat, records: seq<seq<Byte>>)
    decreases |records|
  {
    |records| > 0 ==>
      exists start, fs, end ::
        pos <= start < end && IsRecord(crc, file, start, fs, end, records[0]) && OccurInOrder(crc, file, end, records[1..])
  }

  lemma {:induction false} ConsecutiveEnd(crc: Checksum, file: seq<Byte>, pos: nat, fs: seq<Fragment>, end: nat)
    requires Consecutive(crc, file, pos, fs, end)
    ensures pos <= end && (|fs| > 0 ==> pos < end)
    decreases |fs|
  {
    if |fs| > 0 {
      ConsecutiveEnd(crc, file, EndOf(pos, fs[0]), fs[1..], end);
    }
  }

  /** Whatever is in the file: no record is returned that the file does not have, whole and with its checksums, and none is
      returned twice or out of order. */
  lemma {:induction false} NothingInvented(crc: Checksum, file: seq<Byte>, pos: nat, reports: nat)
    requires pos <= |file|
    ensures OccurInOrder(crc, file, pos, ReadAll(crc, file, pos, reports).0)
    decreases |file| - pos
  {
    hide ReadFrom, IsRecord;
    var r := ReadFrom(crc, file, pos, false, [], reports);
    if r.record.Some? {
      var start, fs := RecordIsStored(crc, file, pos, false, [], reports, 0, []);
      RecordHasLength(crc, file, start, fs, r.next, r.record.value);
      NothingInvented(crc, file, r.next, r.reports);
      var rest := ReadAll(crc, file, r.next, r.reports).0;
      var all := ReadAll(crc, file, pos, reports).0;
      assert all[0] == r.record.value && all[1..] == rest;
    }
  }

  lemma {:induction false} RecordHasLength(crc: Checksum, file: seq<Byte>, start: nat, fs: seq<Fragment>, end: nat, record: seq<Byte>)
    requires IsRecord(crc, file, start, fs, end, record)
    ensures start < end
  {
    ConsecutiveEnd(crc, file, start, fs, end);
  }

  // ----- What is lost -----

  /** The payload of a physical record that is part of a record. */
  function PayloadOf(o: Outcome): seq<Byte> {
    if FULL <= o.kind <= LAST then o.fragment else []
  }

  /** The payloads of all physical records that the reader accepts, up to where the file ends for it. */
  function AllPayloads(crc: Checksum, file: seq<Byte>, pos: nat): seq<Byte>
    requires pos <= |file|
    decreases |file| - pos
  {
    var o := Parse(crc, file, pos);
    if o.kind == EOF then [] else PayloadOf(o) + AllPayloads(crc, file, o.next)
  }

  function Joined(records: seq<seq<Byte>>): seq<Byte> {
    if |records| == 0 then [] else records[0] + Joined(records[1..])
  }

  /** What the reader has put together when the file ends. */
  datatype Unfinished = Unfinished(scratch: seq<Byte>, end: nat, from: nat, done: seq<Fragment>) {
    /** Nothing, or the front part of a record, up to the end. */
    ghost predicate Ok(crc: Checksum, file: seq<Byte>) {
      && end <= |file| && Parse(crc, file, end).kind == EOF
      && (scratch == [] || InProgress(crc, file, end, scratch, from, done))
    }
  }

  lemma {:induction false} ReportsGrow(crc: Checksum, file: seq<Byte>, pos: nat, inFragment: bool, scratch: seq<Byte>, reports: nat)
    requires pos <= |file|
    ensures reports <= ReadFrom(crc, file, pos, inFragment, scratch, reports).reports
    decreases |file| - pos
  {
    hide Parse;
    var o := Parse(crc, file, pos);
    var p := Assemble(o.kind, o.fragment, inFragment, scratch, if o.report then reports + 1 else reports);
    if p.More? {
      ReportsGrow(crc, file, o.next, p.inFragment, p.scratch, p.reports);
    }
  }

  /** One physical record for which nothing is reported: its payload joins what there is, or begins anew when that is empty. */
  lemma {:induction false} SilentStep(o: Outcome, inFragment: bool, scratch: seq<Byte>, reports: nat)
    requires o.kind != EOF && Assemble(o.kind, o.fragment, inFragment, scratch, reports).reports == reports
    ensures var p := Assemble(o.kind, o.fragment, inFragment, scratch, reports);
            var before := if inFragment then scratch else [];
            && (p.Finished? ==> p.record == Some(before + PayloadOf(o)))
            && (p.More? ==> (if p.inFragment then p.scratch else []) == before + PayloadOf(o))
  {
    assert [] + PayloadOf(o) == PayloadOf(o) && scratch + [] == scratch;
  }

  /** Reading one record, or to the end, without a report. */
  lemma {:induction false} SilentRead(crc: Checksum, file: seq<Byte>, pos: nat, inFragment: bool, scratch: seq<Byte>, reports: nat,
                                      from: nat, done: seq<Fragment>) returns (rest: Unfinished)
    requires pos <= |file| && (inFragment ==> InProgress(crc, file, pos, scratch, from, done))
    requires ReadFrom(crc, file, pos, inFragment, scratch, reports).reports == reports
    ensures var r := ReadFrom(crc, file, pos, inFragment, scratch, reports);
            var before := if inFragment then scratch else [];
            && (r.record.Some? ==> before + AllPayloads(crc, file, pos) == r.record.value + AllPayloads(crc, file, r.next))
            && (r.record.None? ==> rest.Ok(crc, file) && before + AllPayloads(crc, file, pos) == rest.scratch)
    decreases |file| - pos
  {
    hide InProgress, IsRecord, Parse, Assemble;
    var o := Parse(crc, file, pos);
    var seen := if o.report then reports + 1 else reports;
    var p := Assemble(o.kind, o.fragment, inFragment, scratch, seen);
    var before := if inFragment then scratch else [];
    rest := Unfinished(before, pos, from, done);
    AssembleReports(o, inFragment, scratch, seen);
    if o.kind == EOF {
      assert before + [] == before;
    } else {
      var start, fs := Grown(crc, file, pos, inFragment, scratch, seen, from, done);
      if p.More? {
        ReportsGrow(crc, file, o.next, p.inFragment, p.scratch, p.reports);
        SilentStep(o, inFragment, scratch, seen);
        rest := SilentRead(crc, file, o.next, p.inFragment, p.scratch, p.reports, start, fs);
      } else {
        SilentStep(o, inFragment, scratch, seen);
      }
      assert before + (PayloadOf(o) + AllPayloads(crc, file, o.next)) == (before + PayloadOf(o)) + AllPayloads(crc, file, o.next);
    }
  }

  lemma {:induction false} AssembleReports(o: Outcome, inFragment: bool, scratch: seq<Byte>, reports: nat)
    ensures Assemble(o.kind, o.fragment, inFragment, scratch, reports).reports >= reports
    ensures o.kind == EOF ==> Assemble(o.kind, o.fragment, inFragment, scratch, reports) == Finished(None, reports)
  {
  }

  /** What is in progress after one more physical record. */
  lemma {:induction false} Grown(crc: Checksum, file: seq<Byte>, pos: nat, inFragment: bool, scratch: seq<Byte>,
                                 reports: nat, from: nat, done: seq<Fragment>) returns (start: nat, fs: seq<Fragment>)
    requires pos <= |file| && (inFragment ==> InProgress(crc, file, pos, scratch, from, done))
    ensures var o := Parse(crc, file, pos);
            var p := Assemble(o.kind, o.fragment, inFragment, scratch, reports);
            p.More? && p.inFragment ==> InProgress(crc, file, o.next, p.scratch, start, fs)
  {
    hide InProgress, Parse;
    var o := Parse(crc, file, pos);
    start, fs := from, done;
    if o.kind == FIRST {
      FragmentBegins(crc, file, pos);
      start, fs := pos, [Fragment(o.kind, o.fragment)];
    } else if o.kind == MIDDLE && inFragment {
      FragmentJoins(crc, file, pos, scratch, from, done);
      fs := done + [Fragment(o.kind, o.fragment)];
    }
  }

  /** Whatever is in the file: if no corruption is reported, the records together have every payload that is in the file
      with its checksum, but for the front part of a record that the file ends in. */
  lemma {:induction false} SilentLosesNothing(crc: Checksum, file: seq<Byte>, pos: nat, reports: nat) returns (rest: Unfinished)
    requires pos <= |file| && ReadAll(crc, file, pos, reports).1 == reports
    ensures rest.Ok(crc, file) && AllPayloads(crc, file, pos) == Joined(ReadAll(crc, file, pos, reports).0) + rest.scratch
    decreases |file| - pos
  {
    hide ReadFrom, InProgress;
    var r := ReadFrom(crc, file, pos, false, [], reports);
    var all := ReadAll(crc, file, pos, reports).0;
    ReportsGrow(crc, file, pos, false, [], reports);
    if r.record.Some? {
      AllReportsGrow(crc, file, r.next, r.reports);
    }
    rest := SilentRead(crc, file, pos, false, [], reports, 0, []);
    assert [] + AllPayloads(crc, file, pos) == AllPayloads(crc, file, pos);
    if r.record.Some? {
      rest := SilentLosesNothing(crc, file, r.next, r.reports);
      var others := ReadAll(crc, file, r.next, r.reports).0;
      assert all[0] == r.record.value && all[1..] == others;
      assert r.record.value + (Joined(others) + rest.scratch) == r.record.value + Joined(others) + rest.scratch;
    } else {
      assert [] + rest.scratch == rest.scratch;
    }
  }

  lemma {:induction false} AllReportsGrow(crc: Checksum, file: seq<Byte>, pos: nat, reports: nat)
    requires pos <= |file|
    ensures reports <= ReadAll(crc, file, pos, reports).1
    decreases |file| - pos
  {
    hide ReadFrom;
    ReportsGrow(crc, file, pos, false, [], reports);
    var r := ReadFrom(crc, file, pos, false, [], reports);
    if r.record.Some? {
      AllReportsGrow(crc, file, r.next, r.reports);
    }
  }
}
