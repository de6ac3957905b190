/** Replaying a log file into a memtable after a crash. */
module LogReplay {
  import opened Coding
  import opened Common
  import opened LogFormat
  import opened LogIntegrity
  import opened LogRecovery
  import opened WriteBatches
  import LogFile

  /** What was recovered, the greatest sequence number, whether to go on, and the corruptions of the log. */
  datatype State = State(mem: seq<Entry>, maxSequence: nat, ok: bool, reports: nat)

  /** The count of a batch is an int. */
  function SignedCount(w: Word): int {
    if w < 0x8000_0000 then w else w - 0x1_0000_0000
  }

  /** Sequence number and count, added in 64 bits. */
  function LastOf(record: Bytes): nat
    requires |record| >= BATCH_HEADER
  {
    (DecodeFixed64(record[..8]) + SignedCount(DecodeFixed32(record[8..12])) - 1) % 0x1_0000_0000_0000_0000
  }

  /** One record: its operations are inserted, even if the batch is bad further on. */
  function ReplayRecord(paranoid: bool, st: State, record: Bytes): State {
    if |record| < BATCH_HEADER then st.(ok := !paranoid)
    else
      var (ops, fine) := Iterated(record);
      var mem := st.mem + Numbered(DecodeFixed64(record[..8]), ops);
      if fine || !paranoid then st.(mem := mem, maxSequence := Max(st.maxSequence, LastOf(record)))
      else st.(mem := mem, ok := false)
  }

  /** The rest of the file.  With paranoid checks any corruption is the end. */
  function Replay(crc: Checksum, file: Bytes, paranoid: bool, pos: nat, st: State): State
    requires pos <= |file|
    decreases |file| - pos
  {
    var r := ReadFrom(crc, file, pos, false, [], st.reports);
    var seen := st.(ok := st.ok && !(paranoid && r.reports > st.reports), reports := r.reports);
    if r.record.None? || !seen.ok then seen
    else Replay(crc, file, paranoid, r.next, ReplayRecord(paranoid, seen, r.record.value))
  }

  /** DBImpl::RecoverLogFile. */
  method RecoverLogFile(crc: Checksum, file: Bytes, paranoid: bool, mem: seq<Entry>, maxSequence: nat) returns (st: State)
    ensures st == Replay(crc, file, paranoid, 0, State(mem, maxSequence, true, 0))
  {
    hide ReadFrom;
    var reader := new LogFile.Reader(crc, file);
    st := State(mem, maxSequence, true, 0);
    while true
      invariant reader.Valid() && fresh(reader) && reader.crc == crc && reader.file == file && reader.reports == st.reports
      invariant Replay(crc, file, paranoid, reader.Pos(), st) == Replay(crc, file, paranoid, 0, State(mem, maxSequence, true, 0))
      decreases |file| - reader.Pos()
    {
      var record := reader.ReadRecord();
      if paranoid && reader.reports > st.reports {
        st := st.(ok := false);
      }
      st := st.(reports := reader.reports);
      if record.None? || !st.ok {
        break;
      }
      st := InsertRecord(paranoid, st, record.value);
    }
  }

  method InsertRecord(paranoid: bool, st0: State, record: Bytes) returns (st: State)
    ensures st == ReplayRecord(paranoid, st0, record)
  {
    st := st0;
    if |record| < BATCH_HEADER {
      if paranoid {
        st := st.(ok := false);
      } else {
        st := st.(ok := true);
      }
      return;
    }
    var batch := new WriteBatch();
    batch.SetContents(record, None);
    var mem, ok := batch.InsertInto(st.mem);
    st := st.(mem := mem);
    if !ok && paranoid {
      st := st.(ok := false);
      return;
    }
    var lastSeq := (batch.Sequence() + SignedCount(batch.Count()) - 1) % 0x1_0000_0000_0000_0000;
    if lastSeq > st.maxSequence {
      st := st.(maxSequence := lastSeq);
    }
  }

  // ----- Crashes -----

  datatype Batch = Batch(sequence: nat, ops: seq<Op>)

  /** A batch as it is written: it has a sequence number from 1 on, and the count is an int. */
  predicate BatchFits(b: Batch) {
    1 <= b.sequence < LONG && b.sequence + |b.ops| <= LONG && |b.ops| < 0x8000_0000 && forall op <- b.ops :: OpFits(op)
  }

  function RecordOf(b: Batch): Bytes
    requires BatchFits(b)
  {
    BatchOf(b.sequence, b.ops)
  }

  function Records(batches: seq<Batch>): (r: seq<Bytes>)
    requires forall b <- batches :: BatchFits(b)
    ensures |r| == |batches|
  {
    seq(|batches|, i requires 0 <= i < |batches| => RecordOf(batches[i]))
  }

  /** All operations of the batches with their sequence numbers. */
  function Entries(batches: seq<Batch>): seq<Entry> {
    if |batches| == 0 then [] else Numbered(batches[0].sequence, batches[0].ops) + Entries(batches[1..])
  }

  /** The greatest sequence number of the batches, or `max`. */
  function Greatest(max: nat, batches: seq<Batch>): nat
    requires forall b <- batches :: BatchFits(b)
    decreases |batches|
  {
    if |batches| == 0 then max
    else
      assert BatchFits(batches[0]);
      Greatest(Max(max, batches[0].sequence + |batches[0].ops| - 1), batches[1..])
  }

  lemma {:induction false} ReplayBatch(paranoid: bool, st: State, b: Batch)
    requires BatchFits(b) && st.ok
    ensures ReplayRecord(paranoid, st, RecordOf(b)) ==
            st.(mem := st.mem + Numbered(b.sequence, b.ops), maxSequence := Max(st.maxSequence, b.sequence + |b.ops| - 1))
  {
    hide Iterated, BatchOf, DecodeFixed64, LastOf;
    BatchRoundTrip(b.sequence, b.ops);
    LastOfBatch(b);
  }

  lemma {:induction false} LastOfBatch(b: Batch)
    requires BatchFits(b)
    ensures LastOf(RecordOf(b)) == b.sequence + |b.ops| - 1
  {
    hide BatchOf, DecodeFixed64, DecodeFixed32, Iterated;
    BatchRoundTrip(b.sequence, b.ops);
  }

  /** A file in which the records of the batches are read without a corruption. */
  lemma {:induction false} ReplayOfBatches(crc: Checksum, file: Bytes, paranoid: bool, pos: nat, st: State, batches: seq<Batch>)
    requires pos <= |file| && st.ok && st.reports == 0 && forall b <- batches :: BatchFits(b)
    requires ReadAll(crc, file, pos, 0) == (Records(batches), 0)
    ensures Replay(crc, file, paranoid, pos, st) ==
            st.(mem := st.mem + Entries(batches), maxSequence := Greatest(st.maxSequence, batches))
    decreases |batches|
  {
    hide ReadFrom, BatchFits, RecordOf, ReplayRecord, Numbered;
    var r := ReadFrom(crc, file, pos, false, [], 0);
    ReportsGrow(crc, file, pos, false, [], 0);
    if r.record.Some? {
      AllReportsGrow(crc, file, r.next, r.reports);
      assert Records(batches)[0] == RecordOf(batches[0]) && Records(batches)[1..] == Records(batches[1..]);
      ReplayBatch(paranoid, st, batches[0]);
      var next := ReplayRecord(paranoid, st, r.record.value);
      ReplayOfBatches(crc, file, paranoid, r.next, next, batches[1..]);
      Associative(st.mem, Numbered(batches[0].sequence, batches[0].ops), Entries(batches[1..]));
    } else {
      assert st.mem + [] == st.mem;
    }
  }

  lemma {:induction false} Associative<T>(a: seq<T>, b: seq<T>, c: seq<T>)
    ensures a + b + c == a + (b + c)
  {
  }

  /** When a log of batches was cut at any byte, exactly the operations of the batches whose records are whole are
      recovered, in order, with the sequence numbers that they were written with; none of a later batch. */
  lemma {:induction false} CrashRecovers(crc: Checksum, paranoid: bool, mem: seq<Entry>, max: nat, batches: seq<Batch>, cut: nat)
    returns (k: nat)
    requires forall b <- batches :: BatchFits(b)
    requires cut <= |LogOf(crc, 0, Records(batches))|
    ensures k <= |batches| && |LogOf(crc, 0, Records(batches)[..k])| <= cut
    ensures k < |batches| ==> cut < |LogOf(crc, 0, Records(batches)[..k + 1])|
    ensures Replay(crc, LogOf(crc, 0, Records(batches))[..cut], paranoid, 0, State(mem, max, true, 0)) ==
            State(mem + Entries(batches[..k]), Greatest(max, batches[..k]), true, 0)
  {
    k := WholeRecordsExist(crc, Records(batches), cut);
    assert Records(batches)[..k] == Records(batches[..k]);
    ReplayOfBatches(crc, LogOf(crc, 0, Records(batches))[..cut], paranoid, 0, State(mem, max, true, 0), batches[..k]);
  }

  // ----- Any file -----

  /** The operations of the records that are long enough, up to the first bad one in each batch. */
  function Recovered(records: seq<Bytes>): seq<Entry> {
    if records == [] then []
    else
      (if |records[0]| < 12 then [] else Numbered(DecodeFixed64(records[0][..8]), Iterated(records[0]).0))
      + Recovered(records[1..])
  }

  /** A whole batch, as many operations as it counts. */
  predicate Sound(record: Bytes) {
    |record| >= 12 && Iterated(record).1
  }

  lemma {:induction false} OneRecord(crc: Checksum, file: Bytes, pos: nat, reports: nat)
    requires pos <= |file|
    ensures var r := ReadFrom(crc, file, pos, false, [], reports);
            var all := ReadAll(crc, file, pos, reports);
            && reports <= r.reports <= all.1
            && if r.record.None? then all == ([], r.reports)
               else all.0 != [] && all.0[0] == r.record.value && (all.0[1..], all.1) == ReadAll(crc, file, r.next, r.reports)
  {
    hide ReadFrom;
    var r := ReadFrom(crc, file, pos, false, [], reports);
    ReportsGrow(crc, file, pos, false, [], reports);
    if r.record.Some? {
      AllReportsGrow(crc, file, r.next, r.reports);
    }
  }

  /** Whatever is in the file: without paranoid checks everything that can be read is recovered, and it is no error. */
  lemma {:induction false} RecoversAll(crc: Checksum, file: Bytes, pos: nat, st: State)
    requires pos <= |file| && st.ok
    ensures var all := ReadAll(crc, file, pos, st.reports);
            var end := Replay(crc, file, false, pos, st);
            end.ok && end.mem == st.mem + Recovered(all.0) && end.reports == all.1
    decreases |file| - pos
  {
    hide ReadFrom, ReadAll, Iterated, Numbered;
    var r := ReadFrom(crc, file, pos, false, [], st.reports);
    OneRecord(crc, file, pos, st.reports);
    if r.record.Some? {
      var record, seen := r.record.value, st.(reports := r.reports);
      RecoversAll(crc, file, r.next, ReplayRecord(false, seen, record));
      if |record| >= 12 {
        Associative(st.mem, Numbered(DecodeFixed64(record[..8]), Iterated(record).0), Recovered(ReadAll(crc, file, r.next, r.reports).0));
      } else {
        assert [] + Recovered(ReadAll(crc, file, r.next, r.reports).0) == Recovered(ReadAll(crc, file, r.next, r.reports).0);
      }
    } else {
      assert st.mem + [] == st.mem;
    }
  }

  /** Whatever is in the file: with paranoid checks the recovery fails exactly if the log has a corruption or one of its
      records is no sound batch, and otherwise it is the same as without. */
  lemma {:induction false} ParanoidExactly(crc: Checksum, file: Bytes, pos: nat, st: State)
    requires pos <= |file| && st.ok
    ensures var all := ReadAll(crc, file, pos, st.reports);
            var end := Replay(crc, file, true, pos, st);
            && (end.ok <==> all.1 == st.reports && forall i :: 0 <= i < |all.0| ==> Sound(all.0[i]))
            && (end.ok ==> end == Replay(crc, file, false, pos, st))
    decreases |file| - pos
  {
    hide ReadFrom, ReadAll, Iterated, Numbered;
    var r := ReadFrom(crc, file, pos, false, [], st.reports);
    var all := ReadAll(crc, file, pos, st.reports);
    OneRecord(crc, file, pos, st.reports);
    if r.record.Some? && r.reports == st.reports {
      var record := r.record.value;
      assert st == st.(reports := r.reports);
      if Sound(record) {
        assert ReplayRecord(true, st, record) == ReplayRecord(false, st, record);
        ParanoidExactly(crc, file, r.next, ReplayRecord(true, st, record));
        var rest := ReadAll(crc, file, r.next, r.reports).0;
        assert all.0[1..] == rest && forall i :: 0 <= i < |rest| ==> all.0[i + 1] == rest[i];
        assert (forall i :: 0 <= i < |all.0| ==> Sound(all.0[i])) <==> forall i :: 0 <= i < |rest| ==> Sound(rest[i]) by {
          forall i | 0 <= i < |all.0| && forall k :: 0 <= k < |rest| ==> Sound(rest[k]) ensures Sound(all.0[i]) {
            assert i > 0 ==> all.0[i] == rest[i - 1];
          }
          forall i | 0 <= i < |rest| && forall k :: 0 <= k < |all.0| ==> Sound(all.0[k]) ensures Sound(rest[i]) {
            assert rest[i] == all.0[i + 1];
          }
        }
      } else {
        NotOk(crc, file, r.next, ReplayRecord(true, st, record));
        assert !Sound(all.0[0]);
      }
    }
  }

  /** After an error nothing more is inserted. */
  lemma {:induction false} NotOk(crc: Checksum, file: Bytes, pos: nat, st: State)
    requires pos <= |file| && !st.ok
    ensures !Replay(crc, file, true, pos, st).ok && Replay(crc, file, true, pos, st).mem == st.mem
  {
  }
}
