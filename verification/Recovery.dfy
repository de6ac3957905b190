/** Replaying the manifest: a snapshot of the file map, and the edits that came after it. */
module Recovery {
  import opened Coding
  import opened Common
  import opened VersionEdits
  import opened VersionBuilder
  import LogFormat
  import LogRecovery
  import LogFile

  /** What the version set knows after recovery. */
  datatype Recovered = Recovered(files: seq<seq<Meta>>, compactPointers: seq<Bytes>, nextFileNumber: nat,
                                 lastSequence: nat, logNumber: nat, prevLogNumber: nat)

  datatype Result = Ok(state: Recovered) | Corruption | InvalidArgument

  /** The edits that the records hold, if all of them parse and name the comparator. */
  function DecodeAll(name: Bytes, records: seq<Bytes>): Option<seq<Edit>> {
    if |records| == 0 then Some([])
    else
      var (e, ok) := DecodeFields(records[|records| - 1], 0, EMPTY);
      match DecodeAll(name, records[..|records| - 1])
      case None => None
      case Some(edits) => if ok && Names(e, name) then Some(edits + [e]) else None
  }

  predicate Names(e: Edit, name: Bytes) {
    e.comparator.Some? ==> e.comparator.value == name
  }

  /** The last number of a kind in the edits. */
  function Last(edits: seq<Edit>, number: Edit -> Option<nat>): Option<nat> {
    if |edits| == 0 then None
    else if number(edits[|edits| - 1]).Some? then number(edits[|edits| - 1])
    else Last(edits[..|edits| - 1], number)
  }

  lemma {:induction false} LastNext(edits: seq<Edit>, e: Edit, number: Edit -> Option<nat>)
    ensures Last(edits + [e], number) == if number(e).Some? then number(e) else Last(edits, number)
  {
    assert (edits + [e])[..|edits|] == edits;
  }

  const LOG_NUMBER: Edit -> Option<nat> := (e: Edit) => e.logNumber
  const PREV_LOG_NUMBER: Edit -> Option<nat> := (e: Edit) => e.prevLogNumber
  const NEXT_FILE: Edit -> Option<nat> := (e: Edit) => e.nextFile
  const LAST_SEQUENCE: Edit -> Option<nat> := (e: Edit) => e.lastSequence

  lemma {:induction false} DecodeSnoc(name: Bytes, records: seq<Bytes>, i: nat)
    requires i < |records|
    ensures DecodeAll(name, records[..i + 1]) ==
            match DecodeAll(name, records[..i])
            case None => None
            case Some(edits) =>
              var (e, ok) := DecodeFields(records[i], 0, EMPTY);
              if ok && Names(e, name) then Some(edits + [e]) else None
  {
    assert records[..i + 1][..i] == records[..i];
  }

  lemma {:induction false} DecodeStops(name: Bytes, records: seq<Bytes>, i: nat)
    requires i <= |records| && DecodeAll(name, records[..i]).None?
    ensures DecodeAll(name, records).None?
    decreases |records| - i
  {
    if i < |records| {
      DecodeSnoc(name, records, i);
      DecodeStops(name, records, i + 1);
    } else {
      assert records[..i] == records;
    }
  }

  /** Parsing only yields levels that exist. */
  lemma {:induction false} LevelsParsed(data: Bytes, pos: nat, e: Edit)
    requires (forall d <- e.deleted :: d.0 < NUM_LEVELS) && (forall n <- e.added :: n.0 < NUM_LEVELS)
    requires forall p <- e.compactPointers :: p.0 < NUM_LEVELS
    ensures var r := DecodeFields(data, pos, e).0;
            && (forall d <- r.deleted :: d.0 < NUM_LEVELS) && (forall n <- r.added :: n.0 < NUM_LEVELS)
            && (forall p <- r.compactPointers :: p.0 < NUM_LEVELS)
    decreases |data| - pos
  {
    if pos < |data| && ParseField(data, pos).Some? {
      var (f, next) := ParseField(data, pos).value;
      LevelOfField(data, pos);
      if f.DeletedFile? {
        InsertMembers(e.deleted, (f.level, f.number));
      }
      LevelsParsed(data, next, ApplyField(e, f));
    }
  }

  lemma {:induction false} InsertMembers(s: seq<(nat, nat)>, x: (nat, nat))
    ensures forall y <- Insert(s, x) :: y in s || y == x
  {
    if |s| > 0 {
      InsertMembers(s[1..], x);
    }
  }

  lemma {:induction false} PartsFit(data: Bytes, pos: nat, kinds: seq<Kind>)
    ensures ParseParts(data, pos, kinds).Some? ==> forall p <- ParseParts(data, pos, kinds).value.0 :: PartFits(p)
    decreases |kinds|
  {
    if |kinds| > 0 && ParsePart(data, pos, kinds[0]).Some? {
      PartsFit(data, ParsePart(data, pos, kinds[0]).value.1, kinds[1..]);
    }
  }

  lemma {:induction false} LevelOfField(data: Bytes, pos: nat)
    requires ParseField(data, pos).Some?
    ensures var f := ParseField(data, pos).value.0; f.DeletedFile? || f.NewFile? || f.CompactPointer? ==> f.level < NUM_LEVELS
  {
    var (tag, next) := GetVarint32(data, pos).value;
    var kinds := Shape(tag).value;
    var (ps, _) := ParseParts(data, next, kinds).value;
    PartsFit(data, next, kinds);
    KindsAt(ps);
    if tag == 5 || tag == 6 || tag == 7 {
      assert ps[0] in ps && KindOf(ps[0]) == ALevel;
    }
  }

  /** Replay records in order; each must parse, name the comparator and so on. */
  method Recover(name: Bytes, rank: Ranking, records: seq<Bytes>) returns (result: Result)
    ensures DecodeAll(name, records).None? ==> !result.Ok?
    ensures DecodeAll(name, records).Some? ==> Holds(result, rank, DecodeAll(name, records).value)
  {
    var logNumber, prevLogNumber, nextFile, lastSequence: Option<nat> := None, None, None, None;
    var builder := new Builder(rank, seq(NUM_LEVELS, _ => []), seq(NUM_LEVELS, _ => []));
    assert records[..0] == [];
    for i := 0 to |records|
      invariant fresh(builder) && builder.Valid() && builder.rank == rank && builder.base == seq(NUM_LEVELS, _ => [])
      invariant builder.startPointer == seq(NUM_LEVELS, _ => [])
      invariant DecodeAll(name, records[..i]) == Some(builder.edits)
      invariant logNumber == Last(builder.edits, LOG_NUMBER) && prevLogNumber == Last(builder.edits, PREV_LOG_NUMBER)
      invariant nextFile == Last(builder.edits, NEXT_FILE) && lastSequence == Last(builder.edits, LAST_SEQUENCE)
    {
      DecodeSnoc(name, records, i);
      var edit := new VersionEdit();
      var ok := edit.DecodeFrom(records[i]);
      var e := edit.contents;
      assert Cleared(EMPTY) == EMPTY;
      if !ok {
        DecodeStops(name, records, i + 1);
        return Corruption;
      }
      if e.comparator.Some? && e.comparator.value != name {
        DecodeStops(name, records, i + 1);
        return InvalidArgument;
      }
      LevelsParsed(records[i], 0, EMPTY);
      LastNext(builder.edits, e, LOG_NUMBER);
      LastNext(builder.edits, e, PREV_LOG_NUMBER);
      LastNext(builder.edits, e, NEXT_FILE);
      LastNext(builder.edits, e, LAST_SEQUENCE);
      builder.Apply(e);
      logNumber := if e.logNumber.Some? then e.logNumber else logNumber;
      prevLogNumber := if e.prevLogNumber.Some? then e.prevLogNumber else prevLogNumber;
      nextFile := if e.nextFile.Some? then e.nextFile else nextFile;
      lastSequence := if e.lastSequence.Some? then e.lastSequence else lastSequence;
    }
    assert records[..|records|] == records;
    if nextFile.None? || logNumber.None? || lastSequence.None? {
      return Corruption;
    }
    var files := SaveAll(builder);
    forall l | 0 <= l < NUM_LEVELS
      ensures Sorted(rank, files[l]) && Elements(files[l]) == Saved(rank, {}, builder.edits, l)
    {
      assert SavedAs(builder, files, l) && Elements(builder.base[l]) == {};
      assert NothingTwice(rank, {}, builder.edits, l);
    }
    return Ok(Recovered(files, builder.compactPointer, nextFile.value + 1, lastSequence.value, logNumber.value,
                        if prevLogNumber.Some? then prevLogNumber.value else 0));
  }

  ghost predicate SavedAs(builder: Builder, files: seq<seq<Meta>>, l: nat)
    requires l < |files| && l < |builder.base|
    reads builder
  {
    && Elements(files[l]) == Saved(builder.rank, Elements(builder.base[l]), builder.edits, l)
    && (NothingTwice(builder.rank, Elements(builder.base[l]), builder.edits, l) ==> Sorted(builder.rank, files[l]))
  }

  method SaveAll(builder: Builder) returns (files: seq<seq<Meta>>)
    requires builder.Valid()
    ensures |files| == NUM_LEVELS
    ensures forall l :: 0 <= l < NUM_LEVELS ==> SavedAs(builder, files, l)
  {
    files := [];
    for l := 0 to NUM_LEVELS
      invariant |files| == l
      invariant forall k :: 0 <= k < l ==> SavedAs(builder, files, k)
    {
      var level := builder.SaveTo(l);
      ghost var before := files;
      files := files + [level];
      forall k | 0 <= k < l + 1 ensures SavedAs(builder, files, k) {
        assert k < l ==> SavedAs(builder, before, k);
      }
    }
  }

  // ----- What was written is what is recovered -----

  function Encode(e: Edit): Bytes {
    EncodeFields(Fields(e))
  }

  function EncodeAll(edits: seq<Edit>): seq<Bytes> {
    seq(|edits|, i requires 0 <= i < |edits| => Encode(edits[i]))
  }

  lemma {:induction false} EncodeAllLength(edits: seq<Edit>)
    ensures |EncodeAll(edits)| == |edits|
  {
  }

  lemma {:induction false} EncodedDecodes(name: Bytes, edits: seq<Edit>)
    requires forall e <- edits :: EditFits(e) && Names(e, name)
    ensures DecodeAll(name, EncodeAll(edits)) == Some(edits)
  {
    hide Encode, EditFits, Names, DecodeFields;
    if |edits| > 0 {
      var fewer, e := edits[..|edits| - 1], edits[|edits| - 1];
      assert EncodeAll(edits)[..|edits| - 1] == EncodeAll(fewer);
      EncodedDecodes(name, fewer);
      OneDecodes(e);
      assert fewer + [e] == edits;
    }
  }

  lemma {:induction false} OneDecodes(e: Edit)
    requires EditFits(e)
    ensures DecodeFields(Encode(e), 0, EMPTY) == (e, true)
  {
    hide DecodeFields, EncodeFields, Fields, EditFits;
    DecodeUndoesEncode(e, EMPTY);
    assert Cleared(EMPTY) == EMPTY && [] + e.compactPointers == e.compactPointers;
  }

  /** The edit that stands for a whole file map. */
  method WriteSnapshot(name: Bytes, pointers: seq<Bytes>, files: seq<seq<Meta>>) returns (e: Edit)
    requires |pointers| == |files| == NUM_LEVELS
    ensures e.comparator == Some(name) && e.deleted == []
    ensures e.logNumber.None? && e.prevLogNumber.None? && e.nextFile.None? && e.lastSequence.None?
    ensures e.added == AllFiles(files, NUM_LEVELS)
    ensures e.compactPointers == SetPointers(pointers, NUM_LEVELS)
  {
    e := EMPTY.(comparator := Some(name));
    for level := 0 to NUM_LEVELS
      invariant e == EMPTY.(comparator := Some(name), compactPointers := e.compactPointers)
      invariant e.compactPointers == SetPointers(pointers, level)
    {
      if pointers[level] != [] {
        e := e.(compactPointers := e.compactPointers + [(level, pointers[level])]);
      }
    }
    ghost var cp := e.compactPointers;
    for level := 0 to NUM_LEVELS
      invariant e == EMPTY.(comparator := Some(name), compactPointers := cp, added := AllFiles(files, level))
    {
      for i := 0 to |files[level]|
        invariant e == EMPTY.(comparator := Some(name), compactPointers := cp,
                              added := AllFiles(files, level) + Leveled(files[level][..i], level))
      {
        assert files[level][..i + 1] == files[level][..i] + [files[level][i]];
        e := e.(added := e.added + [(level, files[level][i])]);
      }
      assert files[level][..|files[level]|] == files[level];
    }
  }

  /** The pointers that are set, by level. */
  function SetPointers(pointers: seq<Bytes>, n: nat): seq<(nat, Bytes)>
    requires n <= |pointers|
  {
    if n == 0 then []
    else SetPointers(pointers, n - 1) + if pointers[n - 1] != [] then [(n - 1, pointers[n - 1])] else []
  }

  lemma {:induction false} PointersRestored(pointers: seq<Bytes>, n: nat, level: nat)
    requires n <= |pointers| && level < |pointers|
    ensures LastPointer([], SetPointers(pointers, n), level) == if level < n then pointers[level] else []
  {
    if n > 0 {
      PointersRestored(pointers, n - 1, level);
      hide LastPointer;
      var before, key := SetPointers(pointers, n - 1), pointers[n - 1];
      PointerSet(before, n - 1, key, level);
      assert SetPointers(pointers, n) == if key != [] then before + [(n - 1, key)] else before;
    } else {
      assert SetPointers(pointers, 0) == [];
    }
  }

  lemma {:induction false} PointerSet(pointers: seq<(nat, Bytes)>, l: nat, key: Bytes, level: nat)
    ensures LastPointer([], pointers + [(l, key)], level) == if l == level then key else LastPointer([], pointers, level)
  {
    assert (pointers + [(l, key)])[..|pointers|] == pointers;
  }

  /** A snapshot of the pointers followed by edits gives what the edits make of the pointers. */
  lemma {:induction false} PointersThenEdits(pointers: seq<Bytes>, s: Edit, edits: seq<Edit>, level: nat)
    requires |pointers| == NUM_LEVELS && level < NUM_LEVELS && s.compactPointers == SetPointers(pointers, NUM_LEVELS)
    ensures PointerAfter([], [s] + edits, level) == PointerAfter(pointers[level], edits, level)
    decreases |edits|
  {
    if |edits| == 0 {
      assert [s] + edits == [s] && [s][..0] == [];
      PointersRestored(pointers, NUM_LEVELS, level);
    } else {
      assert ([s] + edits)[..|edits|] == [s] + edits[..|edits| - 1];
      PointersThenEdits(pointers, s, edits[..|edits| - 1], level);
    }
  }

  function Leveled(files: seq<Meta>, level: nat): seq<(nat, Meta)> {
    seq(|files|, i requires 0 <= i < |files| => (level, files[i]))
  }

  function AllFiles(files: seq<seq<Meta>>, n: nat): seq<(nat, Meta)>
    requires n <= |files|
  {
    if n == 0 then [] else AllFiles(files, n - 1) + Leveled(files[n - 1], n - 1)
  }

  lemma {:induction false} AllFilesAt(files: seq<seq<Meta>>, n: nat, level: nat, f: Meta)
    requires n <= |files|
    ensures (level, f) in AllFiles(files, n) <==> level < n && f in files[level]
  {
    if n > 0 {
      AllFilesAt(files, n - 1, level, f);
      if level == n - 1 && f in files[level] {
        var i :| 0 <= i < |files[level]| && files[level][i] == f;
        assert Leveled(files[n - 1], n - 1)[i] == (level, f);
      }
    }
  }

  lemma {:induction false} SnapshotFiles(files: seq<seq<Meta>>, level: nat)
    requires level < NUM_LEVELS == |files|
    ensures AddedAt(AllFiles(files, NUM_LEVELS), level) == Elements(files[level])
  {
    var ns := AllFiles(files, NUM_LEVELS);
    forall f ensures f in AddedAt(ns, level) <==> f in files[level] {
      AllFilesAt(files, NUM_LEVELS, level, f);
      if f in AddedAt(ns, level) {
        var n :| n in ns && n.0 == level && n.1 == f;
        assert n == (level, f);
      }
      if f in files[level] {
        assert (level, f) in ns && (level, f).0 == level && (level, f).1 == f;
      }
    }
  }

  /** A snapshot followed by edits gives what the edits make of the files in the snapshot. */
  lemma {:induction false} SnapshotThenEdits(files: set<Meta>, s: Edit, edits: seq<Edit>, level: nat)
    requires s.deleted == [] && AddedAt(s.added, level) == files
    requires forall i, j :: 0 <= i < j < |s.added| && s.added[i].0 == level && s.added[j].0 == level ==>
               s.added[i].1.number != s.added[j].1.number
    ensures ApplyEdits({}, [s] + edits, level) == ApplyEdits(files, edits, level)
    ensures AllAdded([s] + edits, level) == files + AllAdded(edits, level)
    ensures Fresh(files, edits, level) ==> Fresh({}, [s] + edits, level)
    decreases |edits|
  {
    if |edits| == 0 {
      assert [s] + edits == [s] && [s][..0] == [];
    } else {
      var fewer := edits[..|edits| - 1];
      assert ([s] + edits)[..|edits|] == [s] + fewer;
      SnapshotThenEdits(files, s, fewer, level);
      assert {} + AllAdded([s] + fewer, level) == files + AllAdded(fewer, level);
    }
  }

  // ----- The manifest file -----

  /** Recover from the manifest file; a corruption that its log reader reports is an error. */
  method RecoverManifest(crc: LogFormat.Checksum, name: Bytes, rank: Ranking, manifest: Bytes) returns (result: Result)
    ensures var (records, reports) := LogFormat.ReadAll(crc, manifest, 0, 0);
            && (reports > 0 || DecodeAll(name, records).None? ==> !result.Ok?)
            && (reports == 0 && DecodeAll(name, records).Some? ==> Holds(result, rank, DecodeAll(name, records).value))
  {
    var records, reports := LogFile.ReadRecords(crc, manifest);
    if reports > 0 {
      return Corruption;
    }
    result := Recover(name, rank, records);
  }

  /** The result has what the builder saves of the edits, starting from nothing. */
  ghost predicate Holds(result: Result, rank: Ranking, edits: seq<Edit>) {
    && (result.Ok? <==> Last(edits, NEXT_FILE).Some? && Last(edits, LOG_NUMBER).Some? && Last(edits, LAST_SEQUENCE).Some?)
    && (result.Ok? ==>
          && result.state.nextFileNumber == Last(edits, NEXT_FILE).value + 1
          && result.state.logNumber == Last(edits, LOG_NUMBER).value
          && result.state.lastSequence == Last(edits, LAST_SEQUENCE).value
          && result.state.prevLogNumber == (if Last(edits, PREV_LOG_NUMBER).Some? then Last(edits, PREV_LOG_NUMBER).value else 0)
          && |result.state.files| == NUM_LEVELS == |result.state.compactPointers|
          && forall l :: 0 <= l < NUM_LEVELS ==>
               && result.state.compactPointers[l] == PointerAfter([], edits, l)
               && Sorted(rank, result.state.files[l]) && Elements(result.state.files[l]) == Saved(rank, {}, edits, l))
  }

  /** The recovered files are those of the edits applied one at a time exactly if no file comes back and none is
      shut out. */
  lemma {:induction false} RecoversExactly(result: Result, rank: Ranking, edits: seq<Edit>, l: nat)
    requires Holds(result, rank, edits) && result.Ok? && l < NUM_LEVELS
    ensures Elements(result.state.files[l]) == ApplyEdits({}, edits, l) <==> Faithful(rank, {}, edits, l)
  {
    CollectedIsAppliedExactly(rank, {}, edits, l);
  }

  /** An edit that LogAndApply completed: it carries all the numbers. */
  predicate Complete(e: Edit) {
    e.logNumber.Some? && e.prevLogNumber.Some? && e.nextFile.Some? && e.lastSequence.Some?
  }

  lemma {:induction false} CutManifest(crc: LogFormat.Checksum, name: Bytes, edits: seq<Edit>, cut: nat) returns (k: nat)
    requires forall e <- edits :: EditFits(e) && Names(e, name)
    requires cut <= |LogFormat.LogOf(crc, 0, EncodeAll(edits))|
    ensures k <= |edits|
    ensures |LogFormat.LogOf(crc, 0, EncodeAll(edits)[..k])| <= cut
    ensures k < |edits| ==> cut < |LogFormat.LogOf(crc, 0, EncodeAll(edits)[..k + 1])|
    ensures LogFormat.ReadAll(crc, LogFormat.LogOf(crc, 0, EncodeAll(edits))[..cut], 0, 0) == (EncodeAll(edits[..k]), 0)
    ensures DecodeAll(name, EncodeAll(edits[..k])) == Some(edits[..k])
  {
    hide Encode;
    k := LogRecovery.WholeRecordsExist(crc, EncodeAll(edits), cut);
    assert EncodeAll(edits)[..k] == EncodeAll(edits[..k]);
    EncodedDecodes(name, edits[..k]);
  }

  /** The result has the numbers of the last of the edits, and the files that the edits, one at a
      time, make of `files`, as sorted lists. */
  ghost predicate RecoveredTo(result: Result, rank: Ranking, files: seq<seq<Meta>>, pointers: seq<Bytes>, edits: seq<Edit>) {
    && result.Ok? && |edits| > 0 && |files| == NUM_LEVELS == |result.state.files|
    && |pointers| == NUM_LEVELS == |result.state.compactPointers|
    && var last := edits[|edits| - 1];
    && Some(result.state.lastSequence) == last.lastSequence
    && Some(result.state.logNumber) == last.logNumber
    && Some(result.state.prevLogNumber) == last.prevLogNumber
    && last.nextFile.Some? && result.state.nextFileNumber == last.nextFile.value + 1
    && forall l :: 0 <= l < NUM_LEVELS ==>
         && result.state.compactPointers[l] == PointerAfter(pointers[l], edits, l)
         && Sorted(rank, result.state.files[l])
         && Elements(result.state.files[l]) == ApplyEdits(Elements(files[l]), edits, l)
  }

  lemma {:induction false} SnapshotRecovers(result: Result, rank: Ranking, files: seq<seq<Meta>>, pointers: seq<Bytes>,
                                            s: Edit, edits: seq<Edit>)
    requires |files| == NUM_LEVELS == |pointers| && s.deleted == [] && s.added == AllFiles(files, NUM_LEVELS)
    requires s.compactPointers == SetPointers(pointers, NUM_LEVELS)
    requires |edits| > 0 && Complete(edits[|edits| - 1])
    requires forall l :: 0 <= l < NUM_LEVELS ==> Fresh(Elements(files[l]), edits, l) && DistinctNumbers(s.added, l)
    requires Holds(result, rank, [s] + edits)
    ensures RecoveredTo(result, rank, files, pointers, edits)
  {
    hide Fresh, ApplyEdits, Sorted, Saved;
    LastComplete([s] + edits, edits[|edits| - 1]);
    forall l | 0 <= l < NUM_LEVELS
      ensures Saved(rank, {}, [s] + edits, l) == ApplyEdits(Elements(files[l]), edits, l)
      ensures PointerAfter([], [s] + edits, l) == PointerAfter(pointers[l], edits, l)
    {
      SnapshotFiles(files, l);
      SnapshotThenEdits(Elements(files[l]), s, edits, l);
      FreshIsApplied(rank, {}, [s] + edits, l);
      PointersThenEdits(pointers, s, edits, l);
    }
  }

  /** A manifest holds a snapshot of `files` and then the edits of LogAndApply.  Whatever byte it was
      cut at, recovery gives what exactly the edits whose records are wholly there say; it fails only
      if not even one of them is. */
  method ReplayCutManifest(crc: LogFormat.Checksum, name: Bytes, rank: Ranking, manifest: Bytes,
                           ghost files: seq<seq<Meta>>, ghost pointers: seq<Bytes>, ghost s: Edit, ghost edits: seq<Edit>)
    returns (result: Result, ghost k: nat)
    requires |files| == NUM_LEVELS == |pointers| && s.nextFile.None?
    requires s.deleted == [] && s.added == AllFiles(files, NUM_LEVELS)
    requires s.compactPointers == SetPointers(pointers, NUM_LEVELS)
    requires forall e <- [s] + edits :: EditFits(e) && Names(e, name)
    requires forall e <- edits :: Complete(e)
    requires manifest <= LogFormat.LogOf(crc, 0, EncodeAll([s] + edits))
    requires forall l :: 0 <= l < NUM_LEVELS ==> Fresh(Elements(files[l]), edits, l) && DistinctNumbers(s.added, l)
    ensures k <= |edits|
    ensures k < |edits| ==> |manifest| < |LogFormat.LogOf(crc, 0, EncodeAll([s] + edits)[..k + 2])|
    ensures k > 0 ==> |LogFormat.LogOf(crc, 0, EncodeAll([s] + edits)[..k + 1])| <= |manifest|
    ensures k == 0 ==> !result.Ok?
    ensures k > 0 ==> RecoveredTo(result, rank, files, pointers, edits[..k])
  {
    hide *;
    ghost var all := [s] + edits;
    EncodeAllLength(all);
    ghost var n := CutManifest(crc, name, all, |manifest|);
    assert LogFormat.LogOf(crc, 0, EncodeAll(all))[..|manifest|] == manifest;
    result := RecoverManifest(crc, name, rank, manifest);
    k := if n == 0 then 0 else n - 1;
    if k > 0 {
      assert all[..n] == [s] + edits[..k] && edits[..k][k - 1] in edits;
      forall l | 0 <= l < NUM_LEVELS ensures Fresh(Elements(files[l]), edits[..k], l) {
        FreshPrefix(Elements(files[l]), edits, k, l);
      }
      SnapshotRecovers(result, rank, files, pointers, s, edits[..k]);
    } else {
      NothingHolds(result, rank, all[..n], s);
      if n == 0 {
        LogGrows(crc, EncodeAll(all));
      }
    }
  }

  lemma {:induction false} NothingHolds(result: Result, rank: Ranking, edits: seq<Edit>, s: Edit)
    requires |edits| <= 1 && (|edits| == 1 ==> edits[0] == s) && s.nextFile.None? && Holds(result, rank, edits)
    ensures !result.Ok?
  {
    if |edits| == 1 {
      assert edits[..0] == [] && NEXT_FILE(edits[0]).None?;
      assert Last([], NEXT_FILE).None?;
    }
  }

  lemma {:induction false} FreshPrefix(files: set<Meta>, edits: seq<Edit>, k: nat, level: nat)
    requires Fresh(files, edits, level) && k <= |edits|
    ensures Fresh(files, edits[..k], level)
    decreases |edits|
  {
    if k < |edits| {
      FreshPrefix(files, edits[..|edits| - 1], k, level);
      assert edits[..|edits| - 1][..k] == edits[..k];
    } else {
      assert edits[..k] == edits;
    }
  }

  lemma {:induction false} LastComplete(edits: seq<Edit>, e: Edit)
    requires |edits| > 0 && edits[|edits| - 1] == e && Complete(e)
    ensures Last(edits, LOG_NUMBER) == e.logNumber && Last(edits, PREV_LOG_NUMBER) == e.prevLogNumber
    ensures Last(edits, NEXT_FILE) == e.nextFile && Last(edits, LAST_SEQUENCE) == e.lastSequence
  {
  }

  /** A log does not get shorter with its second record. */
  lemma {:induction false} LogGrows(crc: LogFormat.Checksum, records: seq<Bytes>)
    ensures |records| >= 2 ==> |LogFormat.LogOf(crc, 0, records[..1])| <= |LogFormat.LogOf(crc, 0, records[..2])|
  {
    if |records| >= 2 {
      assert records[..2] == records[..1] + [records[1]];
      LogRecovery.LogConcat(crc, 0, records[..1], [records[1]]);
    }
  }
}
