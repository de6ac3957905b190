/** From selected inputs to installed outputs, the level of a flushed memtable, and trivial moves. */
module CompactionRun {
  import opened Common
  import opened InternalKey
  import opened Versions
  import opened Compaction
  import opened CompactionMeaning
  import opened Lsm
  import opened Selection
  import opened Store

  // ----- Outputs as tables -----

  /** The table that an output becomes; its file number is the next one free. */
  function TableOf(o: Output, number: nat, size: nat): RawFile {
    RawFile(number, size, o.smallest, o.largest, o.entries)
  }

  /** Where output `i` starts in the concatenation. */
  ghost function Start(outputs: seq<Output>, i: nat): nat
    requires i <= |outputs|
  {
    |Concatenation(outputs[..i])|
  }

  lemma {:induction false} ConcatenationHas(outputs: seq<Output>, i: nat, k: nat)
    requires i < |outputs| && k < |outputs[i].entries|
    ensures Start(outputs, i) + k < |Concatenation(outputs)|
    ensures Concatenation(outputs)[Start(outputs, i) + k] == outputs[i].entries[k]
  {
    var front := outputs[..|outputs| - 1];
    if i < |outputs| - 1 {
      ConcatenationHas(front, i, k);
      assert front[..i] == outputs[..i];
    } else {
      assert outputs[..i] == front;
    }
  }

  lemma {:induction false} StartAscends(outputs: seq<Output>, i: nat, j: nat)
    requires i < j <= |outputs|
    ensures Start(outputs, i) + |outputs[i].entries| <= Start(outputs, j)
    decreases j
  {
    assert outputs[..j][..j - 1] == outputs[..j - 1];
    if i < j - 1 {
      StartAscends(outputs, i, j - 1);
    }
  }

  /** Pieces of a sorted sequence are sorted and follow each other. */
  lemma {:induction false} PiecesSorted(outputs: seq<Output>, i: nat, k: nat, j: nat, m: nat)
    requires Sorted(Concatenation(outputs))
    requires i < |outputs| && j < |outputs| && k < |outputs[i].entries| && m < |outputs[j].entries|
    requires i < j || (i == j && k < m)
    ensures Before(outputs[i].entries[k], outputs[j].entries[m])
  {
    ConcatenationHas(outputs, i, k);
    ConcatenationHas(outputs, j, m);
    if i < j {
      StartAscends(outputs, i, j);
    }
    assert Before(Concatenation(outputs)[Start(outputs, i) + k], Concatenation(outputs)[Start(outputs, j) + m]);
  }

  lemma {:induction false} ConcatenationElements(outputs: seq<Output>)
    ensures forall e :: e in Concatenation(outputs) <==> exists i :: 0 <= i < |outputs| && e in outputs[i].entries
  {
    if |outputs| > 0 {
      ConcatenationElements(outputs[..|outputs| - 1]);
    }
  }

  lemma {:induction false} OutputTable(outputs: seq<Output>, i: nat, number: nat, size: nat)
    requires Sorted(Concatenation(outputs)) && Parsed(Concatenation(outputs))
    requires i < |outputs| && IsOutput(outputs[i])
    ensures IsTable(TableOf(outputs[i], number, size))
  {
    ConcatenationElements(outputs);
    forall k, m | 0 <= k < m < |outputs[i].entries| ensures Before(outputs[i].entries[k], outputs[i].entries[m]) {
      PiecesSorted(outputs, i, k, i, m);
    }
  }

  /** The outputs become tables with consecutive numbers, in key order, holding exactly the
      surviving entries. */
  method MakeTables(outputs: seq<Output>, nextFileNumber: nat, fileSize: seq<Entry> -> nat) returns (files: seq<File>)
    requires forall o :: o in outputs ==> IsOutput(o)
    requires Sorted(Concatenation(outputs)) && Parsed(Concatenation(outputs))
    ensures |files| == |outputs|
    ensures forall i :: 0 <= i < |files| ==> files[i].number == nextFileNumber + i && files[i].entries == outputs[i].entries
    ensures Separated(Files(files)) && Stored(Files(files)) == Elements(Concatenation(outputs))
  {
    files := [];
    for i := 0 to |outputs|
      invariant |files| == i
      invariant forall j :: 0 <= j < i ==> files[j] == TableOf(outputs[j], nextFileNumber + j, fileSize(outputs[j].entries))
    {
      OutputTable(outputs, i, nextFileNumber + i, fileSize(outputs[i].entries));
      var f: File := TableOf(outputs[i], nextFileNumber + i, fileSize(outputs[i].entries));
      files := files + [f];
    }
    TablesFollow(outputs, files);
  }

  /** Tables of the pieces hold what the pieces hold and do not interleave. */
  lemma {:induction false} TablesFollow(outputs: seq<Output>, files: seq<File>)
    requires forall o :: o in outputs ==> IsOutput(o)
    requires Sorted(Concatenation(outputs)) && |files| == |outputs|
    requires forall j {:trigger files[j]} :: 0 <= j < |files| ==>
      && files[j].entries == outputs[j].entries
      && files[j].smallest == outputs[j].smallest && files[j].largest == outputs[j].largest
    ensures Separated(Files(files)) && Stored(Files(files)) == Elements(Concatenation(outputs))
  {
    forall i, j {:trigger Before(files[i].largest, files[j].smallest)} | 0 <= i < j < |files|
      ensures Before(files[i].largest, files[j].smallest)
    {
      assert outputs[i] in outputs && outputs[j] in outputs;
      PiecesSorted(outputs, i, |outputs[i].entries| - 1, j, 0);
    }
    DisjointSeparated(files);
    hide Sorted, Separated;
    ConcatenationElements(outputs);
    forall e | e in Elements(Concatenation(outputs)) ensures e in Stored(Files(files)) {
      var i :| 0 <= i < |outputs| && e in outputs[i].entries;
      assert files[i] in Files(files) && e in files[i].entries;
    }
  }

  /** A whole compaction of selected inputs: the tables it produces are those of a step of
      the store. */
  method RunCompaction(db: Store, level: nat, in0: seq<File>, in1: seq<File>, lo: UserKey, hi: UserKey, input: seq<Entry>,
                       grandparents: seq<File>, nextFileNumber: nat, maxOutputFileSize: nat, maxOverlap: nat,
                       fileSize: seq<Entry> -> nat, smallest: nat, ghost v': Version)
    returns (files: seq<File>)
    requires smallest <= db.SmallestSnapshot()
    requires Inv(db) && Selected(db.version, level, Files(in0), Files(in1), lo, hi)
    requires Sorted(input) && Elements(input) == Stored(Files(in0) + Files(in1))
    requires db.last < MAX_SEQUENCE
    ensures forall i :: 0 <= i < |files| ==> files[i].number == nextFileNumber + i
    ensures Replaces(db.version, v', level, Files(in0), Files(in1), Files(files)) ==>
      Compacts(db, db.(version := v', horizon := Max(db.horizon, smallest)), level,
               Files(in0), Files(in1), Files(files), input, smallest)
  {
    assert |db.snapshots| > 0 ==> db.snapshots[0] in db.snapshots;
    var c := new CompactionState(db.version, level, grandparents, maxOutputFileSize, maxOverlap);
    var outputs := DoCompactionWork(c, input, smallest, fileSize);
    SurvivorsSorted(db.version, level, input, |input|, smallest);
    JobWf(db, level, Files(in0), Files(in1), input, smallest);
    SurvivorsAre(db.version, level, input, |input|, smallest);
    files := MakeTables(outputs, nextFileNumber, fileSize);
  }

  // ----- Where a flushed memtable goes -----

  const MAX_MEM_COMPACT_LEVEL := 2

  /** Sequence numbers fit in 56 bits. */
  ghost predicate SequencesFit(files: seq<File>) {
    forall f :: f in files ==> f.largest.sequence <= MAX_SEQUENCE
  }

  method SomeFileOverlapsRange(files: seq<File>, disjoint: bool, range: KeyRange) returns (r: bool)
    requires disjoint ==> Disjoint(files) && SequencesFit(files)
    ensures r <==> exists f :: f in files && range.Meets(f)
  {
    if !disjoint {
      for i := 0 to |files|
        invariant forall j :: 0 <= j < i ==> !range.Meets(files[j])
      {
        if range.Meets(files[i]) {
          return true;
        }
      }
      return false;
    }
    var index := 0;
    if range.begin.Some? {
      index := FindFile(files, range.begin.value, MAX_SEQUENCE);
    }
    forall i | 0 <= i < |files| ensures i < index <==> range.begin.Some? && files[i].largest.key < range.begin.value {
      assert files[i] in files;
    }
    if index >= |files| {
      return false;
    }
    forall i | index < i < |files| ensures files[index].smallest.key <= files[i].smallest.key {
      assert Before(files[index].largest, files[i].smallest);
      EntryBounds(files[index], files[index].largest);
    }
    r := !(range.end.Some? && range.end.value < files[index].smallest.key);
    assert files[index] in files && (r ==> range.Meets(files[index]));
  }

  /** A table of the range may go past level `k`: it meets nothing on the next level, and not too much after that. */
  ghost predicate MayDescend(v: Version, k: nat, lo: UserKey, hi: UserKey, maxGrandparentOverlap: nat)
    requires k + 2 < NUM_LEVELS
  {
    && (forall g :: g in v.levels[k + 1] ==> !Overlaps(g, lo, hi))
    && TotalSize(Filter(v.levels[k + 2], |v.levels[k + 2]|, KeyRange(Some(lo), Some(hi)))) <= maxGrandparentOverlap
  }

  method CanDescend(v: Version, k: nat, lo: UserKey, hi: UserKey, maxGrandparentOverlap: nat) returns (may: bool)
    requires Valid(v) && k + 2 < NUM_LEVELS && SequencesFit(v.levels[k + 1])
    ensures may <==> MayDescend(v, k, lo, hi, maxGrandparentOverlap)
    ensures may ==> forall g :: g in v.levels[k + 1] ==> !Overlaps(g, lo, hi)
  {
    var range := KeyRange(Some(lo), Some(hi));
    assert forall g: File :: range.Meets(g) == Overlaps(g, lo, hi);
    var overlap := SomeFileOverlapsRange(v.levels[k + 1], true, range);
    if overlap {
      return false;
    }
    assert forall g :: g in v.levels[k + 1] ==> !range.Meets(g);
    var overlaps, _ := GetOverlappingInputs(v.levels[k + 2], k + 2, range);
    may := TotalSize(overlaps) <= maxGrandparentOverlap;
  }

  /** The level for a new table of the given key range: the deepest one that it may descend to. */
  method PickLevelForMemTableOutput(v: Version, lo: UserKey, hi: UserKey, maxGrandparentOverlap: nat) returns (level: nat)
    requires Valid(v) && forall l :: 0 <= l < NUM_LEVELS ==> SequencesFit(v.levels[l])
    ensures level <= MAX_MEM_COMPACT_LEVEL
    ensures level > 0 ==> forall l, g :: 0 <= l <= level && g in v.levels[l] ==> !Overlaps(g, lo, hi)
    ensures (exists g :: g in v.levels[0] && Overlaps(g, lo, hi)) ==> level == 0
    ensures (forall g :: g in v.levels[0] ==> !Overlaps(g, lo, hi)) ==>
      && (forall k :: 0 <= k < level ==> MayDescend(v, k, lo, hi, maxGrandparentOverlap))
      && (level < MAX_MEM_COMPACT_LEVEL ==> !MayDescend(v, level, lo, hi, maxGrandparentOverlap))
  {
    hide MayDescend, Disjoint, AllNewer, NumberedByAge;
    level := 0;
    var range := KeyRange(Some(lo), Some(hi));
    assert forall g: File :: range.Meets(g) == Overlaps(g, lo, hi);
    var overlap := SomeFileOverlapsRange(v.levels[0], false, range);
    if !overlap {
      assert forall g :: g in v.levels[0] ==> !range.Meets(g);
      assert forall g :: g in v.levels[0] ==> !Overlaps(g, lo, hi);
      while level < MAX_MEM_COMPACT_LEVEL
        invariant level <= MAX_MEM_COMPACT_LEVEL
        invariant forall l, g :: 0 <= l <= level && g in v.levels[l] ==> !Overlaps(g, lo, hi)
        invariant forall k :: 0 <= k < level ==> MayDescend(v, k, lo, hi, maxGrandparentOverlap)
      {
        var may := CanDescend(v, level, lo, hi, maxGrandparentOverlap);
        if !may {
          break;
        }
        level := level + 1;
      }
    } else {
      assert exists g :: g in v.levels[0] && range.Meets(g);
    }
  }

  // ----- Steps of the store -----

  /** The version lists the new tables at the level and is otherwise the same. */
  ghost predicate Gains(v: Version, v': Version, level: nat, outs: set<File>) {
    && level < NUM_LEVELS && Lists(v', level, Files(v.levels[level]) + outs)
    && forall l :: 0 <= l < NUM_LEVELS && l != level ==> v'.levels[l] == v.levels[l]
  }

  /** Build a table of the immutable memtable and choose its level; an empty memtable makes no table.  When the
      version lists the new table there, it is a flush of the store. */
  method WriteLevel0Table(db: Store, imm: seq<Entry>, number: nat, size: nat, maxGrandparentOverlap: nat, ghost v': Version)
    returns (level: nat, files: seq<File>)
    requires Inv(db) && Sorted(imm) && Elements(imm) == db.imm
    requires forall l :: 0 <= l < NUM_LEVELS ==> SequencesFit(db.version.levels[l])
    requires forall g :: g in db.version.levels[0] ==> g.number < number
    ensures level < NUM_LEVELS && |files| <= 1
    ensures forall f :: f in files ==> f.number == number && f.entries == imm
    ensures Gains(db.version, v', level, Files(files)) ==> Flushes(db, db.(imm := {}, version := v'), level, Files(files))
  {
    hide FlushLevelOk, MayDescend, Stored, Overlaps, Lists, AllStored, AllNewer;
    level, files := 0, [];
    if |imm| > 0 {
      ImmutableParsed(db, imm);
      var f: File := RawFile(number, size, imm[0], imm[|imm| - 1], imm);
      level := PickLevelForMemTableOutput(db.version, f.smallest.key, f.largest.key, maxGrandparentOverlap);
      files := [f];
      OneTable(db, imm, f);
      MayFlush(db.version, level, f);
    } else {
      NoTable(db, imm);
    }
  }

  lemma {:induction false} MayFlush(v: Version, level: nat, f: File)
    requires level < NUM_LEVELS && forall g :: g in v.levels[0] ==> g.number < f.number
    requires level > 0 ==> forall l, g :: 0 <= l <= level && g in v.levels[l] ==> !Overlaps(g, f.smallest.key, f.largest.key)
    ensures FlushLevelOk(v, level, {f})
  {
  }

  lemma {:induction false} OneTable(db: Store, imm: seq<Entry>, f: File)
    requires f.entries == imm && Elements(imm) == db.imm
    ensures Files([f]) == {f} && Stored({f}) == db.imm && |{f}| == 1
  {
    assert f in {f};
  }

  lemma {:induction false} NoTable(db: Store, imm: seq<Entry>)
    requires |imm| == 0 && Elements(imm) == db.imm
    ensures Files([]) == {} && Stored({}) == db.imm && FlushLevelOk(db.version, 0, {})
  {
  }

  lemma {:induction false} ImmutableParsed(db: Store, imm: seq<Entry>)
    requires Inv(db) && Elements(imm) == db.imm
    ensures Parsed(imm)
  {
    forall e | e in imm ensures e.kind != Corrupt {
      assert e in Elements(imm) && e in db.All();
    }
  }

  lemma {:induction false} NothingBelow(v: Version, level: nat, in0: seq<File>, in1: seq<File>, lo: UserKey, hi: UserKey)
    requires Selected(v, level, Files(in0), Files(in1), lo, hi)
    ensures |in1| == 0 <==> forall g :: g in v.levels[level + 1] ==> !Overlaps(g, lo, hi)
    ensures |in0| == 1 ==> in0[0] in v.levels[level]
  {
    assert |in1| > 0 ==> in1[0] in Files(in1);
    assert |in0| > 0 ==> in0[0] in Files(in0);
    assert forall g :: g in v.levels[level + 1] && Overlaps(g, lo, hi) ==> g in Files(in1);
  }

  /** A single input with nothing under it, and not too much two levels down, moves.  When the version lists it on
      the next level instead, it is a move of the store. */
  method TrivialMove(db: Store, level: nat, in0: seq<File>, in1: seq<File>, lo: UserKey, hi: UserKey,
                     grandparents: seq<File>, maxGrandparentOverlap: nat, ghost v': Version)
    returns (moved: Option<File>)
    requires Inv(db) && Selected(db.version, level, Files(in0), Files(in1), lo, hi)
    ensures moved.Some? <==>
      && |in0| == 1 && TotalSize(grandparents) <= maxGrandparentOverlap
      && forall g :: g in db.version.levels[level + 1] ==> !Overlaps(g, lo, hi)
    ensures moved.Some? ==> moved.value in db.version.levels[level]
    ensures moved.Some? && Replaces(db.version, v', level, Files(in0), {}, Files(in0)) ==>
      Moves(db, db.(version := v'), level, moved.value)
  {
    NothingBelow(db.version, level, in0, in1, lo, hi);
    hide Inv, Spans, Overlaps;
    moved := None;
    if |in0| == 1 && |in1| == 0 && TotalSize(grandparents) <= maxGrandparentOverlap {
      moved := Some(in0[0]);
      assert Files(in0) == {in0[0]} && Files(in1) == {};
    }
  }
}
