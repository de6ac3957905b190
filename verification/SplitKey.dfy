/** A run of the store after which a compaction brings a deleted value back.  User key 2 is split over two files of
    level 3, and the compaction of level 2 takes in only the first of them. */
module SplitKey {
  import opened Common
  import opened InternalKey
  import opened Versions
  import opened Compaction
  import opened CompactionMeaning
  import opened Lsm
  import opened Selection
  import opened CompactionRun
  import opened Store

  const FRESH := Entry(1, 5, Value, "new")

  const STALE := Entry(1, 3, Value, "old")

  const TOMBSTONE := Entry(2, 4, Deletion, "")

  const GONE := Entry(2, 2, Value, "gone")

  lemma {:induction false} TablesSorted()
    ensures IsTable(RawFile(6, 1, STALE, GONE, [STALE, TOMBSTONE, GONE]))
    ensures IsTable(RawFile(7, 1, STALE, TOMBSTONE, [STALE, TOMBSTONE]))
  {
  }

  const FLUSHED: File := (TablesSorted(); RawFile(6, 1, STALE, GONE, [STALE, TOMBSTONE, GONE]))

  const UPPER: File := (TablesSorted(); RawFile(7, 1, STALE, TOMBSTONE, [STALE, TOMBSTONE]))

  const LOWER: File := RawFile(8, 1, GONE, GONE, [GONE])

  const PICKED: File := RawFile(9, 1, FRESH, FRESH, [FRESH])

  const MERGED: File := RawFile(10, 1, FRESH, FRESH, [FRESH])

  /** A version with files on levels 2 and 3. */
  function OnTwoLevels(two: seq<File>, three: seq<File>): Version {
    RawVersion([[], [], two, three, [], [], []])
  }

  const SPLIT: Version := OnTwoLevels([PICKED], [UPPER, LOWER])

  // ----- A run that ends in the split -----

  /** Both memtables are flushed to level 2; the first table goes on to level 3 by a manual compaction, as any other
      one would move it there in one piece. */
  const STEPS: seq<Step> := [
    Write({GONE}), TakeSnapshot, Write({STALE, TOMBSTONE}), SwitchMemtable, Flush(2, {FLUSHED}),
    Compact(2, {FLUSHED}, {}, {UPPER, LOWER}, [STALE, TOMBSTONE, GONE], 2), ReleaseSnapshot(0),
    Write({FRESH}), SwitchMemtable, Flush(2, {PICKED})]

  const OLD: set<Entry> := {GONE, STALE, TOMBSTONE}

  function StateAt(i: nat): Store {
    if i == 0 then Store({}, {}, EMPTY_VERSION, 0, [], {}, 0)
    else if i == 1 then Store({GONE}, {}, EMPTY_VERSION, 2, [], {GONE}, 0)
    else if i == 2 then Store({GONE}, {}, EMPTY_VERSION, 2, [2], {GONE}, 0)
    else if i == 3 then Store(OLD, {}, EMPTY_VERSION, 4, [2], OLD, 0)
    else if i == 4 then Store({}, OLD, EMPTY_VERSION, 4, [2], OLD, 0)
    else if i == 5 then Store({}, {}, OnTwoLevels([FLUSHED], []), 4, [2], OLD, 0)
    else if i == 6 then Store({}, {}, OnTwoLevels([], [UPPER, LOWER]), 4, [2], OLD, 2)
    else if i == 7 then Store({}, {}, OnTwoLevels([], [UPPER, LOWER]), 4, [], OLD, 2)
    else if i == 8 then Store({FRESH}, {}, OnTwoLevels([], [UPPER, LOWER]), 5, [], OLD + {FRESH}, 2)
    else if i == 9 then Store({}, {FRESH}, OnTwoLevels([], [UPPER, LOWER]), 5, [], OLD + {FRESH}, 2)
    else Store({}, {}, SPLIT, 5, [], OLD + {FRESH}, 2)
  }

  lemma {:induction false} WriteSteps()
    ensures Next(StateAt(0), StateAt(1), STEPS[0]) && Next(StateAt(2), StateAt(3), STEPS[2])
    ensures Next(StateAt(7), StateAt(8), STEPS[7])
  {
    assert {} + {GONE} == {GONE} && {GONE} + {STALE, TOMBSTONE} == OLD && {} + {FRESH} == {FRESH};
  }

  lemma {:induction false} SmallSteps()
    ensures Next(StateAt(1), StateAt(2), STEPS[1]) && Next(StateAt(3), StateAt(4), STEPS[3])
    ensures Next(StateAt(6), StateAt(7), STEPS[6]) && Next(StateAt(8), StateAt(9), STEPS[8])
  {
    assert [] + [2] == [2] && [2][..0] + [2][1..] == [];
  }

  /** A version with one file more on level 2. */
  lemma {:induction false} OneMore(three: seq<File>, f: File)
    ensures Lists(OnTwoLevels([f], three), 2, Files(OnTwoLevels([], three).levels[2]) + {f})
    ensures forall l :: 0 <= l < NUM_LEVELS && l != 2 ==> OnTwoLevels([f], three).levels[l] == OnTwoLevels([], three).levels[l]
  {
    assert Files([f]) == {f} && Files([]) == {};
  }

  lemma {:induction false} MayGoToTwo(three: seq<File>, f: File)
    ensures FlushLevelOk(OnTwoLevels([], three), 2, {f})
  {
  }

  lemma {:induction false} FirstFlush()
    ensures Next(StateAt(4), StateAt(5), STEPS[4])
  {
    OneMore([], FLUSHED);
    MayGoToTwo([], FLUSHED);
    assert OnTwoLevels([], []) == EMPTY_VERSION;
    StoredHas(FLUSHED, OLD);
    hide Stored, Lists, FlushLevelOk, OnTwoLevels;
  }

  lemma {:induction false} SecondFlush()
    ensures Next(StateAt(9), StateAt(10), STEPS[9])
  {
    OneMore([UPPER, LOWER], PICKED);
    MayGoToTwo([UPPER, LOWER], PICKED);
    StoredHas(PICKED, {FRESH});
    hide Stored, Lists, FlushLevelOk, OnTwoLevels;
  }

  lemma {:induction false} StoredHas(f: File, es: set<Entry>)
    requires forall e :: e in f.entries <==> e in es
    ensures Stored({f}) == es
  {
    assert f in {f};
  }

  lemma {:induction false} TwoFiles()
    ensures Files([UPPER, LOWER]) == {UPPER, LOWER} && Separated({UPPER, LOWER}) && Ordered([UPPER, LOWER])
  {
    assert UPPER in [UPPER, LOWER] && LOWER in [UPPER, LOWER];
  }

  lemma {:induction false} TwoFilesHold()
    ensures Stored({UPPER, LOWER}) == OLD
  {
    assert UPPER in {UPPER, LOWER} && LOWER in {UPPER, LOWER};
    assert STALE in UPPER.entries && TOMBSTONE in UPPER.entries && GONE in LOWER.entries;
  }

  /** With a snapshot at 2, nothing is dropped. */
  lemma {:induction false} NothingDropped()
    ensures Survivors(OnTwoLevels([FLUSHED], []), 2, [STALE, TOMBSTONE, GONE], 3, 2) == [STALE, TOMBSTONE, GONE]
  {
    var v, input := OnTwoLevels([FLUSHED], []), [STALE, TOMBSTONE, GONE];
    assert Survivors(v, 2, input, 0, 2) == [];
    assert Survivors(v, 2, input, 1, 2) == [STALE];
    assert Survivors(v, 2, input, 2, 2) == [STALE, TOMBSTONE];
  }

  lemma {:induction false} FlushedSelected()
    ensures Selected(OnTwoLevels([FLUSHED], []), 2, {FLUSHED}, {}, 1, 2)
    ensures NextLevelClosed(OnTwoLevels([FLUSHED], []), 2, {})
  {
    var v := OnTwoLevels([FLUSHED], []);
    assert v.levels[2] == [FLUSHED] && v.levels[3] == [] && FLUSHED in {FLUSHED};
  }

  lemma {:induction false} FlushedReplaced()
    ensures Replaces(OnTwoLevels([FLUSHED], []), OnTwoLevels([], [UPPER, LOWER]), 2, {FLUSHED}, {}, {UPPER, LOWER})
  {
    TwoFiles();
    assert Files([FLUSHED]) == {FLUSHED} && Files([]) == {};
    assert {FLUSHED} - {FLUSHED} == {} && {} - {} + {UPPER, LOWER} == {UPPER, LOWER};
  }

  lemma {:induction false} FlushedInput()
    ensures Sorted([STALE, TOMBSTONE, GONE]) && Elements([STALE, TOMBSTONE, GONE]) == OLD == Stored({FLUSHED} + {})
  {
    StoredHas(FLUSHED, OLD);
    assert {FLUSHED} + {} == {FLUSHED};
  }

  lemma {:induction false} CompactStep()
    ensures Next(StateAt(5), StateAt(6), STEPS[5])
  {
    FlushedSelected();
    FlushedReplaced();
    FlushedInput();
    TwoFiles();
    TwoFilesHold();
    NothingDropped();
    hide Selected, Replaces, NextLevelClosed, Survivors, Separated, Stored, Sorted, Elements, OnTwoLevels;
  }

  function States(): (states: seq<Store>)
    ensures |states| == 11 && forall i :: 0 <= i < 11 ==> states[i] == StateAt(i)
  {
    seq(11, (i: nat) => StateAt(i))
  }

  lemma {:induction false} StartsAndEnds()
    ensures Init(StateAt(0))
    ensures var db := StateAt(10);
            db == Store({}, {}, SPLIT, 5, [], OLD + {FRESH}, 2) && db.Live(5)
  {
  }

  lemma {:induction false} SplitReached()
    ensures Run(States(), STEPS)
  {
    hide StateAt, Next, States, Init;
    StartsAndEnds();
    WriteSteps();
    SmallSteps();
    FirstFlush();
    SecondFlush();
    CompactStep();
  }

  // ----- The flush levels are the ones that the code picks -----

  /** Both tables go as deep as a flush may: nothing is in their way on levels 0 to 2, and little on the levels after. */
  method PickedLevels(maxGrandparentOverlap: nat) returns (first: nat, second: nat)
    requires maxGrandparentOverlap >= UPPER.size
    ensures first == STEPS[4].flushLevel && second == STEPS[9].flushLevel
  {
    hide MayDescend, NumberedByAge, AllNewer, Disjoint;
    SplitReached();
    RunInv(States(), STEPS, 4);
    RunInv(States(), STEPS, 9);
    NothingUnder(maxGrandparentOverlap);
    first := PickLevelForMemTableOutput(EMPTY_VERSION, FLUSHED.smallest.key, FLUSHED.largest.key, maxGrandparentOverlap);
    second := PickLevelForMemTableOutput(OnTwoLevels([], [UPPER, LOWER]), PICKED.smallest.key, PICKED.largest.key,
                                         maxGrandparentOverlap);
  }

  lemma {:induction false} NothingUnder(maxGrandparentOverlap: nat)
    requires maxGrandparentOverlap >= UPPER.size
    ensures forall k :: 0 <= k < 2 ==> MayDescend(EMPTY_VERSION, k, 1, 2, maxGrandparentOverlap)
    ensures forall k :: 0 <= k < 2 ==> MayDescend(OnTwoLevels([], [UPPER, LOWER]), k, 1, 1, maxGrandparentOverlap)
  {
    var v, r := OnTwoLevels([], [UPPER, LOWER]), KeyRange(Some(1), Some(1));
    assert Filter([UPPER, LOWER], 1, r) == [UPPER];
    assert Filter([UPPER, LOWER], 2, r) == [UPPER];
    assert TotalSize([UPPER]) == UPPER.size;
    assert forall l :: 0 <= l < 3 ==> v.levels[l] == [];
  }

  // ----- The compaction of level 2 -----

  const SPLIT_INPUT: seq<Entry> := [FRESH, STALE, TOMBSTONE]

  lemma {:induction false} SplitSelected()
    ensures Selected(SPLIT, 2, {PICKED}, {UPPER}, 1, 1) && !NextLevelClosed(SPLIT, 2, {UPPER})
  {
    assert SPLIT.levels[2] == [PICKED] && SPLIT.levels[3] == [UPPER, LOWER];
    assert PICKED in {PICKED} && PICKED in SPLIT.levels[2];
    assert UPPER in {UPPER} && LOWER in SPLIT.levels[3];
    assert {UPPER} == set g | g in SPLIT.levels[3] && Overlaps(g, 1, 1);
  }

  /** The old value is hidden by the new one, and the tombstone has no deeper level to hide anything in. */
  lemma {:induction false} OneSurvives()
    ensures Survivors(SPLIT, 2, SPLIT_INPUT, 3, 5) == [FRESH]
  {
    assert forall l :: 4 <= l < NUM_LEVELS ==> SPLIT.levels[l] == [];
    assert Survivors(SPLIT, 2, SPLIT_INPUT, 0, 5) == [];
    assert Survivors(SPLIT, 2, SPLIT_INPUT, 1, 5) == [FRESH];
    assert Survivors(SPLIT, 2, SPLIT_INPUT, 2, 5) == [FRESH];
  }

  lemma {:induction false} SplitReplaced()
    ensures Replaces(SPLIT, OnTwoLevels([], [MERGED, LOWER]), 2, {PICKED}, {UPPER}, {MERGED})
  {
    assert Files([PICKED]) == {PICKED} && Files([]) == {} && Files([UPPER, LOWER]) == {UPPER, LOWER};
    assert Files([MERGED, LOWER]) == {MERGED, LOWER} && Ordered([MERGED, LOWER]);
    assert {PICKED} - {PICKED} == {} && {UPPER, LOWER} - {UPPER} + {MERGED} == {MERGED, LOWER};
  }

  lemma {:induction false} SplitInput()
    ensures Sorted(SPLIT_INPUT) && Elements(SPLIT_INPUT) == Stored({PICKED} + {UPPER})
    ensures Stored({MERGED}) == Elements([FRESH]) && Separated({MERGED})
  {
    assert PICKED in {PICKED} + {UPPER} && UPPER in {PICKED} + {UPPER};
    assert forall e :: e in SPLIT_INPUT <==> e in PICKED.entries || e in UPPER.entries;
    StoredHas(MERGED, {FRESH});
    assert Elements([FRESH]) == {FRESH};
  }

  lemma {:induction false} SplitCompacts(db: Store)
    requires db.version == SPLIT && db.last == 5 && db.snapshots == [] && db.horizon <= 5
    ensures Compacts(db, db.(version := OnTwoLevels([], [MERGED, LOWER]), horizon := 5), 2, {PICKED}, {UPPER}, {MERGED}, SPLIT_INPUT, 5)
  {
    SplitSelected();
    SplitReplaced();
    SplitInput();
    OneSurvives();
    hide Selected, Replaces, NextLevelClosed, Survivors, Separated, Stored, Sorted, Elements, OnTwoLevels;
  }

  lemma {:induction false} StoredOnTwo(two: seq<File>, three: seq<File>, e: Entry)
    ensures e in AllStored(OnTwoLevels(two, three)) <==> exists f :: (f in two || f in three) && e in f.entries
  {
    var v := OnTwoLevels(two, three);
    if e in AllStored(v) {
      var l, f := StoredAt(v, e);
      assert f in two || f in three;
    }
    if f :| f in two && e in f.entries {
      StoredIn(v, 2, f, e);
    }
    if f :| f in three && e in f.entries {
      StoredIn(v, 3, f, e);
    }
  }

  lemma {:induction false} BeforeCompaction()
    ensures AllStored(SPLIT) == OLD + {FRESH}
  {
    forall e ensures e in AllStored(SPLIT) <==> e in OLD + {FRESH} {
      StoredOnTwo([PICKED], [UPPER, LOWER], e);
      assert PICKED in [PICKED] && UPPER in [UPPER, LOWER] && LOWER in [UPPER, LOWER];
      assert forall f :: f in [PICKED] || f in [UPPER, LOWER] ==> f == PICKED || f == UPPER || f == LOWER;
    }
  }

  lemma {:induction false} AfterCompaction()
    ensures AllStored(OnTwoLevels([], [MERGED, LOWER])) == {FRESH, GONE}
  {
    forall e ensures e in AllStored(OnTwoLevels([], [MERGED, LOWER])) <==> e in {FRESH, GONE} {
      StoredOnTwo([], [MERGED, LOWER], e);
      assert MERGED in [MERGED, LOWER] && LOWER in [MERGED, LOWER];
      assert forall f :: f in [MERGED, LOWER] ==> f == MERGED || f == LOWER;
    }
  }

  lemma {:induction false} SplitReads(db: Store, db': Store)
    requires db == StateAt(10) && db' == db.(version := OnTwoLevels([], [MERGED, LOWER]), horizon := 5)
    ensures Read(db.All(), 2, 5) == NotFound && Read(db'.All(), 2, 5) == Found("gone")
  {
    BeforeCompaction();
    AfterCompaction();
    hide AllStored;
    assert db.All() == OLD + {FRESH} && db'.All() == {FRESH, GONE};
    assert IsNewest(OLD + {FRESH}, 2, 5, TOMBSTONE);
    assert IsNewest({FRESH, GONE}, 2, 5, GONE);
    ReadNewest(OLD + {FRESH}, 2, 5, TOMBSTONE);
    ReadNewest({FRESH, GONE}, 2, 5, GONE);
  }

  /** A run of the store reaches a state in which the inputs that the selection code takes do not close the next
      level: the compaction is one but for that, and the deleted value of key 2 comes back. */
  lemma {:induction false} SplitKeyResurrects() returns (states: seq<Store>, steps: seq<Step>, db': Store)
    ensures Run(states, steps)
    ensures var db := states[|states| - 1];
            && Selected(db.version, 2, {PICKED}, {UPPER}, 1, 1) && !NextLevelClosed(db.version, 2, {UPPER})
            && Compacts(db, db', 2, {PICKED}, {UPPER}, {MERGED}, SPLIT_INPUT, 5) && db'.Live(5)
            && Read(db.All(), 2, 5) == NotFound && Read(db.history, 2, 5) == NotFound
            && Read(db'.All(), 2, 5) == Found("gone")
  {
    states, steps := States(), STEPS;
    SplitReached();
    StartsAndEnds();
    var db := StateAt(10);
    db' := db.(version := OnTwoLevels([], [MERGED, LOWER]), horizon := 5);
    SplitSelected();
    SplitCompacts(db);
    SplitReads(db, db');
    hide StateAt, States, Run, Selected, NextLevelClosed, Compacts, Read, OnTwoLevels;
    EveryRunReadsHistory(states, steps, 10, 2, 5);
  }
}
