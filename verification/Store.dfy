/** The store as a state machine, and what its readers see in every reachable state. */
module Store {
  import opened Common
  import opened InternalKey
  import opened Versions
  import opened Compaction
  import opened CompactionMeaning
  import opened Lsm

  /** Memtables and versions hold entries; `history` is every entry ever written.  Snapshots
      are listed oldest first, as the snapshot list keeps them. */
  datatype Store = Store(mem: set<Entry>, imm: set<Entry>, version: Version, last: nat,
                         snapshots: seq<nat>, history: set<Entry>, horizon: nat) {

    ghost function All(): set<Entry> { mem + imm + AllStored(version) }

    /** Compactions keep what readers at or past this sequence number need. */
    function SmallestSnapshot(): nat {
      if |snapshots| == 0 then last else snapshots[0]
    }

    ghost predicate Live(s: nat) { s == last || s in snapshots }
  }

  const EMPTY_VERSION: Version := RawVersion([[], [], [], [], [], [], []])

  ghost predicate Init(db: Store) {
    db == Store({}, {}, EMPTY_VERSION, 0, [], {}, 0)
  }

  // ----- Steps -----

  /** A group of writes takes the next sequence numbers. */
  ghost predicate Writes(db: Store, db': Store, batch: set<Entry>) {
    && db.last <= db'.last
    && (forall e :: e in batch ==> db.last < e.sequence <= db'.last && e.kind != Corrupt)
    && Unique(batch)
    && db' == db.(mem := db.mem + batch, history := db.history + batch, last := db'.last)
  }

  ghost predicate SwitchesMemtable(db: Store, db': Store) {
    db.imm == {} && db' == db.(mem := {}, imm := db.mem)
  }

  /** The immutable memtable becomes one table, or none if it is empty. */
  ghost predicate Flushes(db: Store, db': Store, level: nat, outs: set<File>) {
    && level < NUM_LEVELS
    && Stored(outs) == db.imm && |outs| <= 1
    && FlushLevelOk(db.version, level, outs)
    && Lists(db'.version, level, Files(db.version.levels[level]) + outs)
    && (forall l :: 0 <= l < NUM_LEVELS && l != level ==> db'.version.levels[l] == db.version.levels[l])
    && db' == db.(imm := {}, version := db'.version)
  }

  /** A new table may go below level 0 only past levels that its key range does not meet;
      its number is the highest in use. */
  ghost predicate FlushLevelOk(v: Version, level: nat, outs: set<File>)
    requires level < NUM_LEVELS
  {
    && (forall f, g :: f in outs && g in v.levels[0] ==> g.number < f.number)
    && (level > 0 ==> forall f, l, g :: f in outs && 0 <= l <= level && g in v.levels[l] ==>
          !Overlaps(g, f.smallest.key, f.largest.key))
  }

  /** A single input with nothing under it moves down unchanged. */
  ghost predicate Moves(db: Store, db': Store, level: nat, f: File) {
    && Selected(db.version, level, {f}, {}, f.smallest.key, f.largest.key)
    && Replaces(db.version, db'.version, level, {f}, {}, {f})
    && db' == db.(version := db'.version)
  }

  /** The selected inputs are replaced by what is left of them.  The smallest snapshot is the one of the time when the
      compaction started; snapshots were only taken and released since. */
  ghost predicate Compacts(db: Store, db': Store, level: nat, in0: set<File>, in1: set<File>, outs: set<File>,
                           input: seq<Entry>, smallest: nat) {
    && smallest <= db.SmallestSnapshot()
    && (exists lo, hi :: Selected(db.version, level, in0, in1, lo, hi))
    && Sorted(input) && Elements(input) == Stored(in0 + in1)
    && Separated(outs)
    && Stored(outs) == Elements(Survivors(db.version, level, input, |input|, smallest))
    && Replaces(db.version, db'.version, level, in0, in1, outs)
    && db' == db.(version := db'.version, horizon := Max(db.horizon, smallest))
  }

  datatype Step =
    | Write(batch: set<Entry>)
    | SwitchMemtable
    | Flush(flushLevel: nat, flushed: set<File>)
    | Move(moveLevel: nat, moved: File)
    | Compact(level: nat, in0: set<File>, in1: set<File>, outs: set<File>, input: seq<Entry>, smallest: nat)
    | TakeSnapshot
    | ReleaseSnapshot(index: nat)

  ghost predicate Next(db: Store, db': Store, step: Step) {
    match step
    case Write(batch) => Writes(db, db', batch)
    case SwitchMemtable => SwitchesMemtable(db, db')
    case Flush(level, outs) => Flushes(db, db', level, outs)
    case Move(level, f) => Moves(db, db', level, f)
    case Compact(level, in0, in1, outs, input, smallest) =>
      && level + 1 < NUM_LEVELS && NextLevelClosed(db.version, level, in1)
      && Compacts(db, db', level, in0, in1, outs, input, smallest)
    case TakeSnapshot => db' == db.(snapshots := db.snapshots + [db.last])
    case ReleaseSnapshot(i) => i < |db.snapshots| && db' == db.(snapshots := db.snapshots[..i] + db.snapshots[i + 1..])
  }

  // ----- The invariant -----

  ghost predicate NewerEntries(a: set<Entry>, b: set<Entry>) {
    forall x, y :: x in a && y in b && x.key == y.key ==> x.sequence > y.sequence
  }

  ghost predicate ParsedUpTo(es: set<Entry>, last: nat) {
    forall e :: e in es ==> e.kind != Corrupt && e.sequence <= last
  }

  ghost predicate Ascending(s: seq<nat>) {
    forall i, j :: 0 <= i < j < |s| ==> s[i] <= s[j]
  }

  /** Layers are ordered by age and hold nothing that was not written. */
  ghost predicate LayersOk(db: Store) {
    && Valid(db.version)
    && NewerEntries(db.mem, db.imm) && NewerEntries(db.mem, AllStored(db.version))
    && NewerEntries(db.imm, AllStored(db.version))
    && db.All() <= db.history && Unique(db.history) && ParsedUpTo(db.history, db.last)
  }

  ghost predicate SnapshotsOk(db: Store) {
    && Ascending(db.snapshots) && db.horizon <= db.last
    && forall s :: s in db.snapshots ==> db.horizon <= s <= db.last
  }

  /** Every read past the horizon is answered as the history would answer it. */
  ghost predicate ReadsOk(db: Store) {
    forall key, s :: s >= db.horizon ==> Read(db.All(), key, s) == Read(db.history, key, s)
  }

  ghost predicate Inv(db: Store) {
    LayersOk(db) && SnapshotsOk(db) && ReadsOk(db)
  }

  lemma {:induction false} InitInv(db: Store)
    requires Init(db)
    ensures Inv(db)
  {
    hide Valid, AllStored;
    NothingStored();
  }

  lemma {:induction false} NothingStored()
    ensures Valid(EMPTY_VERSION) && AllStored(EMPTY_VERSION) == {}
  {
    hide AllNewer, NumberedByAge;
    assert forall l :: 0 <= l < NUM_LEVELS ==> EMPTY_VERSION.levels[l] == [];
    assert Files([]) == {};
    NothingNewer();
  }

  lemma {:induction false} NothingNewer()
    ensures AllNewer({}, {}) && NumberedByAge({})
  {
  }

  // ----- Writes -----

  lemma {:induction false} NewerBatchRead(es: set<Entry>, hist: set<Entry>, batch: set<Entry>, last: nat, key: UserKey, s: nat)
    requires es <= hist && Unique(hist + batch)
    requires ParsedUpTo(hist, last)
    requires forall e :: e in batch ==> last < e.sequence
    requires Read(es, key, s) == Read(hist, key, s)
    ensures Read(es + batch, key, s) == Read(hist + batch, key, s)
  {
    if w :| w in batch && w.key == key && Visible(w, s) {
      NewestExists(batch, key, s, w);
      var e :| IsNewest(batch, key, s, e);
      ReadNewest(es + batch, key, s, e);
      ReadNewest(hist + batch, key, s, e);
    } else {
      WithoutBatch(es, batch, key, s);
      WithoutBatch(hist, batch, key, s);
    }
  }

  lemma {:induction false} WithoutBatch(es: set<Entry>, batch: set<Entry>, key: UserKey, s: nat)
    requires Unique(es + batch)
    requires forall e :: e in batch && e.key == key ==> !Visible(e, s)
    ensures Read(es + batch, key, s) == Read(es, key, s)
  {
    if w :| w in es && w.key == key && Visible(w, s) {
      NewestExists(es, key, s, w);
      var e :| IsNewest(es, key, s, e);
      ReadNewest(es, key, s, e);
      ReadNewest(es + batch, key, s, e);
    } else {
      ReadNothing(es, key, s);
      ReadNothing(es + batch, key, s);
    }
  }

  lemma {:induction false} WriteInv(db: Store, db': Store, batch: set<Entry>)
    requires Inv(db) && Writes(db, db', batch)
    ensures Inv(db')
  {
    assert db'.All() == db.All() + batch;
    forall key, s | s >= db'.horizon ensures Read(db'.All(), key, s) == Read(db'.history, key, s) {
      NewerBatchRead(db.All(), db.history, batch, db.last, key, s);
    }
  }

  // ----- Flushes -----

  lemma {:induction false} FlushKeeps(db: Store, db': Store, level: nat, outs: set<File>, e: Entry)
    requires Inv(db) && Flushes(db, db', level, outs) && e in AllStored(db.version) + db.imm
    ensures e in AllStored(db'.version)
  {
    var v, v' := db.version, db'.version;
    if e in db.imm {
      var f :| f in outs && e in f.entries;
      assert f in Files(v'.levels[level]);
      StoredIn(v', level, f, e);
    } else {
      var l, f := StoredAt(v, e);
      assert f in Files(v.levels[l]);
      assert f in Files(v'.levels[l]);
      StoredIn(v', l, f, e);
    }
  }

  lemma {:induction false} FlushedLevels(db: Store, db': Store, level: nat, outs: set<File>)
    requires Inv(db) && Flushes(db, db', level, outs)
    ensures AllStored(db'.version) == AllStored(db.version) + db.imm
  {
    var v, v' := db.version, db'.version;
    forall e | e in AllStored(v) + db.imm ensures e in AllStored(v') {
      FlushKeeps(db, db', level, outs, e);
    }
    forall e | e in AllStored(v') ensures e in AllStored(v) + db.imm {
      var l, f := StoredAt(v', e);
      assert f in Files(v'.levels[l]);
      if f in Files(v.levels[l]) {
        StoredIn(v, l, f, e);
      } else {
        assert e in Stored(outs);
      }
    }
  }

  lemma {:induction false} NoOverlapNewer(f: File, g: File)
    requires !Overlaps(g, f.smallest.key, f.largest.key)
    ensures Newer(f, g) && Newer(g, f)
    ensures InternalKey.Before(f.largest, g.smallest) || InternalKey.Before(g.largest, f.smallest)
  {
    forall a, b | a in f.entries && b in g.entries && a.key == b.key ensures false {
      EntryBounds(f, a);
      EntryBounds(g, b);
    }
  }

  lemma {:induction false} FlushedNewer(db: Store, db': Store, level: nat, outs: set<File>, m: nat, f: File, g: File)
    requires Inv(db) && Flushes(db, db', level, outs)
    requires m < NUM_LEVELS && f in outs && g in Files(db.version.levels[m])
    ensures Newer(f, g)
  {
    forall a, b | a in f.entries && b in g.entries && a.key == b.key ensures a.sequence > b.sequence {
      assert a in Stored(outs);
      StoredIn(db.version, m, g, b);
    }
  }

  lemma {:induction false} AtMostOne(outs: set<File>)
    requires |outs| <= 1
    ensures forall f, g :: f in outs && g in outs ==> f == g
  {
    forall f, g | f in outs && g in outs ensures f == g {
      assert |outs - {f}| == 0;
    }
  }

  lemma {:induction false} FlushedLevelDisjoint(db: Store, db': Store, level: nat, outs: set<File>)
    requires Inv(db) && Flushes(db, db', level, outs) && level > 0
    ensures Disjoint(db'.version.levels[level])
  {
    var files := db.version.levels[level];
    DisjointSeparated(files);
    AtMostOne(outs);
    forall f, g | f in outs && g in Files(files)
      ensures InternalKey.Before(f.largest, g.smallest) || InternalKey.Before(g.largest, f.smallest)
    {
      NoOverlapNewer(f, g);
    }
    SeparatedDisjoint(db'.version.levels[level]);
  }

  lemma {:induction false} NumberedPlus(files: set<File>, outs: set<File>)
    requires NumberedByAge(files)
    requires forall f, g :: f in outs && g in outs ==> f == g
    requires forall f, g :: f in outs && g in files ==> Newer(f, g) && g.number < f.number
    ensures NumberedByAge(files + outs)
  {
    hide Newer;
    var all := files + outs;
    forall f, g | f in all && g in all && f.number == g.number ensures f == g {
      assert f in files <==> g in files;
    }
    forall f, g | f in all && g in all && f.number > g.number ensures Newer(f, g) {
      assert g in files;
    }
  }

  lemma {:induction false} FlushedNumbered(db: Store, db': Store, outs: set<File>)
    requires Inv(db) && Flushes(db, db', 0, outs)
    ensures NumberedByAge(Files(db'.version.levels[0]))
  {
    AtMostOne(outs);
    forall f, g | f in outs && g in Files(db.version.levels[0]) ensures Newer(f, g) && g.number < f.number {
      FlushedNewer(db, db', 0, outs, 0, f, g);
    }
    NumberedPlus(Files(db.version.levels[0]), outs);
  }

  lemma {:induction false} FlushKeepsValid(db: Store, db': Store, level: nat, outs: set<File>)
    requires Inv(db) && Flushes(db, db', level, outs)
    ensures Valid(db'.version)
  {
    var v, v' := db.version, db'.version;
    if level > 0 {
      FlushedLevelDisjoint(db, db', level, outs);
    } else {
      FlushedNumbered(db, db', outs);
    }
    forall l, m | 0 <= l < m < NUM_LEVELS ensures AllNewer(Files(v'.levels[l]), Files(v'.levels[m])) {
      forall f, g | f in Files(v'.levels[l]) && g in Files(v'.levels[m]) ensures Newer(f, g) {
        FlushedRecency(db, db', level, outs, l, m, f, g);
      }
    }
  }

  lemma {:induction false} FlushedRecency(db: Store, db': Store, level: nat, outs: set<File>, l: nat, m: nat, f: File, g: File)
    requires Inv(db) && Flushes(db, db', level, outs)
    requires l < m < NUM_LEVELS && f in Files(db'.version.levels[l]) && g in Files(db'.version.levels[m])
    ensures Newer(f, g)
  {
    var v := db.version;
    if f in Files(v.levels[l]) && g in Files(v.levels[m]) {
      assert AllNewer(Files(v.levels[l]), Files(v.levels[m]));
    } else if f !in Files(v.levels[l]) {
      FlushedNewer(db, db', level, outs, m, f, g);
    } else {
      NoOverlapNewer(g, f);
    }
  }

  lemma {:induction false} FlushInv(db: Store, db': Store, level: nat, outs: set<File>)
    requires Inv(db) && Flushes(db, db', level, outs)
    ensures Inv(db')
  {
    FlushedLevels(db, db', level, outs);
    FlushKeepsValid(db, db', level, outs);
    assert db'.All() == db.All();
  }

  // ----- Moves and compactions -----

  lemma {:induction false} ReplacedStoredAt(v: Version, v': Version, level: nat, in0: set<File>, in1: set<File>, outs: set<File>, e: Entry)
    requires level + 1 < NUM_LEVELS && Replaces(v, v', level, in0, in1, outs)
    requires Valid(v) && in0 <= Files(v.levels[level]) && in1 <= Files(v.levels[level + 1])
    requires e in AllStored(v')
    ensures e in (AllStored(v) - Stored(in0 + in1)) + Stored(outs)
  {
    var l, f := StoredAt(v', e);
    assert f in Files(v'.levels[l]);
    if !(l == level + 1 && f in outs) {
      assert f in Files(v.levels[l]);
      StoredIn(v, l, f, e);
      if e in Stored(in0 + in1) {
        var h :| h in in0 + in1 && e in h.entries;
        var m := if h in in0 then level else level + 1;
        SameSlot(v, l, f, m, h, e, e);
        SlotOf(v, l, f, m);
      }
    }
  }

  lemma {:induction false} StillStored(v: Version, v': Version, level: nat, in0: set<File>, in1: set<File>, outs: set<File>, e: Entry)
    requires level + 1 < NUM_LEVELS && Replaces(v, v', level, in0, in1, outs)
    requires e in (AllStored(v) - Stored(in0 + in1)) + Stored(outs)
    ensures e in AllStored(v')
  {
    if e in Stored(outs) {
      var o :| o in outs && e in o.entries;
      assert o in Files(v'.levels[level + 1]);
      StoredIn(v', level + 1, o, e);
    } else {
      var l, f := StoredAt(v, e);
      assert f !in in0 + in1;
      assert f in Files(v.levels[l]);
      assert f in Files(v'.levels[l]);
      StoredIn(v', l, f, e);
    }
  }

  lemma {:induction false} ReplacedStored(v: Version, v': Version, level: nat, in0: set<File>, in1: set<File>, outs: set<File>)
    requires level + 1 < NUM_LEVELS && Replaces(v, v', level, in0, in1, outs)
    requires Valid(v) && in0 <= Files(v.levels[level]) && in1 <= Files(v.levels[level + 1])
    ensures AllStored(v') == (AllStored(v) - Stored(in0 + in1)) + Stored(outs)
  {
    forall e | e in AllStored(v') ensures e in (AllStored(v) - Stored(in0 + in1)) + Stored(outs) {
      ReplacedStoredAt(v, v', level, in0, in1, outs, e);
    }
    forall e | e in (AllStored(v) - Stored(in0 + in1)) + Stored(outs) ensures e in AllStored(v') {
      StillStored(v, v', level, in0, in1, outs, e);
    }
  }

  lemma {:induction false} NotNewerThanItself(f: File)
    ensures !Newer(f, f)
  {
    assert f.smallest in f.entries;
  }

  /** A file is in one level only. */
  lemma {:induction false} SlotOf(v: Version, l: nat, f: File, m: nat)
    requires Valid(v) && l < NUM_LEVELS && m < NUM_LEVELS
    requires f in v.levels[l] && f in v.levels[m]
    ensures l == m
  {
    NotNewerThanItself(f);
    assert f in Files(v.levels[l]) && f in Files(v.levels[m]);
  }

  lemma {:induction false} OutsWithin(outs: set<File>, sources: set<File>)
    requires Stored(outs) <= Stored(sources)
    ensures forall f :: f in outs ==> Within(f, sources)
  {
    forall f, e | f in outs && e in f.entries ensures e in Stored(sources) {
      assert e in Stored(outs);
    }
  }

  /** Tables that hold no more than before keep the layers in order. */
  lemma {:induction false} TablesChanged(db: Store, v': Version, horizon': nat)
    requires LayersOk(db) && Valid(v') && AllStored(v') <= AllStored(db.version)
    ensures LayersOk(db.(version := v', horizon := horizon'))
  {
  }

  lemma {:induction false} CompactedTables(db: Store, v': Version, level: nat, in0: set<File>, in1: set<File>, lo: UserKey, hi: UserKey, outs: set<File>, kept: set<Entry>)
    requires Valid(db.version) && Selected(db.version, level, in0, in1, lo, hi)
    requires Separated(outs) && Stored(outs) == kept && kept <= Stored(in0 + in1)
    requires Replaces(db.version, v', level, in0, in1, outs)
    ensures Valid(v') && AllStored(v') == AllStored(db.version) - Stored(in0 + in1) + kept
    ensures AllStored(v') <= AllStored(db.version)
  {
    OutsWithin(outs, in0 + in1);
    ReplaceKeepsValid(db.version, v', level, in0, in1, lo, hi, outs);
    ReplacedStored(db.version, v', level, in0, in1, outs);
    InputsStored(db.version, level, in0, in1);
  }

  lemma {:induction false} MoveStored(db: Store, db': Store, level: nat, f: File)
    requires LayersOk(db) && Moves(db, db', level, f)
    ensures Valid(db'.version) && AllStored(db'.version) == AllStored(db.version)
  {
    var v, v' := db.version, db'.version;
    var moved := {f};
    assert moved + {} == moved;
    CompactedTables(db, v', level, moved, {}, f.smallest.key, f.largest.key, moved, Stored(moved));
    InputsStored(v, level, moved, {});
  }

  lemma {:induction false} MoveInv(db: Store, db': Store, level: nat, f: File)
    requires Inv(db) && Moves(db, db', level, f)
    ensures Inv(db')
  {
    MoveStored(db, db', level, f);
    TablesChanged(db, db'.version, db.horizon);
    assert db'.All() == db.All();
  }

  lemma {:induction false} InputsStored(v: Version, level: nat, in0: set<File>, in1: set<File>)
    requires level + 1 < NUM_LEVELS && in0 <= Files(v.levels[level]) && in1 <= Files(v.levels[level + 1])
    ensures Stored(in0 + in1) <= AllStored(v)
  {
    forall e | e in Stored(in0 + in1) ensures e in AllStored(v) {
      var h :| h in in0 + in1 && e in h.entries;
      StoredIn(v, if h in in0 then level else level + 1, h, e);
    }
  }

  /** The compaction as a job over the whole store. */
  ghost function JobOf(db: Store, level: nat, input: seq<Entry>, smallest: nat): Job {
    Job(db.version, level, input, db.All() - Elements(input), smallest)
  }

  /** Nothing older than an input entry stays behind under its key, unless it is deeper. */
  lemma {:induction false} LeftBehindIsDeeper(v: Version, level: nat, in0: set<File>, in1: set<File>, lo: UserKey, hi: UserKey, t: Entry, x: Entry)
    requires Valid(v) && Selected(v, level, in0, in1, lo, hi) && NextLevelClosed(v, level, in1)
    requires t in Stored(in0 + in1) && x in AllStored(v) && x !in Stored(in0 + in1)
    requires x.key == t.key && x.sequence < t.sequence
    ensures !BaseLevel(v, level, t.key)
  {
    var h :| h in in0 + in1 && t in h.entries;
    var l, g := StoredAt(v, x);
    assert g !in in0 + in1;
    if l >= level + 2 {
      EntryBounds(g, x);
    } else {
      assert !Newer(g, h);
      hide Selected, NextLevelClosed, Valid, Newer, BaseLevel, Stored, AllStored;
      if l < level {
        AboveNewer(v, level, in0, in1, lo, hi, l, g, h);
      } else if l == level {
        LeftBehindNewer(v, level, in0, in1, lo, hi, g, h);
      } else {
        NextLevelApart(v, level, in0, in1, lo, hi, g, h, x, t);
      }
    }
  }

  /** With the next level closed, files left behind there share no key with any input. */
  lemma {:induction false} NextLevelApart(v: Version, level: nat, in0: set<File>, in1: set<File>, lo: UserKey, hi: UserKey, g: File, h: File, x: Entry, t: Entry)
    requires Valid(v) && Selected(v, level, in0, in1, lo, hi) && NextLevelClosed(v, level, in1)
    requires g in v.levels[level + 1] && g !in in1 && h in in0 + in1
    requires x in g.entries && t in h.entries
    ensures x.key != t.key
  {
    EntryBounds(g, x);
    EntryBounds(h, t);
    if h in in1 {
      assert h in Files(v.levels[level + 1]) && g in Files(v.levels[level + 1]);
      DisjointSeparated(v.levels[level + 1]);
    } else {
      assert !Overlaps(g, lo, hi);
    }
  }

  lemma {:induction false} JobWf(db: Store, level: nat, in0: set<File>, in1: set<File>, input: seq<Entry>, smallest: nat)
    requires LayersOk(db) && level + 1 < NUM_LEVELS
    requires in0 <= Files(db.version.levels[level]) && in1 <= Files(db.version.levels[level + 1])
    requires Sorted(input) && Elements(input) == Stored(in0 + in1)
    ensures JobOf(db, level, input, smallest).Wf() && JobOf(db, level, input, smallest).Before() == db.All()
    ensures Stored(in0 + in1) <= AllStored(db.version)
  {
    InputsStored(db.version, level, in0, in1);
    ParsedPart(db.history, db.last, input);
    var rest := db.All() - Elements(input);
    assert Elements(input) + rest == rest + Elements(input) == db.All();
    assert Unique(Elements(input) + rest);
  }

  lemma {:induction false} ParsedPart(history: set<Entry>, last: nat, input: seq<Entry>)
    requires ParsedUpTo(history, last) && Elements(input) <= history
    ensures Parsed(input)
  {
    assert forall e :: e in input ==> e in Elements(input);
  }

  lemma {:induction false} MemtablesNewer(db: Store, t: Entry, x: Entry)
    requires LayersOk(db) && t in AllStored(db.version) && x in db.mem + db.imm && x.key == t.key
    ensures t.sequence < x.sequence
  {
  }

  lemma {:induction false} CompactReads(db: Store, level: nat, in0: set<File>, in1: set<File>, input: seq<Entry>, smallest: nat, lo: UserKey, hi: UserKey)
    requires LayersOk(db) && Selected(db.version, level, in0, in1, lo, hi) && NextLevelClosed(db.version, level, in1)
    requires Sorted(input) && Elements(input) == Stored(in0 + in1)
    ensures JobOf(db, level, input, smallest).Wf() && JobOf(db, level, input, smallest).PreservesReads()
  {
    var j := JobOf(db, level, input, smallest);
    JobWf(db, level, in0, in1, input, smallest);
    forall t, x | t in j.input && x in j.rest && x.key == t.key && x.sequence < t.sequence
      ensures !BaseLevel(j.version, j.level, t.key)
    {
      assert t in Elements(input);
      if x in db.mem + db.imm {
        MemtablesNewer(db, t, x);
      } else {
        LeftBehindIsDeeper(db.version, level, in0, in1, lo, hi, t, x);
      }
    }
    ClosedPreservesReads(j);
  }

  /** The memtables hold none of the entries of a table. */
  lemma {:induction false} MemtablesApart(db: Store, level: nat, in0: set<File>, in1: set<File>)
    requires LayersOk(db) && level + 1 < NUM_LEVELS
    requires in0 <= Files(db.version.levels[level]) && in1 <= Files(db.version.levels[level + 1])
    ensures (db.mem + db.imm) !! Stored(in0 + in1)
  {
    InputsStored(db.version, level, in0, in1);
    forall e | e in AllStored(db.version) ensures e !in db.mem + db.imm {
      if e in db.mem + db.imm {
        MemtablesNewer(db, e, e);
      }
    }
  }

  lemma {:induction false} CompactedAll(db: Store, v': Version, level: nat, input: seq<Entry>, smallest: nat)
    requires (db.mem + db.imm) !! Elements(input) && Elements(input) <= AllStored(db.version)
    requires AllStored(v') == AllStored(db.version) - Elements(input) + JobOf(db, level, input, smallest).Kept()
    ensures db.(version := v').All() == JobOf(db, level, input, smallest).After()
  {
  }

  lemma {:induction false} CompactedSnapshots(db: Store, smallest: nat)
    requires SnapshotsOk(db) && smallest <= db.SmallestSnapshot()
    ensures SnapshotsOk(db.(horizon := Max(db.horizon, smallest)))
  {
    assert |db.snapshots| > 0 ==> db.snapshots[0] in db.snapshots;
  }

  lemma {:induction false} CompactLayers(db: Store, v': Version, level: nat, in0: set<File>, in1: set<File>, lo: UserKey, hi: UserKey, outs: set<File>, input: seq<Entry>, smallest: nat)
    requires LayersOk(db) && Selected(db.version, level, in0, in1, lo, hi)
    requires Sorted(input) && Elements(input) == Stored(in0 + in1) && Separated(outs)
    requires Stored(outs) == JobOf(db, level, input, smallest).Kept()
    requires Replaces(db.version, v', level, in0, in1, outs)
    ensures Valid(v') && AllStored(v') <= AllStored(db.version)
    ensures db.(version := v').All() == JobOf(db, level, input, smallest).After()
  {
    var j := JobOf(db, level, input, smallest);
    JobWf(db, level, in0, in1, input, smallest);
    KeptWithin(j);
    CompactedTables(db, v', level, in0, in1, lo, hi, outs, j.Kept());
    MemtablesApart(db, level, in0, in1);
    CompactedAll(db, v', level, input, smallest);
  }

  lemma {:induction false} CompactOutcome(db: Store, db': Store, level: nat, in0: set<File>, in1: set<File>, outs: set<File>, input: seq<Entry>, smallest: nat)
    requires level + 1 < NUM_LEVELS && NextLevelClosed(db.version, level, in1)
    requires LayersOk(db) && Compacts(db, db', level, in0, in1, outs, input, smallest)
    ensures Valid(db'.version) && AllStored(db'.version) <= AllStored(db.version)
    ensures JobOf(db, level, input, smallest).PreservesReads()
    ensures JobOf(db, level, input, smallest).Before() == db.All() && JobOf(db, level, input, smallest).After() == db'.All()
  {
    var lo, hi :| Selected(db.version, level, in0, in1, lo, hi);
    JobWf(db, level, in0, in1, input, smallest);
    CompactReads(db, level, in0, in1, input, smallest, lo, hi);
    CompactLayers(db, db'.version, level, in0, in1, lo, hi, outs, input, smallest);
  }

  lemma {:induction false} CompactInv(db: Store, db': Store, level: nat, in0: set<File>, in1: set<File>, outs: set<File>, input: seq<Entry>, smallest: nat)
    requires level + 1 < NUM_LEVELS && NextLevelClosed(db.version, level, in1)
    requires Inv(db) && Compacts(db, db', level, in0, in1, outs, input, smallest)
    ensures Inv(db')
  {
    CompactOutcome(db, db', level, in0, in1, outs, input, smallest);
    TablesChanged(db, db'.version, db'.horizon);
    CompactedSnapshots(db, smallest);
    CompactedReads(db, db', JobOf(db, level, input, smallest));
  }

  lemma {:induction false} CompactedReads(db: Store, db': Store, j: Job)
    requires ReadsOk(db) && j.PreservesReads() && j.Before() == db.All() && j.After() == db'.All()
    requires db'.history == db.history
    requires j.smallestSnapshot <= db'.horizon && db.horizon <= db'.horizon
    ensures ReadsOk(db')
  {
  }

  lemma {:induction false} TakeSnapshotInv(db: Store)
    requires SnapshotsOk(db)
    ensures SnapshotsOk(db.(snapshots := db.snapshots + [db.last]))
  {
    forall i | 0 <= i < |db.snapshots| ensures db.snapshots[i] <= db.last {
      assert db.snapshots[i] in db.snapshots;
    }
  }

  // ----- Every run -----

  lemma {:induction false} NextInv(db: Store, db': Store, step: Step)
    requires Inv(db) && Next(db, db', step)
    ensures Inv(db')
  {
    match step
    case Write(batch) => WriteInv(db, db', batch);
    case SwitchMemtable => assert db'.All() == db.All();
    case Flush(level, outs) => FlushInv(db, db', level, outs);
    case Move(level, f) => MoveInv(db, db', level, f);
    case Compact(level, in0, in1, outs, input, smallest) => CompactInv(db, db', level, in0, in1, outs, input, smallest);
    case TakeSnapshot =>
      TakeSnapshotInv(db);
      assert db'.All() == db.All();
    case ReleaseSnapshot(i) =>
      assert forall s :: s in db'.snapshots ==> s in db.snapshots;
      assert db'.All() == db.All();
  }

  /** The smallest snapshot only grows, so one of an earlier state is not past the one of a later state. */
  lemma {:induction false} SmallestSnapshotGrows(db: Store, db': Store, step: Step)
    requires SnapshotsOk(db) && Next(db, db', step)
    ensures db.SmallestSnapshot() <= db'.SmallestSnapshot()
  {
    hide NextLevelClosed, Compacts, Flushes, Moves, SwitchesMemtable;
    if step.ReleaseSnapshot? && |db.snapshots| == 1 {
      assert db.snapshots[0] in db.snapshots;
    } else if step.Compact? || step.Flush? || step.Move? || step.SwitchMemtable? {
      SameSnapshots(db, db', step);
    } else if |db.snapshots| > 0 {
      assert db.snapshots[0] in db.snapshots;
    }
  }

  lemma {:induction false} SameSnapshots(db: Store, db': Store, step: Step)
    requires Next(db, db', step) && (step.Compact? || step.Flush? || step.Move? || step.SwitchMemtable?)
    ensures db'.snapshots == db.snapshots && db'.last == db.last
  {
  }

  ghost predicate Run(states: seq<Store>, steps: seq<Step>) {
    && |states| == |steps| + 1 && Init(states[0])
    && forall i :: 0 <= i < |steps| ==> Next(states[i], states[i + 1], steps[i])
  }

  lemma {:induction false} RunInv(states: seq<Store>, steps: seq<Step>, n: nat)
    requires Run(states, steps) && n < |states|
    ensures Inv(states[n])
  {
    if n == 0 {
      InitInv(states[0]);
    } else {
      RunInv(states, steps, n - 1);
      NextInv(states[n - 1], states[n], steps[n - 1]);
    }
  }

  /** So a compaction that started in state `i` of a run may use the smallest snapshot of that state in any later one. */
  lemma {:induction false} StartedEarlier(states: seq<Store>, steps: seq<Step>, i: nat, n: nat)
    requires Run(states, steps) && i <= n < |states|
    ensures states[i].SmallestSnapshot() <= states[n].SmallestSnapshot()
    decreases n
  {
    hide Next, LayersOk, ReadsOk, Init;
    if i < n {
      StartedEarlier(states, steps, i, n - 1);
      RunInv(states, steps, n - 1);
      SmallestSnapshotGrows(states[n - 1], states[n], steps[n - 1]);
    }
  }

  /** Everything that the first `n` steps wrote. */
  ghost function Written(steps: seq<Step>, n: nat): set<Entry>
    requires n <= |steps|
  {
    if n == 0 then {} else Written(steps, n - 1) + if steps[n - 1].Write? then steps[n - 1].batch else {}
  }

  lemma {:induction false} HistoryNext(db: Store, db': Store, step: Step)
    requires Next(db, db', step)
    ensures db'.history == db.history + if step.Write? then step.batch else {}
    ensures step.Write? ==> db.last <= db'.last && forall e :: e in step.batch ==> db.last < e.sequence <= db'.last
    ensures !step.Write? ==> db'.last == db.last
  {
  }

  lemma {:induction false} HistoryIsWritten(states: seq<Store>, steps: seq<Step>, n: nat)
    requires Run(states, steps) && n < |states|
    ensures states[n].history == Written(steps, n)
  {
    hide Next;
    if n > 0 {
      HistoryIsWritten(states, steps, n - 1);
      HistoryNext(states[n - 1], states[n], steps[n - 1]);
    }
  }

  /** In every reachable state, a read at any snapshot still held, or at the last sequence
      number, is answered with the newest entry at or below it that any step wrote. */
  lemma {:induction false} EveryRunReadsHistory(states: seq<Store>, steps: seq<Step>, n: nat, key: UserKey, s: nat)
    requires Run(states, steps) && n < |states| && states[n].Live(s)
    ensures Valid(states[n].version)
    ensures Read(states[n].All(), key, s) == Read(states[n].history, key, s) == Read(Written(steps, n), key, s)
  {
    RunInv(states, steps, n);
    HistoryIsWritten(states, steps, n);
  }

  /** What was written since state `m` has sequence numbers after its last one. */
  lemma {:induction false} WrittenSince(states: seq<Store>, steps: seq<Step>, m: nat, n: nat) returns (since: set<Entry>)
    requires Run(states, steps) && m <= n < |states|
    ensures states[n].history == states[m].history + since && states[m].last <= states[n].last
    ensures forall e :: e in since ==> states[m].last < e.sequence
    decreases n
  {
    hide Next;
    if m == n {
      since := {};
    } else {
      var earlier := WrittenSince(states, steps, m, n - 1);
      HistoryNext(states[n - 1], states[n], steps[n - 1]);
      since := earlier + if steps[n - 1].Write? then steps[n - 1].batch else {};
    }
  }

  /** As long as a snapshot is held it gives the same answers, whatever is written, flushed and compacted meanwhile. */
  lemma {:induction false} SnapshotsAreStable(states: seq<Store>, steps: seq<Step>, m: nat, n: nat, key: UserKey, s: nat)
    requires Run(states, steps) && m <= n < |states| && states[m].Live(s) && states[n].Live(s)
    ensures Read(states[n].All(), key, s) == Read(states[m].All(), key, s)
  {
    hide Next, LayersOk, ReadsOk;
    RunInv(states, steps, m);
    RunInv(states, steps, n);
    EveryRunReadsHistory(states, steps, m, key, s);
    EveryRunReadsHistory(states, steps, n, key, s);
    var since := WrittenSince(states, steps, m, n);
    assert Unique(states[m].history + since) by { UniqueHistory(states[n]); }
    WithoutBatch(states[m].history, since, key, s);
  }

  lemma {:induction false} UniqueHistory(db: Store)
    requires LayersOk(db)
    ensures Unique(db.history)
  {
  }

  /** What was written last is what is read next. */
  lemma {:induction false} ReadsOwnWrite(states: seq<Store>, steps: seq<Step>, n: nat, e: Entry)
    requires Run(states, steps) && n < |steps| && steps[n].Write? && IsNewest(steps[n].batch, e.key, states[n + 1].last, e)
    ensures Read(states[n + 1].All(), e.key, states[n + 1].last) == if e.kind == Value then Found(e.value) else NotFound
  {
    RunInv(states, steps, n);
    RunInv(states, steps, n + 1);
    EveryRunReadsHistory(states, steps, n + 1, e.key, states[n + 1].last);
    HistoryNext(states[n], states[n + 1], steps[n]);
    ReadNewest(states[n + 1].history, e.key, states[n + 1].last, e);
  }

  // ----- DBImpl::Get -----

  lemma {:induction false} MemtableHit(db: Store, mem: seq<Entry>, imm: seq<Entry>, key: UserKey, s: nat)
    requires Inv(db) && db.Live(s) && Parsed(mem) && Parsed(imm)
    requires Sorted(mem) && Elements(mem) == db.mem && Sorted(imm) && Elements(imm) == db.imm
    requires !(Probe(mem, key, s) == Missing && Probe(imm, key, s) == Missing)
    ensures var state := if Probe(mem, key, s) == Missing then Probe(imm, key, s) else Probe(mem, key, s);
      Read(db.history, key, s) == match state case Hit(value) => Found(value) case _ => NotFound
  {
    var hit := if Probe(mem, key, s) == Missing then imm else mem;
    ProbeNewest(mem, key, s);
    ProbeNewest(imm, key, s);
    var e :| IsNewest(Elements(hit), key, s, e) && Agrees(Probe(hit, key, s), e);
    forall x | x in db.All() && x.key == key && Visible(x, s) ensures x.sequence <= e.sequence {
      if x in Elements(mem) {
        assert x in mem;
      }
    }
    ReadNewest(db.All(), key, s, e);
  }

  lemma {:induction false} MissedMemtables(db: Store, mem: seq<Entry>, imm: seq<Entry>, key: UserKey, s: nat)
    requires Inv(db) && db.Live(s) && Parsed(mem) && Parsed(imm)
    requires Sorted(mem) && Elements(mem) == db.mem && Sorted(imm) && Elements(imm) == db.imm
    requires Probe(mem, key, s) == Missing && Probe(imm, key, s) == Missing
    ensures Read(db.history, key, s) == Read(AllStored(db.version), key, s)
  {
    ProbeNewest(mem, key, s);
    ProbeNewest(imm, key, s);
    var tables := AllStored(db.version);
    forall e | e in db.mem + db.imm && e.key == key ensures !Visible(e, s) {
      assert e in Elements(mem) || e in Elements(imm);
    }
    assert db.All() == tables + (db.mem + db.imm);
    WithoutBatch(tables, db.mem + db.imm, key, s);
  }

  /** Look in the memtable, then in the immutable one, then in the tables. */
  method Get(db: Store, mem: seq<Entry>, imm: seq<Entry>, key: UserKey, s: nat) returns (r: Lookup)
    requires Inv(db) && db.Live(s)
    requires Sorted(mem) && Elements(mem) == db.mem && Sorted(imm) && Elements(imm) == db.imm
    ensures r == Read(db.history, key, s)
  {
    assert Parsed(mem) && Parsed(imm) by {
      forall e | e in mem + imm ensures e in db.history && e.kind != Corrupt {
        assert e in Elements(mem) || e in Elements(imm);
      }
    }
    ProbeNewest(mem, key, s);
    var state := Probe(mem, key, s);
    if state == Missing {
      ProbeNewest(imm, key, s);
      state := Probe(imm, key, s);
    }
    if state == Missing {
      r := Versions.Get(db.version, key, s);
      MissedMemtables(db, mem, imm, key, s);
    } else {
      r := match state case Hit(value) => Found(value) case _ => NotFound;
      MemtableHit(db, mem, imm, key, s);
    }
  }
}
