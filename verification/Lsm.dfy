/** Replacing the inputs of a compaction by its outputs in a version, and why the version stays valid. */
module Lsm {
  import opened Common
  import opened InternalKey
  import opened Versions
  import opened Compaction
  import opened CompactionMeaning

  // ----- Replacing files in a version -----

  /** Distinct files never interleave. */
  ghost predicate Separated(files: set<File>) {
    forall f, g :: f in files && g in files && f != g ==>
      InternalKey.Before(f.largest, g.smallest) || InternalKey.Before(g.largest, f.smallest)
  }

  /** The order in which the version builder lists the files of a level. */
  ghost predicate Ordered(files: seq<File>) {
    forall i, j :: 0 <= i < j < |files| ==> InternalKey.Before(files[i].smallest, files[j].smallest)
  }

  /** One level of a version lists exactly `files`; past level 0, in key order. */
  ghost predicate Lists(v: Version, l: nat, files: set<File>)
    requires l < NUM_LEVELS
  {
    Files(v.levels[l]) == files && (l > 0 ==> Ordered(v.levels[l]))
  }

  lemma {:induction false} DisjointSeparated(files: seq<File>)
    requires Disjoint(files)
    ensures Separated(Files(files))
  {
    forall f, g | f in files && g in files && f != g
      ensures InternalKey.Before(f.largest, g.smallest) || InternalKey.Before(g.largest, f.smallest)
    {
      var i :| 0 <= i < |files| && files[i] == f;
      var j :| 0 <= j < |files| && files[j] == g;
      assert i < j || j < i;
    }
  }

  lemma {:induction false} SeparatedDisjoint(files: seq<File>)
    requires Ordered(files) && Separated(Files(files))
    ensures Disjoint(files)
  {
    forall i, j | 0 <= i < j < |files| ensures InternalKey.Before(files[i].largest, files[j].smallest) {
      assert InternalKey.Before(files[i].smallest, files[j].smallest);
      EntryBounds(files[j], files[j].largest);
      assert files[i] in Files(files) && files[j] in Files(files);
    }
  }

  /** What a file keeps of the order when some of its entries move to a new file. */
  ghost predicate Within(f: File, sources: set<File>) {
    forall e :: e in f.entries ==> e in Stored(sources)
  }

  lemma {:induction false} SourceOf(f: File, sources: set<File>, e: Entry) returns (h: File)
    requires Within(f, sources) && e in f.entries
    ensures h in sources && e in h.entries
  {
    h :| h in sources && e in h.entries;
  }

  // ----- The inputs of a compaction -----

  /** The user-key range [lo, hi] just covers the files. */
  ghost predicate Spans(files: set<File>, lo: UserKey, hi: UserKey) {
    && (forall f :: f in files ==> lo <= f.smallest.key && f.largest.key <= hi)
    && (exists f :: f in files && f.smallest.key == lo)
    && (exists f :: f in files && f.largest.key == hi)
  }

  predicate Overlaps(f: File, lo: UserKey, hi: UserKey) {
    !(f.largest.key < lo) && !(hi < f.smallest.key)
  }

  /** `g` starts past the end of `f`, on the user key `f` ends with. */
  predicate Continues(f: File, g: File) {
    InternalKey.Before(f.largest, g.smallest) && f.largest.key == g.smallest.key
  }

  /** Inputs that the selection code may hand to a compaction of `level`. */
  ghost predicate Selected(v: Version, level: nat, in0: set<File>, in1: set<File>, lo: UserKey, hi: UserKey) {
    && level + 1 < NUM_LEVELS
    && in0 <= Files(v.levels[level]) && Spans(in0, lo, hi)
    && (level == 0 ==> forall g :: g in v.levels[0] && g !in in0 ==> !Overlaps(g, lo, hi))
    && (level > 0 ==> forall f, g :: f in in0 && g in v.levels[level] && g !in in0 ==> !Continues(f, g))
    && in1 == (set g | g in v.levels[level + 1] && Overlaps(g, lo, hi))
  }

  /** No file left behind at the next level shares a boundary user key with an input. */
  ghost predicate NextLevelClosed(v: Version, level: nat, in1: set<File>)
    requires level + 1 < NUM_LEVELS
  {
    forall f, g :: f in in1 && g in v.levels[level + 1] && g !in in1 ==>
      f.largest.key != g.smallest.key && g.largest.key != f.smallest.key
  }

  /** The outputs hold nothing but what the inputs held, and do not interleave. */
  ghost predicate MadeFrom(outs: set<File>, sources: set<File>) {
    Separated(outs) && forall f :: f in outs ==> Within(f, sources)
  }

  ghost predicate Replaces(v: Version, v': Version, level: nat, in0: set<File>, in1: set<File>, outs: set<File>)
    requires level + 1 < NUM_LEVELS
  {
    && Lists(v', level, Files(v.levels[level]) - in0)
    && Lists(v', level + 1, Files(v.levels[level + 1]) - in1 + outs)
    && forall l :: 0 <= l < NUM_LEVELS && l != level && l != level + 1 ==> v'.levels[l] == v.levels[l]
  }

  // ----- A replacement keeps the version valid -----

  lemma {:induction false} SharedKeyOrder(f: File, g: File)
    requires InternalKey.Before(f.largest, g.smallest)
    ensures Newer(f, g)
    ensures (exists a, b :: a in f.entries && b in g.entries && a.key == b.key) ==> Continues(f, g)
  {
    forall a, b | a in f.entries && b in g.entries && a.key == b.key ensures a.sequence > b.sequence && Continues(f, g) {
      EntriesBefore(f, g, a, b);
      EntryBounds(f, a);
      EntryBounds(g, b);
    }
  }

  /** A file left behind at the compacted level is newer than every input. */
  lemma {:induction false} LeftBehindNewer(v: Version, level: nat, in0: set<File>, in1: set<File>, lo: UserKey, hi: UserKey, g: File, h: File)
    requires Valid(v) && Selected(v, level, in0, in1, lo, hi)
    requires g in v.levels[level] && g !in in0 && (h in in0 || h in in1)
    ensures Newer(g, h)
  {
    assert g in Files(v.levels[level]);
    if h in in1 {
      assert h in Files(v.levels[level + 1]);
      assert AllNewer(Files(v.levels[level]), Files(v.levels[level + 1]));
    } else if level == 0 {
      forall a, b | a in g.entries && b in h.entries && a.key == b.key ensures false {
        EntryBounds(g, a);
        EntryBounds(h, b);
      }
    } else {
      DisjointSeparated(v.levels[level]);
      if InternalKey.Before(g.largest, h.smallest) {
        SharedKeyOrder(g, h);
      } else {
        SharedKeyOrder(h, g);
        assert !Continues(h, g);
      }
    }
  }

  lemma {:induction false} AboveNewer(v: Version, level: nat, in0: set<File>, in1: set<File>, lo: UserKey, hi: UserKey, l: nat, g: File, h: File)
    requires Valid(v) && Selected(v, level, in0, in1, lo, hi)
    requires l < level && g in v.levels[l] && (h in in0 || h in in1)
    ensures Newer(g, h)
  {
    assert g in Files(v.levels[l]);
    assert AllNewer(Files(v.levels[l]), Files(v.levels[level]));
    assert AllNewer(Files(v.levels[l]), Files(v.levels[level + 1]));
  }

  lemma {:induction false} BelowOlder(v: Version, level: nat, in0: set<File>, in1: set<File>, lo: UserKey, hi: UserKey, m: nat, g: File, h: File)
    requires Valid(v) && Selected(v, level, in0, in1, lo, hi)
    requires level + 1 < m < NUM_LEVELS && g in v.levels[m] && (h in in0 || h in in1)
    ensures Newer(h, g)
  {
    assert g in Files(v.levels[m]);
    assert AllNewer(Files(v.levels[level]), Files(v.levels[m]));
    assert AllNewer(Files(v.levels[level + 1]), Files(v.levels[m]));
  }

  lemma {:induction false} NewerThanOutput(g: File, o: File, sources: set<File>)
    requires Within(o, sources) && forall h :: h in sources ==> Newer(g, h)
    ensures Newer(g, o)
  {
    forall a, b | a in g.entries && b in o.entries && a.key == b.key ensures a.sequence > b.sequence {
      var h := SourceOf(o, sources, b);
      assert Newer(g, h);
    }
  }

  lemma {:induction false} OutputNewerThan(o: File, g: File, sources: set<File>)
    requires Within(o, sources) && forall h :: h in sources ==> Newer(h, g)
    ensures Newer(o, g)
  {
    forall a, b | a in o.entries && b in g.entries && a.key == b.key ensures a.sequence > b.sequence {
      var h := SourceOf(o, sources, a);
      assert Newer(h, g);
    }
  }

  /** A file left behind at the next level lies entirely to one side of every input entry. */
  lemma {:induction false} BesideInputs(v: Version, level: nat, in0: set<File>, in1: set<File>, lo: UserKey, hi: UserKey, g: File, o: File)
    requires Valid(v) && Selected(v, level, in0, in1, lo, hi)
    requires g in v.levels[level + 1] && g !in in1 && Within(o, in0 + in1)
    ensures InternalKey.Before(g.largest, o.smallest) || InternalKey.Before(o.largest, g.smallest)
  {
    assert !Overlaps(g, lo, hi);
    var first := SourceOf(o, in0 + in1, o.smallest);
    var last := SourceOf(o, in0 + in1, o.largest);
    DisjointSeparated(v.levels[level + 1]);
    if g.largest.key < lo {
      BesideOne(v, level, in0, in1, lo, hi, g, first, o.smallest);
    } else {
      BesideOne(v, level, in0, in1, lo, hi, g, last, o.largest);
    }
  }

  lemma {:induction false} BesideOne(v: Version, level: nat, in0: set<File>, in1: set<File>, lo: UserKey, hi: UserKey, g: File, h: File, e: Entry)
    requires Valid(v) && Selected(v, level, in0, in1, lo, hi)
    requires g in v.levels[level + 1] && g !in in1 && h in in0 + in1 && e in h.entries
    ensures g.largest.key < lo ==> InternalKey.Before(g.largest, e)
    ensures hi < g.smallest.key ==> InternalKey.Before(e, g.smallest)
  {
    EntryBounds(h, e);
    if h in in1 {
      DisjointSeparated(v.levels[level + 1]);
      assert g in Files(v.levels[level + 1]) && h in Files(v.levels[level + 1]);
      EntryBounds(g, g.largest);
      EntryBounds(h, h.largest);
    }
  }

  lemma {:induction false} NextLevelSeparated(v: Version, level: nat, in0: set<File>, in1: set<File>, lo: UserKey, hi: UserKey, outs: set<File>)
    requires Valid(v) && Selected(v, level, in0, in1, lo, hi) && MadeFrom(outs, in0 + in1)
    ensures Separated(Files(v.levels[level + 1]) - in1 + outs)
  {
    DisjointSeparated(v.levels[level + 1]);
    forall g, o | g in Files(v.levels[level + 1]) - in1 && o in outs
      ensures InternalKey.Before(g.largest, o.smallest) || InternalKey.Before(o.largest, g.smallest)
    {
      BesideInputs(v, level, in0, in1, lo, hi, g, o);
    }
  }

  lemma {:induction false} ReplacedRecency(v: Version, v': Version, level: nat, in0: set<File>, in1: set<File>, lo: UserKey, hi: UserKey,
                        outs: set<File>, l: nat, m: nat, f: File, g: File)
    requires Valid(v) && Selected(v, level, in0, in1, lo, hi)
    requires MadeFrom(outs, in0 + in1) && Replaces(v, v', level, in0, in1, outs)
    requires l < m < NUM_LEVELS && f in Files(v'.levels[l]) && g in Files(v'.levels[m])
    ensures Newer(f, g)
  {
    if f in Files(v.levels[l]) && g in Files(v.levels[m]) {
      assert AllNewer(Files(v.levels[l]), Files(v.levels[m]));
    } else if g !in Files(v.levels[m]) {
      assert m == level + 1 && g in outs;
      assert f in Files(v.levels[l]);
      forall h | h in in0 + in1 ensures Newer(f, h) {
        if l < level {
          AboveNewer(v, level, in0, in1, lo, hi, l, f, h);
        } else {
          LeftBehindNewer(v, level, in0, in1, lo, hi, f, h);
        }
      }
      NewerThanOutput(f, g, in0 + in1);
    } else {
      assert l == level + 1 && f in outs;
      forall h | h in in0 + in1 ensures Newer(h, g) {
        BelowOlder(v, level, in0, in1, lo, hi, m, g, h);
      }
      OutputNewerThan(f, g, in0 + in1);
    }
  }

  /** Replacing selected inputs by anything made from them keeps the recency invariant and
      the order of the levels. */
  lemma {:induction false} ReplaceKeepsValid(v: Version, v': Version, level: nat, in0: set<File>, in1: set<File>, lo: UserKey, hi: UserKey, outs: set<File>)
    requires Valid(v) && Selected(v, level, in0, in1, lo, hi)
    requires MadeFrom(outs, in0 + in1) && Replaces(v, v', level, in0, in1, outs)
    ensures Valid(v')
  {
    forall l | 1 <= l < NUM_LEVELS ensures Disjoint(v'.levels[l]) {
      if l == level {
        DisjointSeparated(v.levels[l]);
        SeparatedDisjoint(v'.levels[l]);
      } else if l == level + 1 {
        NextLevelSeparated(v, level, in0, in1, lo, hi, outs);
        SeparatedDisjoint(v'.levels[l]);
      }
    }
    forall l, m | 0 <= l < m < NUM_LEVELS ensures AllNewer(Files(v'.levels[l]), Files(v'.levels[m])) {
      forall f, g | f in Files(v'.levels[l]) && g in Files(v'.levels[m]) ensures Newer(f, g) {
        ReplacedRecency(v, v', level, in0, in1, lo, hi, outs, l, m, f, g);
      }
    }
  }
}
