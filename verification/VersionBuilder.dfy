/** Applying many version edits at once. */
module VersionBuilder {
  import opened Common
  import opened Coding
  import opened VersionEdits

  /** The place of an encoded internal key in the comparator's order. */
  type Ranking = Bytes -> int

  /** The order of the files of a level: by smallest key, then by number. */
  predicate BySmallest(rank: Ranking, f: Meta, g: Meta) {
    rank(f.smallest) < rank(g.smallest) || (rank(f.smallest) == rank(g.smallest) && f.number < g.number)
  }

  ghost predicate Sorted(rank: Ranking, files: seq<Meta>) {
    forall i, j {:trigger BySmallest(rank, files[i], files[j])} :: 0 <= i < j < |files| ==> BySmallest(rank, files[i], files[j])
  }

  ghost function Elements(files: seq<Meta>): set<Meta> {
    set f | f in files
  }

  // ----- What edits mean for a level -----

  ghost function DeletedAt(ds: seq<(nat, nat)>, level: nat): set<nat> {
    set d | d in ds && d.0 == level :: d.1
  }

  ghost function AddedAt(ns: seq<(nat, Meta)>, level: nat): set<Meta> {
    set n | n in ns && n.0 == level :: n.1
  }

  ghost function NumbersOf(files: set<Meta>): set<nat> {
    set f | f in files :: f.number
  }

  /** One edit: deleted files go, then new files come. */
  ghost function ApplyEdit(files: set<Meta>, e: Edit, level: nat): set<Meta> {
    (set f | f in files && f.number !in DeletedAt(e.deleted, level)) + AddedAt(e.added, level)
  }

  /** Edits applied one at a time. */
  ghost function ApplyEdits(files: set<Meta>, edits: seq<Edit>, level: nat): set<Meta> {
    if |edits| == 0 then files
    else ApplyEdit(ApplyEdits(files, edits[..|edits| - 1], level), edits[|edits| - 1], level)
  }

  /** The compact pointer of a level after the pointers that are set: the last one counts. */
  function LastPointer(was: Bytes, pointers: seq<(nat, Bytes)>, level: nat): Bytes {
    if |pointers| == 0 then was
    else if pointers[|pointers| - 1].0 == level then pointers[|pointers| - 1].1
    else LastPointer(was, pointers[..|pointers| - 1], level)
  }

  function PointerAfter(was: Bytes, edits: seq<Edit>, level: nat): Bytes {
    if |edits| == 0 then was
    else LastPointer(PointerAfter(was, edits[..|edits| - 1], level), edits[|edits| - 1].compactPointers, level)
  }

  // ----- What the builder keeps of them -----

  /** The order cannot tell the files apart. */
  predicate SamePlace(rank: Ranking, f: Meta, g: Meta) {
    rank(f.smallest) == rank(g.smallest) && f.number == g.number
  }

  /** Insertion into an ordered set: an element that compares equal keeps the new one out. */
  ghost function Place(rank: Ranking, files: set<Meta>, f: Meta): set<Meta> {
    if exists g :: g in files && SamePlace(rank, f, g) then files else files + {f}
  }

  ghost function InsertAll(rank: Ranking, files: set<Meta>, ns: seq<(nat, Meta)>, level: nat): set<Meta> {
    if |ns| == 0 then files
    else
      var before, n := InsertAll(rank, files, ns[..|ns| - 1], level), ns[|ns| - 1];
      if n.0 == level then Place(rank, before, n.1) else before
  }

  ghost function Gathered(rank: Ranking, edits: seq<Edit>, level: nat): set<Meta> {
    if |edits| == 0 then {}
    else InsertAll(rank, Gathered(rank, edits[..|edits| - 1], level), edits[|edits| - 1].added, level)
  }

  ghost function StillDeleted(edits: seq<Edit>, level: nat): set<nat> {
    if |edits| == 0 then {}
    else
      var e := edits[|edits| - 1];
      StillDeleted(edits[..|edits| - 1], level) + DeletedAt(e.deleted, level) - NumbersOf(AddedAt(e.added, level))
  }

  ghost predicate Known(rank: Ranking, base: set<Meta>, edits: seq<Edit>, level: nat, f: Meta) {
    f in base || f in Gathered(rank, edits, level)
  }

  /** The files that the builder saves. */
  ghost function Saved(rank: Ranking, base: set<Meta>, edits: seq<Edit>, level: nat): set<Meta> {
    set f | f in base + Gathered(rank, edits, level) && f.number !in StillDeleted(edits, level)
  }

  // ----- When that is applying the edits one at a time -----

  /** The file was deleted, another file of its number was added in that edit or later, and the number has not
      been deleted since, nor the file added again. */
  ghost predicate Displaced(rank: Ranking, base: set<Meta>, edits: seq<Edit>, level: nat, f: Meta) {
    |edits| > 0 &&
    var before, e := edits[..|edits| - 1], edits[|edits| - 1];
    var goes, come := f.number in DeletedAt(e.deleted, level), AddedAt(e.added, level);
    && f !in come
    && if f.number in NumbersOf(come) then
         Known(rank, base, before, level, f) && (goes || f !in ApplyEdits(base, before, level))
       else
         !goes && Displaced(rank, base, before, level, f)
  }

  /** The file was added next to another one that compares equal, and has not been deleted since. */
  ghost predicate ShutOut(rank: Ranking, base: set<Meta>, edits: seq<Edit>, level: nat, f: Meta) {
    |edits| > 0 &&
    var before, e := edits[..|edits| - 1], edits[|edits| - 1];
    if f in AddedAt(e.added, level) then
      !Known(rank, base, edits, level, f)
    else
      f.number !in DeletedAt(e.deleted, level) && ShutOut(rank, base, before, level, f)
  }

  lemma {:induction false} InsertAllBounds(rank: Ranking, files: set<Meta>, ns: seq<(nat, Meta)>, level: nat)
    ensures files <= InsertAll(rank, files, ns, level) <= files + AddedAt(ns, level)
  {
    if |ns| > 0 {
      InsertAllBounds(rank, files, ns[..|ns| - 1], level);
      AddedNext(ns, |ns| - 1, level);
      assert ns[..|ns| - 1 + 1] == ns;
    }
  }

  /** What the builder makes of one file: it is saved if it is there and not shut out, or if it is displaced. */
  lemma {:induction false} OneFile(rank: Ranking, base: set<Meta>, edits: seq<Edit>, level: nat, f: Meta)
    ensures f in ApplyEdits(base, edits, level) ==> f.number !in StillDeleted(edits, level)
    ensures ShutOut(rank, base, edits, level, f) <==>
            f in ApplyEdits(base, edits, level) && !Known(rank, base, edits, level, f)
    ensures f in Saved(rank, base, edits, level) <==>
            || (f in ApplyEdits(base, edits, level) && !ShutOut(rank, base, edits, level, f))
            || Displaced(rank, base, edits, level, f)
    ensures Displaced(rank, base, edits, level, f) ==> f !in ApplyEdits(base, edits, level)
  {
    if |edits| > 0 {
      var before, e := edits[..|edits| - 1], edits[|edits| - 1];
      OneFile(rank, base, before, level, f);
      InsertAllBounds(rank, Gathered(rank, before, level), e.added, level);
      if f in AddedAt(e.added, level) {
        assert f.number in NumbersOf(AddedAt(e.added, level));
      }
    }
  }

  /** No file comes back and none is shut out. */
  ghost predicate Faithful(rank: Ranking, base: set<Meta>, edits: seq<Edit>, level: nat) {
    forall f :: !Displaced(rank, base, edits, level, f) && !ShutOut(rank, base, edits, level, f)
  }

  /** Collecting the edits and then dropping the deleted files is applying them one at a time exactly if no
      file comes back and none is shut out. */
  lemma {:induction false} CollectedIsAppliedExactly(rank: Ranking, base: set<Meta>, edits: seq<Edit>, level: nat)
    ensures Saved(rank, base, edits, level) == ApplyEdits(base, edits, level) <==> Faithful(rank, base, edits, level)
  {
    hide ApplyEdits, Saved, Displaced, ShutOut;
    var saved, applied := Saved(rank, base, edits, level), ApplyEdits(base, edits, level);
    forall f
      ensures (f in saved <==> f in applied) <==>
              !Displaced(rank, base, edits, level, f) && !ShutOut(rank, base, edits, level, f)
    {
      OneFile(rank, base, edits, level, f);
    }
    if Faithful(rank, base, edits, level) {
      assert forall f :: f in saved <==> f in applied;
      assert saved == applied;
    }
    if saved == applied {
      forall f ensures !Displaced(rank, base, edits, level, f) && !ShutOut(rank, base, edits, level, f) {
        assert f in saved <==> f in applied;
      }
    }
  }

  // ----- Numbers that are used once -----

  ghost function AllAdded(edits: seq<Edit>, level: nat): set<Meta> {
    if |edits| == 0 then {}
    else AllAdded(edits[..|edits| - 1], level) + AddedAt(edits[|edits| - 1].added, level)
  }

  ghost predicate DistinctNumbers(ns: seq<(nat, Meta)>, level: nat) {
    forall i, j :: 0 <= i < j < |ns| && ns[i].0 == level && ns[j].0 == level ==> ns[i].1.number != ns[j].1.number
  }

  /** A new file's number was never used on its level. */
  ghost predicate FreshEdit(base: set<Meta>, edits: seq<Edit>, e: Edit, level: nat) {
    NumbersOf(AddedAt(e.added, level)) !! NumbersOf(base + AllAdded(edits, level)) && DistinctNumbers(e.added, level)
  }

  ghost predicate Fresh(base: set<Meta>, edits: seq<Edit>, level: nat) {
    |edits| > 0 ==>
      && Fresh(base, edits[..|edits| - 1], level)
      && FreshEdit(base, edits[..|edits| - 1], edits[|edits| - 1], level)
  }

  lemma {:induction false} FreshInserted(rank: Ranking, files: set<Meta>, ns: seq<(nat, Meta)>, level: nat, n: nat)
    requires n <= |ns| && DistinctNumbers(ns, level) && NumbersOf(AddedAt(ns, level)) !! NumbersOf(files)
    ensures InsertAll(rank, files, ns[..n], level) == files + AddedAt(ns[..n], level)
  {
    if n > 0 {
      FreshInserted(rank, files, ns, level, n - 1);
      AddedNext(ns, n - 1, level);
      assert ns[..n][..n - 1] == ns[..n - 1];
      var f := ns[n - 1].1;
      if ns[n - 1].0 == level {
        forall g | g in files + AddedAt(ns[..n - 1], level) ensures g.number != f.number {
          assert ns[n - 1] in ns && f in AddedAt(ns, level) && f.number in NumbersOf(AddedAt(ns, level));
          if g in files {
            assert g.number in NumbersOf(files);
          } else {
            var m :| m in ns[..n - 1] && m.0 == level && m.1 == g;
            var i :| 0 <= i < n - 1 && ns[..n - 1][i] == m;
            assert ns[i] == m;
          }
        }
      }
    }
  }

  /** If every number is used once, all new files are gathered. */
  lemma {:induction false} FreshGathered(rank: Ranking, base: set<Meta>, edits: seq<Edit>, level: nat)
    requires Fresh(base, edits, level)
    ensures Gathered(rank, edits, level) == AllAdded(edits, level)
  {
    if |edits| > 0 {
      var before, e := edits[..|edits| - 1], edits[|edits| - 1];
      FreshGathered(rank, base, before, level);
      forall n | n in NumbersOf(AllAdded(before, level)) ensures n in NumbersOf(base + AllAdded(before, level)) {
        var f :| f in AllAdded(before, level) && f.number == n;
        assert f in base + AllAdded(before, level);
      }
      FreshInserted(rank, AllAdded(before, level), e.added, level, |e.added|);
      assert e.added[..|e.added|] == e.added;
    }
  }

  lemma {:induction false} NeverInBase(base: set<Meta>, edits: seq<Edit>, level: nat, f: Meta, g: Meta)
    requires Fresh(base, edits, level) && f in base && g in AllAdded(edits, level)
    ensures f.number != g.number
  {
    var before, e := edits[..|edits| - 1], edits[|edits| - 1];
    if g in AllAdded(before, level) {
      NeverInBase(base, before, level, f, g);
    } else {
      assert g.number in NumbersOf(AddedAt(e.added, level));
      assert f.number in NumbersOf(base + AllAdded(before, level));
    }
  }

  /** Then no file comes back and none is shut out. */
  lemma {:induction false} FreshNeverDisplaces(rank: Ranking, base: set<Meta>, edits: seq<Edit>, level: nat, f: Meta)
    requires Fresh(base, edits, level)
    ensures !Displaced(rank, base, edits, level, f) && !ShutOut(rank, base, edits, level, f)
  {
    if |edits| > 0 {
      var before, e := edits[..|edits| - 1], edits[|edits| - 1];
      FreshNeverDisplaces(rank, base, before, level, f);
      FreshGathered(rank, base, before, level);
      FreshGathered(rank, base, edits, level);
      if Known(rank, base, before, level, f) {
        assert f.number in NumbersOf(base + AllAdded(before, level));
      }
    }
  }

  lemma {:induction false} FreshIsApplied(rank: Ranking, base: set<Meta>, edits: seq<Edit>, level: nat)
    requires Fresh(base, edits, level)
    ensures Saved(rank, base, edits, level) == ApplyEdits(base, edits, level)
  {
    forall f ensures !Displaced(rank, base, edits, level, f) && !ShutOut(rank, base, edits, level, f) {
      FreshNeverDisplaces(rank, base, edits, level, f);
    }
    CollectedIsAppliedExactly(rank, base, edits, level);
  }

  // ----- The builder -----

  datatype LevelState = LevelState(deleted: set<nat>, added: seq<Meta>)

  /** Insertion into a set that is kept in order; an equal element stays. */
  method InsertSorted(rank: Ranking, files: seq<Meta>, f: Meta) returns (r: seq<Meta>)
    requires Sorted(rank, files)
    ensures Sorted(rank, r) && Elements(r) == Place(rank, Elements(files), f)
  {
    var i := 0;
    while i < |files| && BySmallest(rank, files[i], f)
      invariant 0 <= i <= |files|
      invariant forall j :: 0 <= j < i ==> BySmallest(rank, files[j], f)
    {
      i := i + 1;
    }
    if i < |files| && !BySmallest(rank, f, files[i]) {
      assert files[i] in Elements(files) && SamePlace(rank, f, files[i]);
      return files;
    }
    r := files[..i] + [f] + files[i..];
    SplicedSorted(rank, files, i, f);
    forall g | g in Elements(files) ensures !SamePlace(rank, f, g) {
      var j :| 0 <= j < |files| && files[j] == g;
      assert j > i ==> BySmallest(rank, files[i], files[j]);
    }
  }

  lemma {:induction false} SplicedSorted(rank: Ranking, files: seq<Meta>, i: nat, f: Meta)
    requires Sorted(rank, files) && i <= |files|
    requires forall j :: 0 <= j < i ==> BySmallest(rank, files[j], f)
    requires i < |files| ==> BySmallest(rank, f, files[i])
    ensures Sorted(rank, files[..i] + [f] + files[i..])
    ensures Elements(files[..i] + [f] + files[i..]) == Elements(files) + {f}
  {
    var r := files[..i] + [f] + files[i..];
    forall j | i <= j < |files| ensures BySmallest(rank, f, files[j]) {
      assert j > i ==> BySmallest(rank, files[i], files[j]);
    }
    forall a, b | 0 <= a < b < |r| ensures BySmallest(rank, r[a], r[b]) {
      var a', b' := if a <= i then a else a - 1, if b <= i then b else b - 1;
      if a != i && b != i {
        assert BySmallest(rank, files[a'], files[b']);
      }
    }
    forall g | g in files ensures g in r {
      assert files == files[..i] + files[i..];
    }
  }

  /** The fold that Apply does on one level: what is there after deletions `ds` and additions `ns`. */
  ghost predicate LevelIs(rank: Ranking, before: LevelState, after: LevelState, ds: seq<(nat, nat)>,
                          ns: seq<(nat, Meta)>, level: nat) {
    && after.deleted == before.deleted + DeletedAt(ds, level) - NumbersOf(AddedAt(ns, level))
    && Sorted(rank, after.added)
    && Elements(after.added) == InsertAll(rank, Elements(before.added), ns, level)
  }

  lemma {:induction false} DeletedNext(ds: seq<(nat, nat)>, i: nat, level: nat)
    requires i < |ds|
    ensures DeletedAt(ds[..i + 1], level) == DeletedAt(ds[..i], level) + if ds[i].0 == level then {ds[i].1} else {}
  {
    assert ds[..i + 1] == ds[..i] + [ds[i]];
    assert ds[i] in ds[..i + 1];
  }

  lemma {:induction false} AddedNext(ns: seq<(nat, Meta)>, i: nat, level: nat)
    requires i < |ns|
    ensures AddedAt(ns[..i + 1], level) == AddedAt(ns[..i], level) + if ns[i].0 == level then {ns[i].1} else {}
    ensures NumbersOf(AddedAt(ns[..i + 1], level)) ==
            NumbersOf(AddedAt(ns[..i], level)) + if ns[i].0 == level then {ns[i].1.number} else {}
  {
    assert ns[..i + 1] == ns[..i] + [ns[i]];
    assert ns[i] in ns[..i + 1];
    var now, was := AddedAt(ns[..i + 1], level), AddedAt(ns[..i], level);
    assert now == was + if ns[i].0 == level then {ns[i].1} else {};
    assert ns[i].0 == level ==> ns[i].1 in now;
    forall n | n in NumbersOf(now) ensures n in NumbersOf(was) + if ns[i].0 == level then {ns[i].1.number} else {} {
      var f :| f in now && f.number == n;
      assert f in was || (ns[i].0 == level && f == ns[i].1);
    }
  }

  class Builder {
    const rank: Ranking
    const base: seq<seq<Meta>>
    var levels: seq<LevelState>
    /** The compact pointers of the version set, and what they were before. */
    var compactPointer: seq<Bytes>
    ghost const startPointer: seq<Bytes>
    ghost var edits: seq<Edit>

    ghost predicate Valid()
      reads this
    {
      && |base| == NUM_LEVELS == |levels| && |compactPointer| == NUM_LEVELS == |startPointer|
      && (forall l :: 0 <= l < NUM_LEVELS ==> compactPointer[l] == PointerAfter(startPointer[l], edits, l))
      && forall l {:trigger LevelOk(l)} :: 0 <= l < NUM_LEVELS ==> LevelOk(l)
    }

    ghost predicate LevelOk(l: nat)
      requires l < |base| && l < |levels|
      reads this
    {
      && Sorted(rank, base[l]) && Sorted(rank, levels[l].added)
      && levels[l].deleted == StillDeleted(edits, l)
      && Elements(levels[l].added) == Gathered(rank, edits, l)
    }

    constructor (rank: Ranking, base: seq<seq<Meta>>, compactPointer: seq<Bytes>)
      requires |base| == NUM_LEVELS && forall l :: 0 <= l < NUM_LEVELS ==> Sorted(rank, base[l])
      requires |compactPointer| == NUM_LEVELS
      ensures Valid() && edits == [] && this.rank == rank && this.base == base && startPointer == compactPointer
    {
      this.rank, this.base := rank, base;
      this.compactPointer, startPointer := compactPointer, compactPointer;
      levels := seq(NUM_LEVELS, _ => LevelState({}, []));
      edits := [];
    }

    ghost predicate LevelsInRange(e: Edit) {
      && (forall p <- e.compactPointers :: p.0 < NUM_LEVELS)
      && (forall d <- e.deleted :: d.0 < NUM_LEVELS)
      && (forall n <- e.added :: n.0 < NUM_LEVELS)
    }

    /** Apply an edit: its compact pointers, its deletions, then its additions. */
    method Apply(e: Edit)
      requires Valid() && LevelsInRange(e)
      modifies this
      ensures Valid() && edits == old(edits) + [e]
    {
      ghost var before := levels;
      forall l | 0 <= l < NUM_LEVELS ensures Sorted(rank, before[l].added) {
        assert LevelOk(l);
      }
      SetPointers(e.compactPointers);
      Delete(e.deleted);
      Add(before, e);
      edits := edits + [e];
      assert edits[..|edits| - 1] == old(edits);
      forall l | 0 <= l < NUM_LEVELS ensures LevelOk(l) {
        assert old(LevelOk(l));
        assert LevelIs(rank, before[l], levels[l], e.deleted, e.added, l);
      }
    }

    method SetPointers(pointers: seq<(nat, Bytes)>)
      requires |compactPointer| == NUM_LEVELS && forall p <- pointers :: p.0 < NUM_LEVELS
      modifies `compactPointer
      ensures |compactPointer| == NUM_LEVELS
      ensures forall l :: 0 <= l < NUM_LEVELS ==> compactPointer[l] == LastPointer(old(compactPointer[l]), pointers, l)
    {
      for i := 0 to |pointers|
        invariant |compactPointer| == NUM_LEVELS
        invariant forall l :: 0 <= l < NUM_LEVELS ==> compactPointer[l] == LastPointer(old(compactPointer)[l], pointers[..i], l)
      {
        var (level, key) := pointers[i];
        assert pointers[i] in pointers && pointers[..i + 1][..i] == pointers[..i];
        compactPointer := compactPointer[level := key];
      }
      assert pointers[..|pointers|] == pointers;
    }

    method Delete(ds: seq<(nat, nat)>)
      requires |levels| == NUM_LEVELS && forall d <- ds :: d.0 < NUM_LEVELS
      modifies `levels
      ensures |levels| == NUM_LEVELS
      ensures forall l :: 0 <= l < NUM_LEVELS ==>
        levels[l] == old(levels[l]).(deleted := old(levels[l]).deleted + DeletedAt(ds, l))
    {
      for i := 0 to |ds|
        invariant |levels| == NUM_LEVELS
        invariant forall l :: 0 <= l < NUM_LEVELS ==>
          levels[l] == old(levels)[l].(deleted := old(levels)[l].deleted + DeletedAt(ds[..i], l))
      {
        var (level, number) := ds[i];
        assert ds[i] in ds;
        forall l | 0 <= l < NUM_LEVELS
          ensures DeletedAt(ds[..i + 1], l) == DeletedAt(ds[..i], l) + if ds[i].0 == l then {ds[i].1} else {}
        {
          DeletedNext(ds, i, l);
        }
        levels := levels[level := levels[level].(deleted := levels[level].deleted + {number})];
      }
      assert ds[..|ds|] == ds;
    }

    method Add(ghost before: seq<LevelState>, e: Edit)
      requires |base| == |levels| == NUM_LEVELS == |before| && LevelsInRange(e)
      requires forall l :: 0 <= l < NUM_LEVELS ==>
        && levels[l] == before[l].(deleted := before[l].deleted + DeletedAt(e.deleted, l))
        && Sorted(rank, before[l].added)
      modifies `levels
      ensures |levels| == NUM_LEVELS
      ensures forall l :: 0 <= l < NUM_LEVELS ==> LevelIs(rank, before[l], levels[l], e.deleted, e.added, l)
    {
      hide Sorted;
      var ns := e.added;
      assert ns[..0] == [];
      for i := 0 to |ns|
        invariant |levels| == NUM_LEVELS
        invariant forall l :: 0 <= l < NUM_LEVELS ==> LevelIs(rank, before[l], levels[l], e.deleted, ns[..i], l)
      {
        var (level, f) := ns[i];
        assert ns[i] in ns;
        var added := InsertSorted(rank, levels[level].added, f);
        var state := LevelState(levels[level].deleted - {f.number}, added);
        forall l | 0 <= l < NUM_LEVELS
          ensures LevelIs(rank, before[l], if l == level then state else levels[l], e.deleted, ns[..i + 1], l)
        {
          AddedNext(ns, i, l);
          assert ns[..i + 1][..i] == ns[..i];
          assert LevelIs(rank, before[l], levels[l], e.deleted, ns[..i], l);
        }
        levels := levels[level := state];
      }
      assert ns[..|ns|] == ns;
    }

    /** Append a file unless it was deleted. */
    method MaybeAddFile(files: seq<Meta>, level: nat, f: Meta, ghost all: seq<Meta>)
      returns (r: seq<Meta>, ghost all': seq<Meta>)
      requires level < |levels| && files == Kept(all, levels[level].deleted)
      ensures all' == all + [f] && r == Kept(all', levels[level].deleted)
    {
      KeptNext(all, f, levels[level].deleted);
      all' := all + [f];
      r := if f.number in levels[level].deleted then files else files + [f];
    }

    /** The files of a level: the merge of the base files and the added ones, without the deleted ones. */
    method SaveTo(level: nat) returns (files: seq<Meta>)
      requires Valid() && level < NUM_LEVELS
      ensures WeaklySorted(rank, files)
      ensures multiset(files) ==
              multiset(Kept(base[level], StillDeleted(edits, level))) + multiset(Kept(levels[level].added, StillDeleted(edits, level)))
      ensures Elements(files) == Saved(rank, Elements(base[level]), edits, level)
      ensures NothingTwice(rank, Elements(base[level]), edits, level) ==> Sorted(rank, files)
    {
      assert LevelOk(level);
      hide StillDeleted, Gathered, Kept;
      var baseFiles, added := base[level], levels[level].added;
      ghost var all: seq<Meta> := [];
      files := [];
      var b := 0;
      MergeStarts(rank, baseFiles, added);
      KeptNothing(levels[level].deleted);
      for a := 0 to |added|
        invariant 0 <= b <= |baseFiles| && files == Kept(all, levels[level].deleted)
        invariant Merged(rank, baseFiles, b, added, a, all)
      {
        while b < |baseFiles| && !BySmallest(rank, added[a], baseFiles[b])
          invariant 0 <= b <= |baseFiles| && files == Kept(all, levels[level].deleted)
          invariant Merged(rank, baseFiles, b, added, a, all)
        {
          TakeBase(rank, baseFiles, b, added, a, all);
          files, all := MaybeAddFile(files, level, baseFiles[b], all);
          b := b + 1;
        }
        TakeAdded(rank, baseFiles, b, added, a, all);
        files, all := MaybeAddFile(files, level, added[a], all);
      }
      while b < |baseFiles|
        invariant 0 <= b <= |baseFiles| && files == Kept(all, levels[level].deleted)
        invariant Merged(rank, baseFiles, b, added, |added|, all)
      {
        TakeBase(rank, baseFiles, b, added, |added|, all);
        files, all := MaybeAddFile(files, level, baseFiles[b], all);
        b := b + 1;
      }
      MergeKept(rank, baseFiles, added, all, edits, level);
    }
  }

  /** No two saved files compare equal, and none is among both the base files and the new ones. */
  ghost predicate NothingTwice(rank: Ranking, base: set<Meta>, edits: seq<Edit>, level: nat) {
    forall f, g {:trigger SamePlace(rank, f, g)} ::
      f in base && g in Gathered(rank, edits, level) && f.number !in StillDeleted(edits, level) ==> !SamePlace(rank, f, g)
  }

  lemma {:induction false} FreshNothingTwice(rank: Ranking, base: set<Meta>, edits: seq<Edit>, level: nat)
    requires Fresh(base, edits, level)
    ensures NothingTwice(rank, base, edits, level)
  {
    FreshGathered(rank, base, edits, level);
    forall f, g | f in base && g in Gathered(rank, edits, level) ensures !SamePlace(rank, f, g) {
      NeverInBase(base, edits, level, f, g);
    }
  }

  /** A file that is deleted in the edit that adds another one of its number: both are saved. */
  method ReusedNumberResurrects(rank: Ranking, f: Meta, g: Meta) returns (files: seq<Meta>)
    requires f.number == g.number && f != g
    ensures var e := Replacement(f, g);
            ApplyEdits({f}, [e], 1) == {g} && Displaced(rank, {f}, [e], 1, f) && Elements(files) == {f, g}
  {
    hide Saved, ApplyEdits, Displaced, Gathered, StillDeleted, NothingTwice, Kept;
    var e := Replacement(f, g);
    var base := seq(NUM_LEVELS, l => if l == 1 then [f] else []);
    var builder := new Builder(rank, base, seq(NUM_LEVELS, _ => []));
    assert base[1] == [f] && builder.LevelsInRange(e);
    hide Builder.Valid, Builder.LevelsInRange;
    builder.Apply(e);
    files := builder.SaveTo(1);
    assert builder.edits == [e] && Elements([f]) == {f};
    ReplacementComesBack(rank, f, g);
  }

  /** The first file goes, the second one comes. */
  function Replacement(f: Meta, g: Meta): Edit {
    EMPTY.(deleted := [(1, f.number)], added := [(1, g)])
  }

  lemma {:induction false} ReplacementComesBack(rank: Ranking, f: Meta, g: Meta)
    requires f.number == g.number && f != g
    ensures var e := Replacement(f, g);
            && ApplyEdits({f}, [e], 1) == {g} && Displaced(rank, {f}, [e], 1, f) && Saved(rank, {f}, [e], 1) == {f, g}
  {
    var e := Replacement(f, g);
    assert [e][..0] == [] && e.added[..0] == [];
    assert (1, g) in e.added && AddedAt(e.added, 1) == {g} && g in {g} && g.number in NumbersOf({g});
    assert (1, f.number) in e.deleted && DeletedAt(e.deleted, 1) == {f.number};
    assert ApplyEdits({f}, [], 1) == {f};
    assert Gathered(rank, [], 1) == {} && InsertAll(rank, {}, [], 1) == {};
    assert Gathered(rank, [e], 1) == {g};
    assert StillDeleted([], 1) == {} && StillDeleted([e], 1) == {};
  }

  /** The files that are not deleted, in order. */
  function Kept(files: seq<Meta>, deleted: set<nat>): seq<Meta> {
    if |files| == 0 then []
    else
      var last := files[|files| - 1];
      Kept(files[..|files| - 1], deleted) + if last.number in deleted then [] else [last]
  }

  lemma {:induction false} KeptNext(files: seq<Meta>, f: Meta, deleted: set<nat>)
    ensures Kept(files + [f], deleted) == Kept(files, deleted) + if f.number in deleted then [] else [f]
  {
    assert (files + [f])[..|files|] == files;
  }

  lemma {:induction false} KeptNothing(deleted: set<nat>)
    ensures Kept([], deleted) == []
  {
  }

  /** No file comes before an earlier one. */
  ghost predicate WeaklySorted(rank: Ranking, files: seq<Meta>) {
    forall i, j {:trigger BySmallest(rank, files[j], files[i])} :: 0 <= i < j < |files| ==> !BySmallest(rank, files[j], files[i])
  }

  lemma {:induction false} WeaklySortedSnoc(rank: Ranking, files: seq<Meta>, f: Meta)
    requires WeaklySorted(rank, files) && forall g <- files :: !BySmallest(rank, f, g)
    ensures WeaklySorted(rank, files + [f])
  {
    var r := files + [f];
    forall i, j | 0 <= i < j < |r| ensures !BySmallest(rank, r[j], r[i]) {
      assert j < |files| ==> !BySmallest(rank, files[j], files[i]);
    }
  }

  lemma {:induction false} KeptWeaklySorted(rank: Ranking, files: seq<Meta>, deleted: set<nat>)
    requires WeaklySorted(rank, files)
    ensures WeaklySorted(rank, Kept(files, deleted))
    ensures Elements(Kept(files, deleted)) == set f | f in files && f.number !in deleted
  {
    if |files| > 0 {
      var fewer, last := files[..|files| - 1], files[|files| - 1];
      assert WeaklySorted(rank, fewer) by {
        forall i, j | 0 <= i < j < |fewer| ensures !BySmallest(rank, fewer[j], fewer[i]) {
          assert !BySmallest(rank, files[j], files[i]);
        }
      }
      KeptWeaklySorted(rank, fewer, deleted);
      assert files == fewer + [last];
      var kept := Kept(fewer, deleted);
      forall g | g in kept ensures !BySmallest(rank, last, g) {
        assert g in Elements(kept);
        var i :| 0 <= i < |fewer| && fewer[i] == g;
        assert !BySmallest(rank, files[|files| - 1], files[i]);
      }
      WeaklySortedSnoc(rank, kept, last);
      forall f ensures f in Kept(files, deleted) <==> f in files && f.number !in deleted {
        assert f in kept <==> f in Elements(kept);
      }
    }
  }

  lemma {:induction false} SortedIsWeaklySorted(rank: Ranking, files: seq<Meta>)
    requires Sorted(rank, files)
    ensures WeaklySorted(rank, files)
  {
    forall i, j | 0 <= i < j < |files| ensures !BySmallest(rank, files[j], files[i]) {
      assert BySmallest(rank, files[i], files[j]);
    }
  }

  lemma {:induction false} KeptSorted(rank: Ranking, files: seq<Meta>, deleted: set<nat>)
    requires Sorted(rank, files)
    ensures Sorted(rank, Kept(files, deleted))
  {
    if |files| > 0 {
      var fewer, last := files[..|files| - 1], files[|files| - 1];
      assert Sorted(rank, fewer) by {
        forall i, j | 0 <= i < j < |fewer| ensures BySmallest(rank, fewer[i], fewer[j]) {
          assert BySmallest(rank, files[i], files[j]);
        }
      }
      KeptSorted(rank, fewer, deleted);
      SortedIsWeaklySorted(rank, fewer);
      KeptWeaklySorted(rank, fewer, deleted);
      var kept := Kept(fewer, deleted);
      forall i | 0 <= i < |kept| ensures BySmallest(rank, kept[i], last) {
        assert kept[i] in Elements(kept);
        var j :| 0 <= j < |fewer| && fewer[j] == kept[i];
        assert BySmallest(rank, files[j], files[|files| - 1]);
      }
    }
  }

  lemma {:induction false} KeptCounts(files: seq<Meta>, more: seq<Meta>, all: seq<Meta>, deleted: set<nat>)
    requires multiset(all) == multiset(files) + multiset(more)
    ensures multiset(Kept(all, deleted)) == multiset(Kept(files, deleted)) + multiset(Kept(more, deleted))
  {
    forall f ensures multiset(Kept(all, deleted))[f] == multiset(Kept(files, deleted))[f] + multiset(Kept(more, deleted))[f] {
      KeptCount(all, deleted, f);
      KeptCount(files, deleted, f);
      KeptCount(more, deleted, f);
    }
  }

  lemma {:induction false} KeptCount(files: seq<Meta>, deleted: set<nat>, f: Meta)
    ensures multiset(Kept(files, deleted))[f] == if f.number in deleted then 0 else multiset(files)[f]
  {
    if |files| > 0 {
      var fewer, last := files[..|files| - 1], files[|files| - 1];
      KeptCount(fewer, deleted, f);
      assert files == fewer + [last];
      assert multiset(files)[f] == multiset(fewer)[f] + if f == last then 1 else 0;
    }
  }

  // ----- Merging -----

  /** The first files of two sorted lists, merged; none of them comes after the rest of both. */
  ghost predicate Merged(rank: Ranking, base: seq<Meta>, b: nat, added: seq<Meta>, a: nat, all: seq<Meta>) {
    && b <= |base| && a <= |added| && Sorted(rank, base) && Sorted(rank, added) && WeaklySorted(rank, all)
    && multiset(all) == multiset(base[..b]) + multiset(added[..a])
    && (forall i {:trigger base[i]} :: b <= i < |base| ==> Precedes(rank, all, base[i]))
    && (forall i {:trigger added[i]} :: a <= i < |added| ==> Precedes(rank, all, added[i]))
  }

  ghost predicate Precedes(rank: Ranking, all: seq<Meta>, f: Meta) {
    forall g <- all :: !BySmallest(rank, f, g)
  }

  lemma {:induction false} MergeStarts(rank: Ranking, base: seq<Meta>, added: seq<Meta>)
    requires Sorted(rank, base) && Sorted(rank, added)
    ensures Merged(rank, base, 0, added, 0, [])
  {
  }

  lemma {:induction false} ExtendAll(rank: Ranking, all: seq<Meta>, f: Meta, g: Meta)
    requires Precedes(rank, all, f) && !BySmallest(rank, g, f)
    ensures Precedes(rank, all + [f], g)
  {
    forall h | h in all + [f] ensures !BySmallest(rank, g, h) {
      assert h in all ==> !BySmallest(rank, f, h);
    }
  }

  lemma {:induction false} TakeBase(rank: Ranking, base: seq<Meta>, b: nat, added: seq<Meta>, a: nat, all: seq<Meta>)
    requires Merged(rank, base, b, added, a, all) && b < |base|
    requires a < |added| ==> !BySmallest(rank, added[a], base[b])
    ensures Merged(rank, base, b + 1, added, a, all + [base[b]])
  {
    WeaklySortedSnoc(rank, all, base[b]);
    assert base[..b + 1] == base[..b] + [base[b]];
    forall i | b + 1 <= i < |base| ensures Precedes(rank, all + [base[b]], base[i]) {
      assert BySmallest(rank, base[b], base[i]);
      ExtendAll(rank, all, base[b], base[i]);
    }
    forall i | a <= i < |added| ensures Precedes(rank, all + [base[b]], added[i]) {
      assert i > a ==> BySmallest(rank, added[a], added[i]);
      ExtendAll(rank, all, base[b], added[i]);
    }
  }

  lemma {:induction false} TakeAdded(rank: Ranking, base: seq<Meta>, b: nat, added: seq<Meta>, a: nat, all: seq<Meta>)
    requires Merged(rank, base, b, added, a, all) && a < |added|
    requires b < |base| ==> BySmallest(rank, added[a], base[b])
    ensures Merged(rank, base, b, added, a + 1, all + [added[a]])
  {
    WeaklySortedSnoc(rank, all, added[a]);
    assert added[..a + 1] == added[..a] + [added[a]];
    forall i | a + 1 <= i < |added| ensures Precedes(rank, all + [added[a]], added[i]) {
      assert BySmallest(rank, added[a], added[i]);
      ExtendAll(rank, all, added[a], added[i]);
    }
    forall i | b <= i < |base| ensures Precedes(rank, all + [added[a]], base[i]) {
      assert i > b ==> BySmallest(rank, base[b], base[i]);
      ExtendAll(rank, all, added[a], base[i]);
    }
  }

  /** What the whole merge keeps. */
  lemma {:induction false} MergeKept(rank: Ranking, base: seq<Meta>, added: seq<Meta>, all: seq<Meta>, edits: seq<Edit>, level: nat)
    requires Merged(rank, base, |base|, added, |added|, all) && Elements(added) == Gathered(rank, edits, level)
    ensures var deleted := StillDeleted(edits, level);
            var files := Kept(all, deleted);
            && WeaklySorted(rank, files)
            && multiset(files) == multiset(Kept(base, deleted)) + multiset(Kept(added, deleted))
            && Elements(files) == Saved(rank, Elements(base), edits, level)
            && (NothingTwice(rank, Elements(base), edits, level) ==> Sorted(rank, files))
  {
    var deleted := StillDeleted(edits, level);
    assert base[..|base|] == base && added[..|added|] == added;
    hide StillDeleted, Gathered, Kept, NothingTwice, Precedes;
    KeptWeaklySorted(rank, all, deleted);
    KeptCounts(base, added, all, deleted);
    MergeMembers(base, added, all);
    assert Elements(Kept(all, deleted)) == Saved(rank, Elements(base), edits, level);
    if NothingTwice(rank, Elements(base), edits, level) {
      KeptStrictly(rank, base, added, all, edits, level);
    }
  }

  lemma {:induction false} MergeMembers(base: seq<Meta>, added: seq<Meta>, all: seq<Meta>)
    requires multiset(all) == multiset(base) + multiset(added)
    ensures forall f :: f in all <==> f in Elements(base) + Elements(added)
  {
    forall f ensures f in all <==> f in Elements(base) + Elements(added) {
      assert f in multiset(all) <==> f in multiset(base) || f in multiset(added);
    }
  }

  lemma {:induction false} KeptStrictly(rank: Ranking, base: seq<Meta>, added: seq<Meta>, all: seq<Meta>, edits: seq<Edit>, level: nat)
    requires Sorted(rank, base) && Sorted(rank, added) && Elements(added) == Gathered(rank, edits, level)
    requires NothingTwice(rank, Elements(base), edits, level)
    requires WeaklySorted(rank, Kept(all, StillDeleted(edits, level)))
    requires var deleted := StillDeleted(edits, level);
             multiset(Kept(all, deleted)) == multiset(Kept(base, deleted)) + multiset(Kept(added, deleted))
    ensures Sorted(rank, Kept(all, StillDeleted(edits, level)))
  {
    hide StillDeleted, Gathered;
    var deleted := StillDeleted(edits, level);
    KeptSorted(rank, base, deleted);
    KeptSorted(rank, added, deleted);
    SortedIsWeaklySorted(rank, base);
    SortedIsWeaklySorted(rank, added);
    KeptWeaklySorted(rank, base, deleted);
    KeptWeaklySorted(rank, added, deleted);
    hide Kept, Sorted, WeaklySorted;
    forall f, g | f in Kept(base, deleted) && g in Kept(added, deleted) ensures !SamePlace(rank, f, g) {
      assert f in Elements(Kept(base, deleted)) && g in Elements(Kept(added, deleted));
    }
    StrictlyMerged(rank, Kept(base, deleted), Kept(added, deleted), Kept(all, deleted));
  }

  /** Two sorted lists without files in the same place, merged, are sorted. */
  lemma {:induction false} StrictlyMerged(rank: Ranking, base: seq<Meta>, added: seq<Meta>, all: seq<Meta>)
    requires Sorted(rank, base) && Sorted(rank, added) && WeaklySorted(rank, all)
    requires multiset(all) == multiset(base) + multiset(added)
    requires forall f, g {:trigger SamePlace(rank, f, g)} :: f in base && g in added ==> !SamePlace(rank, f, g)
    ensures Sorted(rank, all)
  {
    forall i, j | 0 <= i < j < |all| ensures BySmallest(rank, all[i], all[j]) {
      var f, g := all[i], all[j];
      assert !BySmallest(rank, all[j], all[i]);
      assert f in multiset(all) && g in multiset(all);
      if f == g {
        CountsTwice(all, i, j);
        AtMostOnce(rank, base, f);
        AtMostOnce(rank, added, f);
        assert SamePlace(rank, f, f);
      } else if SamePlace(rank, f, g) {
        assert SamePlace(rank, g, f);
        if f in base {
          NoEquals(rank, base, f, g);
        } else {
          NoEquals(rank, added, f, g);
        }
      }
    }
  }

  lemma {:induction false} NoEquals(rank: Ranking, files: seq<Meta>, f: Meta, g: Meta)
    requires Sorted(rank, files) && SamePlace(rank, f, g) && f != g && f in files
    ensures g !in files
  {
    var i :| 0 <= i < |files| && files[i] == f;
    forall j | 0 <= j < |files| ensures files[j] != g {
      if i < j {
        assert BySmallest(rank, files[i], files[j]);
      } else if j < i {
        assert BySmallest(rank, files[j], files[i]);
      }
    }
  }

  lemma {:induction false} CountsTwice(files: seq<Meta>, i: nat, j: nat)
    requires i < j < |files| && files[i] == files[j]
    ensures multiset(files)[files[i]] >= 2
  {
    assert files == files[..j] + [files[j]] + files[j + 1..];
    assert files[i] in files[..j];
  }

  lemma {:induction false} AtMostOnce(rank: Ranking, files: seq<Meta>, f: Meta)
    requires Sorted(rank, files)
    ensures multiset(files)[f] <= 1
  {
    if |files| > 0 {
      var fewer, last := files[..|files| - 1], files[|files| - 1];
      assert files == fewer + [last];
      assert Sorted(rank, fewer) by {
        forall i, j | 0 <= i < j < |fewer| ensures BySmallest(rank, fewer[i], fewer[j]) {
          assert BySmallest(rank, files[i], files[j]);
        }
      }
      AtMostOnce(rank, fewer, f);
      forall i | 0 <= i < |fewer| ensures fewer[i] != last {
        assert BySmallest(rank, files[i], files[|files| - 1]);
      }
    }
  }
}
