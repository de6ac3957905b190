/** The manifest of a run: replaying the edits of the store's steps gives the files of its version. */
module RunEdits {
  import opened Coding
  import opened Common
  import opened FileNumbers
  import opened InternalKey
  import opened Lsm
  import opened Store
  import opened VersionEdits
  import opened Versions
  import VersionBuilder

  /** How internal keys are written. */
  type Encoding = Entry -> Bytes

  function MetaOf(enc: Encoding, f: File): Meta {
    Meta(f.number, f.size, enc(f.smallest), enc(f.largest))
  }

  ghost function Metas(enc: Encoding, files: set<File>): set<Meta> {
    set f | f in files :: MetaOf(enc, f)
  }

  ghost function FilesAt(n: Numbered, l: nat): set<File> {
    if l < NUM_LEVELS then Files(n.db.version.levels[l]) else {}
  }

  // ----- The edit of a step -----

  ghost function AddedAt(step: Step, l: nat): set<File> {
    if l == Added(step).0 then Added(step).1 else {}
  }

  ghost function RemovedAt(step: Step, l: nat): set<File> {
    match step
    case Move(level, f) => if l == level then {f} else {}
    case Compact(level, in0, in1, outs, input, smallest) => if l == level then in0 else if l == level + 1 then in1 else {}
    case _ => {}
  }

  ghost function Numbers(files: set<File>): set<nat> {
    set f | f in files :: f.number
  }

  /** The edit deletes the inputs of a step and adds its outputs, each once. */
  ghost predicate IsEditOf(enc: Encoding, e: Edit, step: Step) {
    && (forall l: nat {:trigger RemovedAt(step, l)} :: VersionBuilder.DeletedAt(e.deleted, l) == Numbers(RemovedAt(step, l)))
    && (forall l: nat {:trigger AddedAt(step, l)} :: VersionBuilder.AddedAt(e.added, l) == Metas(enc, AddedAt(step, l)))
    && (forall i, j :: 0 <= i < j < |e.added| ==> e.added[i] != e.added[j])
  }

  ghost predicate AreEditsOf(enc: Encoding, edits: seq<Edit>, steps: seq<Step>) {
    |edits| == |steps| && forall i {:trigger edits[i]} :: 0 <= i < |edits| ==> IsEditOf(enc, edits[i], steps[i])
  }

  // ----- What a step does to the files of a level -----

  lemma {:induction false} StepFiles(n: Numbered, n': Numbered, step: Step, l: nat)
    requires NumberedNext(n, n', step) && l < NUM_LEVELS
    ensures RemovedAt(step, l) <= FilesAt(n, l)
    ensures FilesAt(n', l) == FilesAt(n, l) - RemovedAt(step, l) + AddedAt(step, l)
  {
    hide Separated, Stored, NextLevelClosed, FlushLevelOk, Sorted, Elements;
  }

  lemma {:induction false} EditOfFiles(enc: Encoding, before: set<File>, removed: set<File>, added: set<File>, e: Edit, l: nat)
    requires VersionBuilder.DeletedAt(e.deleted, l) == Numbers(removed)
    requires VersionBuilder.AddedAt(e.added, l) == Metas(enc, added)
    requires forall f :: f in before ==> (f.number in Numbers(removed) <==> f in removed)
    ensures VersionBuilder.ApplyEdit(Metas(enc, before), e, l) == Metas(enc, before - removed + added)
  {
    hide Numbers, VersionBuilder.DeletedAt, VersionBuilder.AddedAt;
    var applied, after := VersionBuilder.ApplyEdit(Metas(enc, before), e, l), Metas(enc, before - removed + added);
    forall m ensures m in applied <==> m in after {
    }
  }

  /** The edit does the same to the metadata, as numbers belong to one file. */
  lemma {:induction false} StepMetas(enc: Encoding, n: Numbered, n': Numbered, step: Step, e: Edit, l: nat)
    requires NumbersOk(n) && NumberedNext(n, n', step) && IsEditOf(enc, e, step) && l < NUM_LEVELS
    ensures VersionBuilder.ApplyEdit(Metas(enc, FilesAt(n, l)), e, l) == Metas(enc, FilesAt(n', l))
  {
    hide NumberedNext, VersionBuilder.ApplyEdit, VersionBuilder.DeletedAt, VersionBuilder.AddedAt, Metas, FileOk;
    StepFiles(n, n', step, l);
    var before, removed := FilesAt(n, l), RemovedAt(step, l);
    forall f | f in before ensures f.number in Numbers(removed) <==> f in removed {
      if f.number in Numbers(removed) {
        var g :| g in removed && g.number == f.number;
        assert LiveAt(n.db.version, l, f) && LiveAt(n.db.version, l, g) && PairOk(n.db.version, l, f, l, g);
      }
    }
    assert VersionBuilder.DeletedAt(e.deleted, l) == Numbers(removed);
    assert VersionBuilder.AddedAt(e.added, l) == Metas(enc, AddedAt(step, l));
    EditOfFiles(enc, before, removed, AddedAt(step, l), e, l);
  }

  // ----- Runs -----

  lemma {:induction false} EditsApplied(enc: Encoding, states: seq<Numbered>, steps: seq<Step>, edits: seq<Edit>, i: nat, j: nat, l: nat)
    requires NumberedRun(states, steps) && AreEditsOf(enc, edits, steps) && i <= j <= |steps| && l < NUM_LEVELS
    ensures VersionBuilder.ApplyEdits(Metas(enc, FilesAt(states[i], l)), edits[i..j], l) == Metas(enc, FilesAt(states[j], l))
    decreases j
  {
    hide NumberedNext, NumbersOk, IsEditOf, Metas, FilesAt, VersionBuilder.ApplyEdit;
    if i < j {
      EditsApplied(enc, states, steps, edits, i, j - 1, l);
      NumbersOfRun(states, steps, j - 1);
      assert edits[i..j][..j - i - 1] == edits[i..j - 1] && edits[i..j][j - i - 1] == edits[j - 1];
      assert IsEditOf(enc, edits[j - 1], steps[j - 1]);
      StepMetas(enc, states[j - 1], states[j], steps[j - 1], edits[j - 1], l);
    }
  }

  lemma {:induction false} StepUses(enc: Encoding, n: Numbered, n': Numbered, step: Step, e: Edit, l: nat)
    requires NumberedNext(n, n', step) && IsEditOf(enc, e, step)
    ensures n.used <= n'.used
    ensures forall m :: m in VersionBuilder.AddedAt(e.added, l) ==> (l, m.number) in n'.used
  {
    hide Next;
    var added := AddedAt(step, l);
    assert VersionBuilder.AddedAt(e.added, l) == Metas(enc, added);
    forall f | f in added ensures (l, f.number) in n'.used {
      assert (l, f.number) in Places(Added(step).0, Added(step).1);
    }
  }

  /** Every number that was added was used. */
  lemma {:induction false} AddedWereUsed(enc: Encoding, states: seq<Numbered>, steps: seq<Step>, edits: seq<Edit>, i: nat, j: nat, l: nat)
    requires NumberedRun(states, steps) && AreEditsOf(enc, edits, steps) && i <= j <= |steps|
    ensures forall m :: m in VersionBuilder.AllAdded(edits[i..j], l) ==> (l, m.number) in states[j].used
    decreases j
  {
    hide NumberedNext, IsEditOf, VersionBuilder.AddedAt, Starts;
    if i < j {
      AddedWereUsed(enc, states, steps, edits, i, j - 1, l);
      assert edits[i..j][..j - i - 1] == edits[i..j - 1] && edits[i..j][j - i - 1] == edits[j - 1];
      assert IsEditOf(enc, edits[j - 1], steps[j - 1]) && NumberedNext(states[j - 1], states[j], steps[j - 1]);
      StepUses(enc, states[j - 1], states[j], steps[j - 1], edits[j - 1], l);
    }
  }

  /** The numbers of the edits of a run are new to their levels, whatever state the replay starts from. */
  lemma {:induction false} RunIsFresh(enc: Encoding, states: seq<Numbered>, steps: seq<Step>, edits: seq<Edit>, i: nat, j: nat, l: nat)
    requires NumberedRun(states, steps) && AreEditsOf(enc, edits, steps) && i <= j <= |steps| && l < NUM_LEVELS
    ensures VersionBuilder.Fresh(Metas(enc, FilesAt(states[i], l)), edits[i..j], l)
    decreases j
  {
    hide NumberedNext, IsEditOf, Starts, Metas, FilesAt, VersionBuilder.FreshEdit;
    if i < j {
      RunIsFresh(enc, states, steps, edits, i, j - 1, l);
      assert edits[i..j][..j - i - 1] == edits[i..j - 1] && edits[i..j][j - i - 1] == edits[j - 1];
      NextIsFresh(enc, states, steps, edits, i, j - 1, l);
    }
  }

  lemma {:induction false} NextIsFresh(enc: Encoding, states: seq<Numbered>, steps: seq<Step>, edits: seq<Edit>, i: nat, j: nat, l: nat)
    requires NumberedRun(states, steps) && AreEditsOf(enc, edits, steps) && i <= j < |steps| && l < NUM_LEVELS
    ensures VersionBuilder.FreshEdit(Metas(enc, FilesAt(states[i], l)), edits[i..j], edits[j], l)
  {
    var base, added := Metas(enc, FilesAt(states[i], l)), AddedAt(steps[j], l);
    AddedWereUsed(enc, states, steps, edits, i, j, l);
    NumbersNeverReused(states, steps, j);
    assert IsEditOf(enc, edits[j], steps[j]) && VersionBuilder.AddedAt(edits[j].added, l) == Metas(enc, added);
    forall f | f in FilesAt(states[i], l) ensures (l, f.number) in states[j].used {
      assert LiveAt(states[i].db.version, l, f);
    }
    forall f | f in added ensures (l, f.number) !in states[j].used {
      assert (l, f.number) in Places(Added(steps[j]).0, Added(steps[j]).1);
    }
    DistinctlyNumbered(enc, edits[j], steps[j], l);
  }

  /** The added files of a level have different numbers. */
  lemma {:induction false} DistinctlyNumbered(enc: Encoding, e: Edit, step: Step, l: nat)
    requires IsEditOf(enc, e, step)
    requires forall f, g :: f in Added(step).1 && g in Added(step).1 && f.number == g.number ==> f == g
    ensures VersionBuilder.DistinctNumbers(e.added, l)
  {
    forall i, j | 0 <= i < j < |e.added| && e.added[i].0 == l && e.added[j].0 == l
      ensures e.added[i].1.number != e.added[j].1.number
    {
      assert e.added[i].1 in VersionBuilder.AddedAt(e.added, l) && e.added[j].1 in VersionBuilder.AddedAt(e.added, l);
      assert VersionBuilder.AddedAt(e.added, l) == Metas(enc, AddedAt(step, l));
    }
  }

  /** Collecting the edits of any part of a run onto the files before it gives the files after it. */
  lemma {:induction false} ReplayGivesVersion(enc: Encoding, rank: VersionBuilder.Ranking, states: seq<Numbered>, steps: seq<Step>,
                                              edits: seq<Edit>, i: nat, j: nat, l: nat)
    requires NumberedRun(states, steps) && AreEditsOf(enc, edits, steps) && i <= j <= |steps| && l < NUM_LEVELS
    ensures VersionBuilder.Saved(rank, Metas(enc, FilesAt(states[i], l)), edits[i..j], l) == Metas(enc, FilesAt(states[j], l))
  {
    RunIsFresh(enc, states, steps, edits, i, j, l);
    VersionBuilder.FreshIsApplied(rank, Metas(enc, FilesAt(states[i], l)), edits[i..j], l);
    EditsApplied(enc, states, steps, edits, i, j, l);
  }

  // ----- There are such edits -----

  lemma {:induction false} Listed<T>(s: set<T>) returns (list: seq<T>)
    ensures (forall x :: x in list <==> x in s) && forall i, j :: 0 <= i < j < |list| ==> list[i] != list[j]
    decreases s
  {
    if s == {} {
      list := [];
    } else {
      var x :| x in s;
      var rest := Listed(s - {x});
      list := rest + [x];
    }
  }

  lemma {:induction false} StepHasEdit(enc: Encoding, step: Step) returns (e: Edit)
    ensures IsEditOf(enc, e, step)
  {
    var level, files := Added(step).0, Added(step).1;
    var added := set f | f in files :: (level, MetaOf(enc, f));
    var deleted: set<(nat, nat)> :=
      match step
      case Move(from, f) => {(from, f.number)}
      case Compact(from, in0, in1, outs, input, smallest) =>
        (set f | f in in0 :: (from, f.number)) + (set f | f in in1 :: (from + 1, f.number))
      case _ => {};
    var ns := Listed(added);
    var ds := Listed(deleted);
    e := EMPTY.(deleted := ds, added := ns);
    forall l: nat
      ensures VersionBuilder.DeletedAt(e.deleted, l) == Numbers(RemovedAt(step, l))
      ensures VersionBuilder.AddedAt(e.added, l) == Metas(enc, AddedAt(step, l))
    {
      forall n ensures n in VersionBuilder.DeletedAt(e.deleted, l) <==> n in Numbers(RemovedAt(step, l)) {
        assert n in VersionBuilder.DeletedAt(e.deleted, l) <==> (l, n) in deleted;
      }
      forall m ensures m in VersionBuilder.AddedAt(e.added, l) <==> m in Metas(enc, AddedAt(step, l)) {
        assert m in VersionBuilder.AddedAt(e.added, l) <==> (l, m) in added;
      }
    }
  }
}
