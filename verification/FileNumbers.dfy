/** The numbers of table files: a level never gets a file number that it had before. */
module FileNumbers {
  import opened Common
  import opened Versions
  import opened Lsm
  import opened Store

  /** The store with its next file number and every place where a file number was ever used. */
  datatype Numbered = Numbered(db: Store, next: nat, used: set<(nat, nat)>)

  ghost predicate Starts(n: Numbered) {
    Init(n.db) && n.used == {}
  }

  /** What a step adds to the file map. */
  ghost function Added(step: Step): (nat, set<File>) {
    match step
    case Flush(level, outs) => (level, outs)
    case Move(level, f) => (level + 1, {f})
    case Compact(level, in0, in1, outs, input, smallest) => (level + 1, outs)
    case _ => (0, {})
  }

  ghost function Places(level: nat, files: set<File>): set<(nat, nat)> {
    set f | f in files :: (level, f.number)
  }

  /** New tables have numbers of NewFileNumber; a moved one keeps its number. */
  ghost predicate TakesNumbers(n: Numbered, n': Numbered, step: Step) {
    var (level, files) := Added(step);
    && n.next <= n'.next && n'.used == n.used + Places(level, files)
    && (!step.Move? ==>
          && (forall f :: f in files ==> n.next <= f.number < n'.next)
          && (forall f, g :: f in files && g in files && f.number == g.number ==> f == g))
  }

  ghost predicate NumberedNext(n: Numbered, n': Numbered, step: Step) {
    Next(n.db, n'.db, step) && TakesNumbers(n, n', step)
  }

  ghost predicate NumberedRun(states: seq<Numbered>, steps: seq<Step>) {
    && |states| == |steps| + 1 && Starts(states[0])
    && forall i :: 0 <= i < |steps| ==> NumberedNext(states[i], states[i + 1], steps[i])
  }

  ghost predicate LiveAt(v: Version, l: nat, f: File) {
    l < NUM_LEVELS && f in Files(v.levels[l])
  }

  /** The number of a file in the version is known, and was never used below the file. */
  ghost predicate FileOk(n: Numbered, l: nat, f: File) {
    && f.number < n.next && (l, f.number) in n.used
    && forall p {:trigger p in n.used} :: p in n.used && p.1 == f.number ==> p.0 <= l
  }

  /** The number belongs to one file. */
  ghost predicate PairOk(v: Version, l: nat, f: File, m: nat, g: File) {
    f.number == g.number ==> l == m && f == g
  }

  ghost predicate NumbersOk(n: Numbered) {
    && (forall p {:trigger p in n.used} :: p in n.used ==> p.1 < n.next)
    && (forall l: nat, f {:trigger LiveAt(n.db.version, l, f)} :: LiveAt(n.db.version, l, f) ==> FileOk(n, l, f))
    && (forall l: nat, m: nat, f, g {:trigger PairOk(n.db.version, l, f, m, g)} ::
          LiveAt(n.db.version, l, f) && LiveAt(n.db.version, m, g) ==> PairOk(n.db.version, l, f, m, g))
  }

  /** The files of a version after a step: some that were there before, at the same level, and the added ones. */
  ghost predicate Changes(v: Version, v': Version, level: nat, files: set<File>) {
    forall l: nat, f {:trigger LiveAt(v', l, f)} :: LiveAt(v', l, f) ==> LiveAt(v, l, f) || (l == level && f in files)
  }

  lemma {:induction false} StepChanges(db: Store, db': Store, step: Step)
    requires Next(db, db', step)
    ensures Changes(db.version, db'.version, Added(step).0, Added(step).1)
  {
    hide Selected, Separated, Stored, Ordered, NextLevelClosed, FlushLevelOk;
  }

  /** A moved file is no longer where it was. */
  lemma {:induction false} MovedAway(db: Store, db': Store, level: nat, f: File)
    requires Next(db, db', Move(level, f))
    ensures LiveAt(db.version, level, f) && !LiveAt(db'.version, level, f)
  {
  }

  /** Every place that a step adds is new. */
  lemma {:induction false} AddsNewPlaces(n: Numbered, n': Numbered, step: Step)
    requires NumbersOk(n) && NumberedNext(n, n', step)
    ensures Places(Added(step).0, Added(step).1) !! n.used
  {
    if step.Move? {
      MovedAway(n.db, n'.db, step.moveLevel, step.moved);
      assert FileOk(n, step.moveLevel, step.moved);
    }
  }

  lemma {:induction false} FileKept(n: Numbered, n': Numbered, step: Step, l: nat, f: File)
    requires NumbersOk(n) && NumberedNext(n, n', step) && LiveAt(n'.db.version, l, f)
    ensures FileOk(n', l, f)
  {
    StepChanges(n.db, n'.db, step);
    hide Next;
    var (level, files) := Added(step);
    if LiveAt(n.db.version, l, f) {
      assert FileOk(n, l, f);
      KeptPlace(n, n', step, l, f);
    } else {
      assert l == level && f in files && (level, f.number) in Places(level, files);
      AddedPlace(n, n', step, f);
    }
  }

  /** A file that stays keeps its number to itself. */
  lemma {:induction false} KeptPlace(n: Numbered, n': Numbered, step: Step, l: nat, f: File)
    requires NumbersOk(n) && NumberedNext(n, n', step) && LiveAt(n.db.version, l, f) && LiveAt(n'.db.version, l, f)
    ensures forall g :: g in Added(step).1 ==> g.number != f.number
  {
    assert FileOk(n, l, f);
    if step.Move? {
      MovedAway(n.db, n'.db, step.moveLevel, step.moved);
      assert PairOk(n.db.version, l, f, step.moveLevel, step.moved);
    }
  }

  lemma {:induction false} AddedPlace(n: Numbered, n': Numbered, step: Step, f: File)
    requires NumbersOk(n) && NumberedNext(n, n', step) && f in Added(step).1
    ensures FileOk(n', Added(step).0, f)
  {
    hide Next;
    var (level, files) := Added(step);
    assert (level, f.number) in Places(level, files);
    if step.Move? {
      MovedAway(n.db, n'.db, step.moveLevel, step.moved);
      assert FileOk(n, step.moveLevel, f);
    }
  }

  lemma {:induction false} PairKept(n: Numbered, n': Numbered, step: Step, l: nat, f: File, m: nat, g: File)
    requires NumbersOk(n) && NumberedNext(n, n', step) && LiveAt(n'.db.version, l, f) && LiveAt(n'.db.version, m, g)
    ensures PairOk(n'.db.version, l, f, m, g)
  {
    StepChanges(n.db, n'.db, step);
    hide Next;
    if LiveAt(n.db.version, l, f) {
      KeptPlace(n, n', step, l, f);
    }
    if LiveAt(n.db.version, m, g) {
      KeptPlace(n, n', step, m, g);
    }
    if LiveAt(n.db.version, l, f) && LiveAt(n.db.version, m, g) {
      assert PairOk(n.db.version, l, f, m, g);
    }
  }

  lemma {:induction false} NumbersKept(n: Numbered, n': Numbered, step: Step)
    requires NumbersOk(n) && NumberedNext(n, n', step)
    ensures NumbersOk(n')
  {
    forall l: nat, f | LiveAt(n'.db.version, l, f) ensures FileOk(n', l, f) {
      FileKept(n, n', step, l, f);
    }
    forall l: nat, m: nat, f, g | LiveAt(n'.db.version, l, f) && LiveAt(n'.db.version, m, g)
      ensures PairOk(n'.db.version, l, f, m, g)
    {
      PairKept(n, n', step, l, f, m, g);
    }
    forall p | p in n'.used ensures p.1 < n'.next {
      UsedBelow(n, n', step, p);
    }
  }

  lemma {:induction false} UsedBelow(n: Numbered, n': Numbered, step: Step, p: (nat, nat))
    requires NumbersOk(n) && NumberedNext(n, n', step) && p in n'.used
    ensures p.1 < n'.next
  {
    var (level, files) := Added(step);
    if p !in n.used {
      var f :| f in files && p == (level, f.number);
      AddedPlace(n, n', step, f);
    }
  }

  lemma {:induction false} NumbersOfRun(states: seq<Numbered>, steps: seq<Step>, i: nat)
    requires NumberedRun(states, steps) && i < |states|
    ensures NumbersOk(states[i])
  {
    if i == 0 {
      assert forall l: nat, f :: !LiveAt(EMPTY_VERSION, l, f);
    } else {
      NumbersOfRun(states, steps, i - 1);
      NumbersKept(states[i - 1], states[i], steps[i - 1]);
    }
  }

  /** In every run, a step never gives a level a file number that the level had before. */
  lemma {:induction false} NumbersNeverReused(states: seq<Numbered>, steps: seq<Step>, i: nat)
    requires NumberedRun(states, steps) && i < |steps|
    ensures Places(Added(steps[i]).0, Added(steps[i]).1) !! states[i].used
    ensures forall j, l: nat, f :: 0 <= j <= i && LiveAt(states[j].db.version, l, f) ==> (l, f.number) in states[i].used
    ensures forall f, g :: f in Added(steps[i]).1 && g in Added(steps[i]).1 && f.number == g.number ==> f == g
  {
    NumbersOfRun(states, steps, i);
    AddsNewPlaces(states[i], states[i + 1], steps[i]);
    forall j, l: nat, f | 0 <= j <= i && LiveAt(states[j].db.version, l, f) ensures (l, f.number) in states[i].used {
      NumbersOfRun(states, steps, j);
      UsedGrows(states, steps, j, i);
    }
  }

  lemma {:induction false} UsedGrows(states: seq<Numbered>, steps: seq<Step>, i: nat, j: nat)
    requires NumberedRun(states, steps) && i <= j < |states|
    ensures states[i].used <= states[j].used
    decreases j
  {
    if i < j {
      UsedGrows(states, steps, i, j - 1);
      assert NumberedNext(states[j - 1], states[j], steps[j - 1]);
    }
  }
}
