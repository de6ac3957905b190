/** The compaction loop and its two drop rules. */
module Compaction {
  import opened Common
  import opened InternalKey
  import opened Versions

  const MAX_SEQUENCE: nat := 0x100_0000_0000_0000 - 1

  // ----- Where a key can still occur below -----

  /** No file two or more levels below `level` covers the key. */
  ghost predicate BaseLevel(v: Version, level: nat, key: UserKey) {
    forall l, f :: level + 2 <= l < NUM_LEVELS && f in v.levels[l] ==> !Covers(f, key)
  }

  // ----- The drop rules, position by position -----

  /** A newer entry of the same user key stands right before and is seen by every reader. */
  predicate Hidden(input: seq<Entry>, i: nat, smallestSnapshot: nat)
    requires i < |input|
  {
    && i > 0 && input[i].kind != Corrupt && input[i - 1].kind != Corrupt
    && input[i - 1].key == input[i].key && input[i - 1].sequence <= smallestSnapshot
  }

  /** A deletion marker that every reader sees and that has nothing left to hide. */
  ghost predicate Obsolete(v: Version, level: nat, e: Entry, smallestSnapshot: nat) {
    e.kind == Deletion && e.sequence <= smallestSnapshot && BaseLevel(v, level, e.key)
  }

  ghost predicate Drops(v: Version, level: nat, input: seq<Entry>, i: nat, smallestSnapshot: nat)
    requires i < |input|
  {
    Hidden(input, i, smallestSnapshot) || Obsolete(v, level, input[i], smallestSnapshot)
  }

  /** What is left of the first `n` entries. */
  ghost function Survivors(v: Version, level: nat, input: seq<Entry>, n: nat, smallestSnapshot: nat): seq<Entry>
    requires n <= |input|
  {
    if n == 0 then []
    else
      Survivors(v, level, input, n - 1, smallestSnapshot)
      + if Drops(v, level, input, n - 1, smallestSnapshot) then [] else [input[n - 1]]
  }

  lemma {:induction false} SurvivorsAre(v: Version, level: nat, input: seq<Entry>, n: nat, ss: nat)
    requires n <= |input|
    ensures forall e :: e in Survivors(v, level, input, n, ss) <==>
      exists i :: 0 <= i < n && input[i] == e && !Drops(v, level, input, i, ss)
  {
    if n > 0 {
      SurvivorsAre(v, level, input, n - 1, ss);
    }
  }

  lemma {:induction false} SurvivorsSorted(v: Version, level: nat, input: seq<Entry>, n: nat, ss: nat)
    requires n <= |input| && Sorted(input)
    ensures Sorted(Survivors(v, level, input, n, ss))
  {
    if n > 0 {
      SurvivorsSorted(v, level, input, n - 1, ss);
      SurvivorsAre(v, level, input, n - 1, ss);
      var r := Survivors(v, level, input, n - 1, ss);
      forall i | 0 <= i < |r| ensures Before(r[i], input[n - 1]) {
        assert r[i] in r;
        var j :| 0 <= j < n - 1 && input[j] == r[i];
        assert Before(input[j], input[n - 1]);
      }
    }
  }

  // ----- Grandparents -----

  /** How many of the first files end before the entry. */
  function Passed(files: seq<File>, e: Entry): (k: nat)
    ensures k <= |files|
  {
    if |files| == 0 || !Before(files[0].largest, e) then 0 else 1 + Passed(files[1..], e)
  }

  lemma {:induction false} PassedIs(files: seq<File>, e: Entry, k: nat)
    requires k <= |files| && (forall i :: 0 <= i < k ==> Before(files[i].largest, e))
    requires k < |files| ==> !Before(files[k].largest, e)
    ensures Passed(files, e) == k
  {
    if k > 0 {
      assert files[0] == files[..k][0];
      assert forall i :: 0 <= i < k - 1 ==> files[1..][i] == files[i + 1];
      PassedIs(files[1..], e, k - 1);
    }
  }

  lemma {:induction false} PassedBefore(files: seq<File>, e: Entry, i: nat)
    requires i < Passed(files, e)
    ensures Before(files[i].largest, e)
  {
    if i > 0 {
      PassedBefore(files[1..], e, i - 1);
    }
  }

  lemma {:induction false} PassedGrows(files: seq<File>, d: Entry, e: Entry)
    requires d == e || Before(d, e)
    ensures Passed(files, d) <= Passed(files, e)
  {
    if |files| > 0 && Before(files[0].largest, d) {
      PassedGrows(files[1..], d, e);
    }
  }

  /** The sizes of the files from the `i`-th to before the `j`-th. */
  function Bytes(files: seq<File>, i: nat, j: nat): nat
    requires i <= j <= |files|
  {
    if i == j then 0 else Bytes(files, i, j - 1) + files[j - 1].size
  }

  lemma {:induction false} BytesWithin(files: seq<File>, i: nat, j: nat, i': nat, j': nat)
    requires i <= i' <= j' <= j <= |files|
    ensures Bytes(files, i', j') <= Bytes(files, i, j)
    decreases j
  {
    if j' < j {
      BytesWithin(files, i, j - 1, i', j');
    } else if i < i' {
      if i' < j {
        BytesWithin(files, i, j - 1, i', j - 1);
      }
    }
  }

  // ----- The loop -----

  class CompactionState {
    const version: Version
    const level: nat
    const maxOutputFileSize: nat
    const maxGrandparentOverlap: nat
    const grandparents: seq<File>
    var levelPtrs: array<nat>
    var grandparentIndex: nat
    var seenKey: bool
    var overlappedBytes: nat

    ghost predicate Wf()
      reads this, levelPtrs
    {
      && levelPtrs.Length == NUM_LEVELS
      && (forall l :: 0 <= l < NUM_LEVELS ==> levelPtrs[l] <= |version.levels[l]|)
      && (forall l :: 1 <= l < NUM_LEVELS ==> Disjoint(version.levels[l]))
    }

    /** Every file that a level pointer has passed ends before `key`. */
    ghost predicate PassedBelow(key: UserKey)
      requires Wf()
      reads this, levelPtrs
    {
      forall l, i :: level + 2 <= l < NUM_LEVELS && 0 <= i < levelPtrs[l] ==> version.levels[l][i].largest.key < key
    }

    constructor (version: Version, level: nat, grandparents: seq<File>, maxOutputFileSize: nat, maxGrandparentOverlap: nat)
      requires forall l :: 1 <= l < NUM_LEVELS ==> Disjoint(version.levels[l])
      ensures Wf() && fresh(levelPtrs) && this.version == version && this.level == level
      ensures (forall key :: PassedBelow(key)) && Begins()
    {
      this.version := version;
      this.level := level;
      this.grandparents := grandparents;
      this.maxOutputFileSize := maxOutputFileSize;
      this.maxGrandparentOverlap := maxGrandparentOverlap;
      levelPtrs := new nat[NUM_LEVELS](_ => 0);
      grandparentIndex := 0;
      seenKey := false;
      overlappedBytes := 0;
    }

    /** The one-way scan agrees with a full scan of every deeper file, as long as the keys
        asked for never go down. */
    method IsBaseLevelForKey(key: UserKey) returns (base: bool)
      requires Wf() && PassedBelow(key)
      modifies levelPtrs
      ensures Wf() && PassedBelow(key)
      ensures base == BaseLevel(version, level, key)
    {
      var l := level + 2;
      while l < NUM_LEVELS
        invariant level + 2 <= l
        invariant Wf() && PassedBelow(key)
        invariant forall m, f :: level + 2 <= m < l && m < NUM_LEVELS && f in version.levels[m] ==> !Covers(f, key)
      {
        var files := version.levels[l];
        while levelPtrs[l] < |files|
          invariant Wf() && PassedBelow(key)
          invariant forall m, f :: level + 2 <= m < l && f in version.levels[m] ==> !Covers(f, key)
          decreases |files| - levelPtrs[l]
        {
          var f := files[levelPtrs[l]];
          if key <= f.largest.key {
            if key >= f.smallest.key {
              assert f in version.levels[l] && Covers(f, key);
              return false;
            }
            break;
          }
          levelPtrs[l] := levelPtrs[l] + 1;
        }
        forall f | f in files ensures !Covers(f, key) {
          var i :| 0 <= i < |files| && files[i] == f;
          if levelPtrs[l] < i {
            EntryBounds(files[levelPtrs[l]], files[levelPtrs[l]].largest);
            assert Before(files[levelPtrs[l]].largest, f.smallest);
          }
        }
        l := l + 1;
      }
      return true;
    }

    /** No key was seen yet. */
    ghost predicate Begins()
      reads this
    {
      grandparentIndex == 0 && !seenKey && overlappedBytes == 0
    }

    /** Since the `mark`-th grandparent file, as many bytes were passed as are counted. */
    ghost predicate Counts(e: Entry, mark: nat)
      reads this
    {
      && grandparentIndex == Passed(grandparents, e) && seenKey && mark <= grandparentIndex
      && overlappedBytes == Bytes(grandparents, mark, grandparentIndex) <= maxGrandparentOverlap
    }

    /** Whether the overlap with grandparent files calls for a new output: more bytes of them were passed since the last
        such call than an output may overlap.  Files before the first key do not count. */
    method ShouldStopBefore(ghost last: Entry, ghost mark0: nat, e: Entry) returns (stop: bool, ghost mark: nat)
      requires if seenKey then Counts(last, mark0) && Before(last, e) else Begins()
      modifies this`grandparentIndex, this`seenKey, this`overlappedBytes
      ensures Counts(e, mark)
      ensures if old(seenKey) then mark0 <= Passed(grandparents, e) else !stop && mark == Passed(grandparents, e)
      ensures old(seenKey) ==>
        && (stop <==> Bytes(grandparents, mark0, Passed(grandparents, e)) > maxGrandparentOverlap)
        && mark == if stop then Passed(grandparents, e) else mark0
    {
      if seenKey {
        PassedGrows(grandparents, last, e);
        forall i | 0 <= i < grandparentIndex ensures Before(grandparents[i].largest, e) {
          PassedBefore(grandparents, last, i);
        }
      }
      while grandparentIndex < |grandparents| && Before(grandparents[grandparentIndex].largest, e)
        invariant grandparentIndex <= |grandparents| && seenKey == old(seenKey) && old(grandparentIndex) <= grandparentIndex
        invariant forall i :: 0 <= i < grandparentIndex ==> Before(grandparents[i].largest, e)
        invariant overlappedBytes == if seenKey then Bytes(grandparents, mark0, grandparentIndex) else 0
        decreases |grandparents| - grandparentIndex
      {
        if seenKey {
          overlappedBytes := overlappedBytes + grandparents[grandparentIndex].size;
        }
        grandparentIndex := grandparentIndex + 1;
      }
      PassedIs(grandparents, e, grandparentIndex);
      mark := if seenKey then mark0 else grandparentIndex;
      seenKey := true;
      if overlappedBytes > maxGrandparentOverlap {
        overlappedBytes := 0;
        return true, grandparentIndex;
      }
      return false, mark;
    }
  }

  /** A finished output: a run of the surviving entries and its first and last key. */
  datatype Output = Output(smallest: Entry, largest: Entry, entries: seq<Entry>)

  predicate IsOutput(o: Output) {
    |o.entries| > 0 && o.smallest == o.entries[0] && o.largest == o.entries[|o.entries| - 1]
  }

  ghost function Concatenation(outputs: seq<Output>): seq<Entry> {
    if |outputs| == 0 then [] else Concatenation(outputs[..|outputs| - 1]) + outputs[|outputs| - 1].entries
  }

  lemma {:induction false} ConcatenationSnoc(outputs: seq<Output>, o: Output)
    ensures Concatenation(outputs + [o]) == Concatenation(outputs) + o.entries
  {
    assert (outputs + [o])[..|outputs|] == outputs;
  }

  /** What the loop remembers of the entry it handled last. */
  datatype LastSeen = LastSeen(hasCurrentUserKey: bool, currentUserKey: UserKey, lastSequenceForKey: nat)

  ghost predicate Remembers(input: seq<Entry>, n: nat, last: LastSeen)
    requires n <= |input|
  {
    && last.hasCurrentUserKey == (n > 0 && input[n - 1].kind != Corrupt)
    && (last.hasCurrentUserKey ==>
          last.currentUserKey == input[n - 1].key && last.lastSequenceForKey == input[n - 1].sequence)
  }

  /** The decision of one iteration. */
  method DecideDrop(c: CompactionState, input: seq<Entry>, n: nat, last0: LastSeen, smallestSnapshot: nat)
    returns (drop: bool, last: LastSeen)
    requires c.Wf() && n < |input| && smallestSnapshot < MAX_SEQUENCE
    requires Remembers(input, n, last0) && c.PassedBelow(input[n].key)
    modifies c.levelPtrs
    ensures c.Wf() && c.PassedBelow(input[n].key) && Remembers(input, n + 1, last)
    ensures drop == Drops(c.version, c.level, input, n, smallestSnapshot)
  {
    var e := input[n];
    drop := false;
    last := last0;
    if e.kind == Corrupt {
      last := last.(hasCurrentUserKey := false, lastSequenceForKey := MAX_SEQUENCE);
    } else {
      if !last.hasCurrentUserKey || e.key != last.currentUserKey {
        last := LastSeen(true, e.key, MAX_SEQUENCE);
      }
      if last.lastSequenceForKey <= smallestSnapshot {
        drop := true;
      } else if e.kind == Deletion && e.sequence <= smallestSnapshot {
        drop := c.IsBaseLevelForKey(e.key);
      }
      last := last.(lastSequenceForKey := e.sequence);
    }
  }

  /** Everything handed to the output files so far. */
  ghost function Emitted(outputs: seq<Output>, builder: Option<Output>): seq<Entry> {
    Concatenation(outputs) + if builder.Some? then builder.value.entries else []
  }

  ghost predicate OutputsWf(outputs: seq<Output>, builder: Option<Output>) {
    && (forall o :: o in outputs ==> IsOutput(o))
    && (builder.Some? ==> IsOutput(builder.value))
  }

  /** The limits on outputs. */
  datatype Limits = Limits(grandparents: seq<File>, maxOverlap: nat, maxSize: nat, fileSize: seq<Entry> -> nat) {
    /** The bytes of the grandparent files that end from `a` on and before `b`. */
    ghost function Overlap(a: Entry, b: Entry): nat {
      var i, j := Passed(grandparents, a), Passed(grandparents, b);
      if i <= j then Bytes(grandparents, i, j) else 0
    }

    /** Without its last entry it was below the size limit, and it does not overlap too much. */
    ghost predicate Within(o: Output) {
      && IsOutput(o) && Overlap(o.smallest, o.largest) <= maxOverlap
      && (|o.entries| > 1 ==> fileSize(o.entries[..|o.entries| - 1]) < maxSize)
    }

    /** An output that ends before `next` was cut for its size, or for too much overlap since the `first` entry. */
    ghost predicate Cut(o: Output, first: Entry, next: Entry) {
      fileSize(o.entries) >= maxSize || Overlap(first, next) > maxOverlap
    }

    lemma {:induction false} CutLater(o: Output, first: Entry, next: Entry, later: Entry)
      requires Cut(o, first, next) && (next == later || Before(next, later))
      ensures Cut(o, first, later)
    {
      PassedGrows(grandparents, next, later);
      if Passed(grandparents, first) <= Passed(grandparents, next) {
        BytesWithin(grandparents, Passed(grandparents, first), Passed(grandparents, later),
                    Passed(grandparents, first), Passed(grandparents, next));
      }
    }
  }

  /** The loop's outputs after the entry `last`, with the grandparent bytes counted from `mark` on. */
  ghost predicate InLimits(m: Limits, outputs: seq<Output>, builder: Option<Output>, first: Entry, last: Entry, mark: nat) {
    && (forall o :: o in outputs ==> m.Within(o))
    && (forall i {:trigger outputs[i + 1]} :: 0 <= i < |outputs| - 1 ==> m.Cut(outputs[i], first, outputs[i + 1].smallest))
    && (|outputs| > 0 ==> m.Cut(outputs[|outputs| - 1], first, if builder.Some? then builder.value.smallest else last))
    && (builder.Some? ==>
          && m.Within(builder.value) && m.fileSize(builder.value.entries) < m.maxSize
          && mark <= Passed(m.grandparents, builder.value.smallest)
          && (builder.value.largest == last || Before(builder.value.largest, last)))
    && Passed(m.grandparents, first) <= mark <= Passed(m.grandparents, last)
    && Bytes(m.grandparents, mark, Passed(m.grandparents, last)) <= m.maxOverlap
  }

  method FinishOutput(outputs0: seq<Output>, builder0: Option<Output>)
    returns (outputs: seq<Output>, builder: Option<Output>)
    requires OutputsWf(outputs0, builder0) && builder0.Some?
    ensures OutputsWf(outputs, builder) && builder.None? && outputs == outputs0 + [builder0.value]
    ensures Emitted(outputs, builder) == Emitted(outputs0, builder0)
  {
    ConcatenationSnoc(outputs0, builder0.value);
    outputs, builder := outputs0 + [builder0.value], None;
  }

  /** Add an entry to the open output, opening one if there is none. */
  method Append(ghost outputs: seq<Output>, builder0: Option<Output>, e: Entry) returns (builder: Option<Output>)
    requires OutputsWf(outputs, builder0)
    ensures OutputsWf(outputs, builder) && builder.Some?
    ensures Emitted(outputs, builder) == Emitted(outputs, builder0) + [e]
    ensures builder.value == if builder0.None? then Output(e, e, [e])
                             else Output(builder0.value.smallest, e, builder0.value.entries + [e])
  {
    builder := match builder0
      case None => Some(Output(e, e, [e]))
      case Some(o) => Some(Output(o.smallest, e, o.entries + [e]));
  }

  /** The loop goes on to the next entry: nothing is cut, or the open output is for too much overlap. */
  lemma {:induction false} NextEntry(m: Limits, outputs: seq<Output>, builder: Option<Output>, first: Entry, last: Entry, mark: nat,
                                     e: Entry, stop: bool)
    requires InLimits(m, outputs, builder, first, last, mark) && Before(last, e) && (first == last || Before(first, last))
    requires mark <= Passed(m.grandparents, e)
    requires stop <==> Bytes(m.grandparents, mark, Passed(m.grandparents, e)) > m.maxOverlap
    ensures !stop ==> InLimits(m, outputs, builder, first, e, mark) && (builder.Some? ==> Before(builder.value.largest, e))
    ensures stop && builder.None? ==> InLimits(m, outputs, None, first, e, Passed(m.grandparents, e))
    ensures stop && builder.Some? ==> InLimits(m, outputs + [builder.value], None, first, e, Passed(m.grandparents, e))
  {
    var gs := m.grandparents;
    PassedGrows(gs, last, e);
    PassedGrows(gs, first, e);
    if builder.None? && |outputs| > 0 {
      m.CutLater(outputs[|outputs| - 1], first, last, e);
    }
    if stop {
      BytesWithin(gs, Passed(gs, first), Passed(gs, e), mark, Passed(gs, e));
      if builder.Some? {
        var more := outputs + [builder.value];
        assert m.Cut(builder.value, first, e);
        forall i | 0 <= i < |more| - 1 ensures m.Cut(more[i], first, more[i + 1].smallest) {
          assert i < |outputs| - 1 ==> more[i + 1] == outputs[i + 1];
        }
      }
    }
  }

  /** An entry goes to the open output or to a new one. */
  lemma {:induction false} EntryAdded(m: Limits, outputs: seq<Output>, builder: Option<Output>, first: Entry, e: Entry, mark: nat, more: Output)
    requires InLimits(m, outputs, builder, first, e, mark) && (builder.Some? ==> Before(builder.value.largest, e))
    requires more == if builder.None? then Output(e, e, [e]) else Output(builder.value.smallest, e, builder.value.entries + [e])
    ensures m.fileSize(more.entries) < m.maxSize ==> InLimits(m, outputs, Some(more), first, e, mark)
    ensures m.fileSize(more.entries) >= m.maxSize ==> InLimits(m, outputs + [more], None, first, e, mark)
  {
    var gs := m.grandparents;
    if builder.Some? {
      var o := builder.value;
      assert more.entries[..|more.entries| - 1] == o.entries;
      if Passed(gs, o.smallest) <= Passed(gs, e) {
        BytesWithin(gs, mark, Passed(gs, e), Passed(gs, o.smallest), Passed(gs, e));
      }
    }
    assert m.Within(more);
    var all := outputs + [more];
    forall i | 0 <= i < |all| - 1 ensures m.fileSize(more.entries) >= m.maxSize ==> m.Cut(all[i], first, all[i + 1].smallest) {
      assert i < |outputs| - 1 ==> all[i + 1] == outputs[i + 1];
    }
  }

  lemma {:induction false} FirstEntry(m: Limits, e: Entry)
    ensures InLimits(m, [], None, e, e, Passed(m.grandparents, e))
  {
  }

  lemma {:induction false} AllOutputs(m: Limits, outputs: seq<Output>, first: Entry, last: Entry, mark: nat)
    requires InLimits(m, outputs, None, first, last, mark)
    ensures forall o :: o in outputs ==> m.Within(o)
    ensures forall i {:trigger outputs[i + 1]} :: 0 <= i < |outputs| - 1 ==> m.Cut(outputs[i], first, outputs[i + 1].smallest)
  {
  }

  lemma {:induction false} LastOutput(m: Limits, outputs: seq<Output>, builder: Output, first: Entry, last: Entry, mark: nat)
    requires InLimits(m, outputs, Some(builder), first, last, mark)
    ensures var all := outputs + [builder];
            && (forall o :: o in all ==> m.Within(o))
            && (forall i {:trigger all[i + 1]} :: 0 <= i < |all| - 1 ==> m.Cut(all[i], first, all[i + 1].smallest))
  {
    var all := outputs + [builder];
    forall i | 0 <= i < |all| - 1 ensures m.Cut(all[i], first, all[i + 1].smallest) {
      assert i < |outputs| - 1 ==> all[i + 1] == outputs[i + 1];
    }
  }

  /** What the outputs hold after `n` entries, and where they are cut. */
  ghost predicate Progress(v: Version, level: nat, input: seq<Entry>, n: nat, smallestSnapshot: nat,
                           outputs: seq<Output>, builder: Option<Output>, last: LastSeen)
    requires n <= |input|
  {
    && OutputsWf(outputs, builder) && Remembers(input, n, last)
    && Emitted(outputs, builder) == Survivors(v, level, input, n, smallestSnapshot)
    && (n == 0 ==> outputs == [] && builder.None?)
  }

  /** A new output is begun before the entry if the grandparents call for it. */
  method CutBefore(c: CompactionState, input: seq<Entry>, n: nat, ghost m: Limits, outputs0: seq<Output>, builder0: Option<Output>,
                   ghost mark0: nat)
    returns (outputs: seq<Output>, builder: Option<Output>, ghost mark: nat)
    requires n < |input| && Sorted(input) && m.grandparents == c.grandparents && m.maxOverlap == c.maxGrandparentOverlap
    requires OutputsWf(outputs0, builder0)
    requires if n == 0 then c.Begins() && outputs0 == [] && builder0.None?
             else c.Counts(input[n - 1], mark0) && InLimits(m, outputs0, builder0, input[0], input[n - 1], mark0)
    modifies c`grandparentIndex, c`seenKey, c`overlappedBytes
    ensures OutputsWf(outputs, builder) && Emitted(outputs, builder) == Emitted(outputs0, builder0)
    ensures c.Counts(input[n], mark) && InLimits(m, outputs, builder, input[0], input[n], mark)
    ensures builder.Some? ==> Before(builder.value.largest, input[n])
  {
    hide IsOutput, InLimits, Emitted;
    outputs, builder := outputs0, builder0;
    var e := input[n];
    ghost var before := if n == 0 then e else input[n - 1];
    assert n > 0 ==> Before(input[n - 1], input[n]) && (n > 1 ==> Before(input[0], input[n - 1]));
    var stop;
    stop, mark := c.ShouldStopBefore(before, mark0, e);
    if n > 0 {
      NextEntry(m, outputs, builder, input[0], before, mark0, e, stop);
    } else {
      FirstEntry(m, e);
    }
    if stop && builder.Some? {
      outputs, builder := FinishOutput(outputs, builder);
    }
  }

  /** A surviving entry goes to the outputs. */
  method AddEntry(c: CompactionState, e: Entry, ghost m: Limits, fileSize: seq<Entry> -> nat, ghost first: Entry,
                  outputs0: seq<Output>, builder0: Option<Output>, ghost mark: nat)
    returns (outputs: seq<Output>, builder: Option<Output>)
    requires OutputsWf(outputs0, builder0) && m.fileSize == fileSize && m.maxSize == c.maxOutputFileSize
    requires InLimits(m, outputs0, builder0, first, e, mark) && (builder0.Some? ==> Before(builder0.value.largest, e))
    ensures OutputsWf(outputs, builder) && Emitted(outputs, builder) == Emitted(outputs0, builder0) + [e]
    ensures InLimits(m, outputs, builder, first, e, mark)
  {
    hide IsOutput, InLimits;
    outputs := outputs0;
    builder := Append(outputs, builder0, e);
    EntryAdded(m, outputs, builder0, first, e, mark, builder.value);
    if fileSize(builder.value.entries) >= c.maxOutputFileSize {
      outputs, builder := FinishOutput(outputs, builder);
    }
  }

  /** The loop of DoCompactionWork over the merged input.  Together the outputs are exactly what the drop rules leave, in
      order; each of them is cut when it reaches its size or has passed too much of the grandparents, and not before. */
  method DoCompactionWork(c: CompactionState, input: seq<Entry>, smallestSnapshot: nat, fileSize: seq<Entry> -> nat)
    returns (outputs: seq<Output>)
    requires c.Wf() && Sorted(input) && smallestSnapshot < MAX_SEQUENCE
    requires (forall key :: c.PassedBelow(key)) && c.Begins()
    modifies c, c.levelPtrs
    ensures forall o :: o in outputs ==> IsOutput(o)
    ensures Concatenation(outputs) == Survivors(c.version, c.level, input, |input|, smallestSnapshot)
    ensures var m := Limits(c.grandparents, c.maxGrandparentOverlap, c.maxOutputFileSize, fileSize);
            && (forall o :: o in outputs ==> m.Within(o))
            && (input != [] ==>
                  forall i {:trigger outputs[i + 1]} :: 0 <= i < |outputs| - 1 ==> m.Cut(outputs[i], input[0], outputs[i + 1].smallest))
  {
    hide IsOutput, InLimits, Limits.Within, Limits.Cut;
    outputs := [];
    var builder: Option<Output> := None;
    var last := LastSeen(false, 0, MAX_SEQUENCE);
    ghost var m := Limits(c.grandparents, c.maxGrandparentOverlap, c.maxOutputFileSize, fileSize);
    ghost var mark: nat := 0;
    for n := 0 to |input|
      invariant c.Wf() && unchanged(c`levelPtrs)
      invariant n < |input| ==> c.PassedBelow(input[n].key)
      invariant Progress(c.version, c.level, input, n, smallestSnapshot, outputs, builder, last)
      invariant if n == 0 then c.Begins()
                else c.Counts(input[n - 1], mark) && InLimits(m, outputs, builder, input[0], input[n - 1], mark)
    {
      outputs, builder, mark := CutBefore(c, input, n, m, outputs, builder, mark);
      var drop;
      drop, last := DecideDrop(c, input, n, last, smallestSnapshot);
      if !drop {
        outputs, builder := AddEntry(c, input[n], m, fileSize, input[0], outputs, builder, mark);
      }
      assert n + 1 < |input| ==> Before(input[n], input[n + 1]);
    }
    if builder.Some? {
      LastOutput(m, outputs, builder.value, input[0], input[|input| - 1], mark);
      outputs, builder := FinishOutput(outputs, builder);
    } else if input != [] {
      AllOutputs(m, outputs, input[0], input[|input| - 1], mark);
    }
  }
}
