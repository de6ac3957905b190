/** What replacing the inputs of a compaction by its survivors does to every read. */
module CompactionMeaning {
  import opened InternalKey
  import opened Versions
  import opened Compaction

  /** One compaction, seen as sets of entries: the merged inputs and everything that stays. */
  datatype Job = Job(version: Version, level: nat, input: seq<Entry>, rest: set<Entry>, smallestSnapshot: nat) {
    ghost predicate Wf() {
      && Sorted(input) && Parsed(input)
      && Elements(input) !! rest && Unique(Elements(input) + rest)
    }

    ghost function Kept(): set<Entry> {
      Elements(Survivors(version, level, input, |input|, smallestSnapshot))
    }

    ghost function Before(): set<Entry> { rest + Elements(input) }

    ghost function After(): set<Entry> { rest + Kept() }

    /** The newest entry that every reader sees is an obsolete tombstone of the inputs, while a
        value of the same key stays behind. */
    ghost predicate Resurrects(key: UserKey) {
      exists t :: && IsNewest(Before(), key, smallestSnapshot, t) && t in input
                  && Obsolete(version, level, t, smallestSnapshot)
                  && Read(rest, key, smallestSnapshot).Found?
    }

    ghost predicate PreservesReads() {
      forall key, s :: s >= smallestSnapshot ==> Read(After(), key, s) == Read(Before(), key, s)
    }
  }

  lemma {:induction false} KeptWithin(j: Job)
    ensures j.Kept() <= Elements(j.input)
  {
    SurvivorsAre(j.version, j.level, j.input, |j.input|, j.smallestSnapshot);
  }

  /** What hides an entry is newer, and seen by every reader. */
  lemma {:induction false} HiddenBy(input: seq<Entry>, i: nat, ss: nat)
    requires Sorted(input) && i < |input|
    ensures Hidden(input, i, ss) ==>
      exists x :: x in Elements(input) && x.key == input[i].key && Visible(x, ss) && x.sequence > input[i].sequence
  {
    if Hidden(input, i, ss) {
      assert InternalKey.Before(input[i - 1], input[i]);
      assert input[i - 1] in Elements(input);
    }
  }

  /** The newest visible entry of a key survives unless it is an obsolete tombstone. */
  lemma {:induction false} NewestSurvives(j: Job, key: UserKey, s: nat, e: Entry)
    requires j.Wf() && s >= j.smallestSnapshot && IsNewest(Elements(j.input), key, s, e)
    ensures e in j.Kept() <==> !Obsolete(j.version, j.level, e, j.smallestSnapshot)
  {
    SurvivorsAre(j.version, j.level, j.input, |j.input|, j.smallestSnapshot);
    var i :| 0 <= i < |j.input| && j.input[i] == e;
    HiddenBy(j.input, i, j.smallestSnapshot);
    if e in j.Kept() {
      var i' :| 0 <= i' < |j.input| && j.input[i'] == e && !Drops(j.version, j.level, j.input, i', j.smallestSnapshot);
    }
  }

  /** Someone hides the entry at `i` exactly if a newer entry of its key is at or below the smallest snapshot. */
  lemma {:induction false} HiddenExactly(input: seq<Entry>, i: nat, ss: nat)
    requires Sorted(input) && Parsed(input) && i < |input|
    ensures Hidden(input, i, ss) <==> exists p :: 0 <= p < |input| && input[p].key == input[i].key && input[i].sequence < input[p].sequence <= ss
  {
    if p :| 0 <= p < |input| && input[p].key == input[i].key && input[i].sequence < input[p].sequence <= ss {
      Around(input, i);
      assert p < i;
      assert InternalKey.Before(input[i - 1], input[i]);
      assert p < i - 1 ==> InternalKey.Before(input[p], input[i - 1]);
      assert input[i - 1] in input && input[i] in input;
    }
    if Hidden(input, i, ss) {
      assert InternalKey.Before(input[i - 1], input[i]);
    }
  }

  lemma {:induction false} NotBelow(v: Version, level: nat, key: UserKey)
    ensures BaseLevel(v, level, key) <==>
      forall l, f :: level + 2 <= l < 7 && f in v.levels[l] ==> key < f.smallest.key || f.largest.key < key
  {
    if BaseLevel(v, level, key) {
      forall l, f | level + 2 <= l < 7 && f in v.levels[l] ensures key < f.smallest.key || f.largest.key < key {
        assert !Covers(f, key);
      }
    }
  }

  /** What a compaction drops: an entry older than another one of its key that every reader sees, and a tombstone that every
      reader sees whose key no file two or more levels below can have. */
  lemma {:induction false} KeptExactly(j: Job, e: Entry)
    requires j.Wf() && e in j.input
    ensures e !in j.Kept() <==>
      || (exists p :: 0 <= p < |j.input| && j.input[p].key == e.key && e.sequence < j.input[p].sequence <= j.smallestSnapshot)
      || (e.kind == Deletion && e.sequence <= j.smallestSnapshot &&
          forall l, f :: j.level + 2 <= l < 7 && f in j.version.levels[l] ==> e.key < f.smallest.key || f.largest.key < e.key)
  {
    SurvivorsAre(j.version, j.level, j.input, |j.input|, j.smallestSnapshot);
    var i :| 0 <= i < |j.input| && j.input[i] == e;
    HiddenExactly(j.input, i, j.smallestSnapshot);
    Around(j.input, i);
    assert forall k :: 0 <= k < |j.input| && j.input[k] == e ==> k == i;
    assert e in j.Kept() <==> !Drops(j.version, j.level, j.input, i, j.smallestSnapshot);
    NotBelow(j.version, j.level, e.key);
  }

  /** Once an obsolete tombstone is the newest visible entry, nothing visible survives. */
  lemma {:induction false} NothingSurvives(j: Job, key: UserKey, s: nat, e: Entry)
    requires j.Wf() && s >= j.smallestSnapshot && IsNewest(Elements(j.input), key, s, e)
    requires Obsolete(j.version, j.level, e, j.smallestSnapshot)
    ensures forall x :: x in j.Kept() && x.key == key ==> !Visible(x, s)
  {
    SurvivorsAre(j.version, j.level, j.input, |j.input|, j.smallestSnapshot);
    forall x | x in j.Kept() && x.key == key ensures !Visible(x, s) {
      var i :| 0 <= i < |j.input| && j.input[i] == x && !Drops(j.version, j.level, j.input, i, j.smallestSnapshot);
      if Visible(x, s) {
        assert x in Elements(j.input);
        var p :| 0 <= p < |j.input| && j.input[p] == e;
        OlderIsHidden(j, p, i);
      }
    }
  }

  lemma {:induction false} OlderIsHidden(j: Job, p: nat, i: nat)
    requires j.Wf() && p < |j.input| && i < |j.input|
    requires j.input[p].key == j.input[i].key && j.input[i].sequence <= j.input[p].sequence <= j.smallestSnapshot
    ensures p == i || Hidden(j.input, i, j.smallestSnapshot)
  {
    if p != i {
      Around(j.input, p);
      assert p < i;
      assert p == i - 1 || InternalKey.Before(j.input[p], j.input[i - 1]);
      assert InternalKey.Before(j.input[i - 1], j.input[i]);
      assert j.input[i] in j.input && j.input[i - 1] in j.input;
    }
  }

  /** A read that the input answered. */
  lemma {:induction false} ReadOfInput(j: Job, key: UserKey, s: nat, e: Entry)
    requires j.Wf() && s >= j.smallestSnapshot && IsNewest(j.Before(), key, s, e) && e in j.input
    requires Obsolete(j.version, j.level, e, j.smallestSnapshot) ==> Read(j.rest, key, s) == NotFound
    ensures Read(j.After(), key, s) == Outcome(e)
  {
    KeptWithin(j);
    assert IsNewest(Elements(j.input), key, s, e);
    NewestSurvives(j, key, s, e);
    if e in j.Kept() {
      ReadNewest(j.After(), key, s, e);
    } else {
      NothingSurvives(j, key, s, e);
      ReadOfRest(j, key, s);
    }
  }

  /** Reads differ at most where an obsolete tombstone was the answer. */
  lemma {:induction false} ReadUnlessObsolete(j: Job, key: UserKey, s: nat)
    requires j.Wf() && s >= j.smallestSnapshot
    requires (exists t :: IsNewest(j.Before(), key, s, t) && t in j.input && Obsolete(j.version, j.level, t, j.smallestSnapshot))
      ==> Read(j.rest, key, s) == NotFound
    ensures Read(j.After(), key, s) == Read(j.Before(), key, s)
  {
    KeptWithin(j);
    if w :| w in j.Before() && w.key == key && Visible(w, s) {
      NewestExists(j.Before(), key, s, w);
      var e :| IsNewest(j.Before(), key, s, e);
      ReadNewest(j.Before(), key, s, e);
      if e in j.rest {
        ReadNewest(j.After(), key, s, e);
      } else {
        ReadOfInput(j, key, s, e);
      }
    } else {
      ReadNothing(j.Before(), key, s);
      ReadNothing(j.After(), key, s);
    }
  }

  lemma {:induction false} ReadOfRest(j: Job, key: UserKey, s: nat)
    requires j.Wf()
    requires forall x :: x in j.Kept() && x.key == key ==> !Visible(x, s)
    ensures Read(j.After(), key, s) == Read(j.rest, key, s)
  {
    KeptWithin(j);
    if w :| w in j.rest && w.key == key && Visible(w, s) {
      NewestExists(j.rest, key, s, w);
      var e :| IsNewest(j.rest, key, s, e);
      ReadNewest(j.rest, key, s, e);
      ReadNewest(j.After(), key, s, e);
    } else {
      ReadNothing(j.After(), key, s);
      ReadNothing(j.rest, key, s);
    }
  }

  /** A newest entry that every reader sees is the newest for the oldest reader too. */
  lemma {:induction false} SameForOldestReader(es: set<Entry>, key: UserKey, s: nat, ss: nat, t: Entry)
    requires ss <= s && IsNewest(es, key, s, t) && t.sequence <= ss
    ensures IsNewest(es, key, ss, t)
    ensures forall x :: x in es && x.key == key && Visible(x, s) ==> Visible(x, ss)
  {
  }

  lemma {:induction false} SameReadOfRest(rest: set<Entry>, key: UserKey, s: nat, ss: nat)
    requires ss <= s && Unique(rest)
    requires forall x :: x in rest && x.key == key && Visible(x, s) ==> Visible(x, ss)
    ensures Read(rest, key, s) == Read(rest, key, ss)
  {
    if w :| w in rest && w.key == key && Visible(w, s) {
      NewestExists(rest, key, s, w);
      var e :| IsNewest(rest, key, s, e);
      ReadNewest(rest, key, s, e);
      ReadNewest(rest, key, ss, e);
    } else {
      ReadNothing(rest, key, s);
      ReadNothing(rest, key, ss);
    }
  }

  /** A compaction preserves every read at or past the smallest snapshot exactly when it
      resurrects no key. */
  lemma {:induction false} PreservesReadsExactly(j: Job)
    requires j.Wf()
    ensures j.PreservesReads() <==> forall key :: !j.Resurrects(key)
  {
    var ss := j.smallestSnapshot;
    if key :| j.Resurrects(key) {
      var t :| && IsNewest(j.Before(), key, ss, t) && t in j.input
               && Obsolete(j.version, j.level, t, ss) && Read(j.rest, key, ss).Found?;
      ReadNewest(j.Before(), key, ss, t);
      assert IsNewest(Elements(j.input), key, ss, t);
      NothingSurvives(j, key, ss, t);
      ReadOfRest(j, key, ss);
      assert Read(j.After(), key, ss) != Read(j.Before(), key, ss);
    } else {
      forall key, s | s >= ss ensures Read(j.After(), key, s) == Read(j.Before(), key, s) {
        forall t | IsNewest(j.Before(), key, s, t) && t in j.input && Obsolete(j.version, j.level, t, ss)
          ensures Read(j.rest, key, s) == NotFound
        {
          SameForOldestReader(j.Before(), key, s, ss, t);
          SameReadOfRest(j.rest, key, s, ss);
          assert !j.Resurrects(key);
        }
        ReadUnlessObsolete(j, key, s);
      }
    }
  }

  /** A resurrected key left an older entry behind, above any deeper level. */
  lemma {:induction false} ResurrectedLeftBehind(j: Job, key: UserKey) returns (t: Entry, x: Entry)
    requires j.Wf() && j.Resurrects(key)
    ensures t in j.input && x in j.rest && x.key == t.key && x.sequence < t.sequence
    ensures BaseLevel(j.version, j.level, t.key)
  {
    var ss := j.smallestSnapshot;
    t :| && IsNewest(j.Before(), key, ss, t) && t in j.input
         && Obsolete(j.version, j.level, t, ss) && Read(j.rest, key, ss).Found?;
    x :| IsNewest(j.rest, key, ss, x);
    assert x in j.Before() && t in Elements(j.input);
  }

  /** It is enough that nothing older than an input entry stays behind under its key, except
      below the next level. */
  lemma {:induction false} ClosedPreservesReads(j: Job)
    requires j.Wf()
    requires forall t, x :: t in j.input && x in j.rest && x.key == t.key && x.sequence < t.sequence ==>
      !BaseLevel(j.version, j.level, t.key)
    ensures j.PreservesReads()
  {
    forall key ensures !j.Resurrects(key) {
      if j.Resurrects(key) {
        var t, x := ResurrectedLeftBehind(j, key);
      }
    }
    PreservesReadsExactly(j);
  }
}
