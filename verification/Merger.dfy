/** The iterator that merges sorted sources, in both directions. */
module Merger {
  import opened Common
  import opened InternalKey
  import opened DbIter

  /** Each list is sorted, and entries of different lists are never equal in the order. */
  ghost predicate Mergeable(lists: seq<seq<Entry>>) {
    && (forall l <- lists :: Sorted(l))
    && (forall i, j, k, m {:trigger lists[i][k], lists[j][m]} ::
          0 <= i < |lists| && 0 <= j < |lists| && i != j && 0 <= k < |lists[i]| && 0 <= m < |lists[j]| ==>
            Before(lists[i][k], lists[j][m]) || Before(lists[j][m], lists[i][k]))
  }

  /** The sorted union of lists: `at[i][k]` is the position of entry `k` of list `i`, and `owner`
      is the inverse of `at`. */
  datatype Union = Union(entries: seq<Entry>, at: seq<seq<nat>>, owner: seq<(nat, nat)>) {

    ghost predicate Of(lists: seq<seq<Entry>>) {
      && Sorted(entries) && |owner| == |entries| && |at| == |lists|
      && (forall i :: 0 <= i < |lists| ==> |at[i]| == |lists[i]|)
      && (forall i, k :: 0 <= i < |lists| && 0 <= k < |lists[i]| ==> Places(lists, i, k))
      && (forall q :: 0 <= q < |entries| ==> Owns(lists, q))
    }

    ghost predicate Places(lists: seq<seq<Entry>>, i: nat, k: nat)
      requires |owner| == |entries| && i < |at| == |lists| && k < |at[i]| == |lists[i]|
    {
      at[i][k] < |entries| && entries[at[i][k]] == lists[i][k] && owner[at[i][k]] == (i, k)
    }

    ghost predicate Owns(lists: seq<seq<Entry>>, q: nat)
      requires |owner| == |entries| && q < |entries| && |at| == |lists|
    {
      var (i, k) := owner[q];
      i < |lists| && k < |at[i]| && at[i][k] == q
    }

    /** The order of positions is the order of entries. */
    lemma {:induction false} Order(lists: seq<seq<Entry>>, i: nat, k: nat, j: nat, m: nat)
      requires Of(lists) && i < |lists| && k < |lists[i]| && j < |lists| && m < |lists[j]|
      ensures at[i][k] < |entries| && at[j][m] < |entries|
      ensures Before(lists[i][k], lists[j][m]) <==> at[i][k] < at[j][m]
      ensures at[i][k] == at[j][m] ==> i == j && k == m
    {
      assert Places(lists, i, k) && Places(lists, j, m);
      var a, b := at[i][k], at[j][m];
      if a < b {
        assert Before(entries[a], entries[b]);
      } else if b < a {
        assert Before(entries[b], entries[a]);
      }
    }
  }

  function Total(lists: seq<seq<Entry>>): nat {
    if |lists| == 0 then 0 else |lists[0]| + Total(lists[1..])
  }

  lemma {:induction false} TotalUpdate(lists: seq<seq<Entry>>, i: nat, l: seq<Entry>)
    requires i < |lists|
    ensures Total(lists[i := l]) + |lists[i]| == Total(lists) + |l|
  {
    if i == 0 {
      assert lists[0 := l][1..] == lists[1..];
    } else {
      assert lists[i := l][1..] == lists[1..][i - 1 := l];
      TotalUpdate(lists[1..], i - 1, l);
    }
  }

  /** A list that ends in the greatest entry of all, unless all lists are empty. */
  lemma {:induction false} GreatestLast(lists: seq<seq<Entry>>, n: nat) returns (g: int)
    requires Mergeable(lists) && n <= |lists|
    ensures -1 <= g < n
    ensures g == -1 ==> forall i :: 0 <= i < n ==> lists[i] == []
    ensures g >= 0 ==> lists[g] != []
    ensures g >= 0 ==> forall i :: 0 <= i < n && i != g && lists[i] != [] ==>
                       Before(lists[i][|lists[i]| - 1], lists[g][|lists[g]| - 1])
  {
    if n == 0 {
      g := -1;
    } else {
      g := GreatestLast(lists, n - 1);
      var l := lists[n - 1];
      if l != [] && (g == -1 || Before(lists[g][|lists[g]| - 1], l[|l| - 1])) {
        g := n - 1;
      }
    }
  }

  lemma {:induction false} FewerMergeable(lists: seq<seq<Entry>>, g: nat)
    requires Mergeable(lists) && g < |lists| && lists[g] != []
    ensures Mergeable(lists[g := lists[g][..|lists[g]| - 1]])
  {
    var l := lists[g];
    var shorter := l[..|l| - 1];
    assert Sorted(l) && Sorted(shorter) by {
      assert forall i, j :: 0 <= i < j < |shorter| ==> Before(l[i], l[j]) && shorter[i] == l[i] && shorter[j] == l[j];
    }
  }

  /** A greatest entry goes to the end of the union. */
  lemma {:induction false} Extend(lists: seq<seq<Entry>>, g: nat, v: Union) returns (u: Union)
    requires Mergeable(lists) && g < |lists| && lists[g] != []
    requires forall i :: 0 <= i < |lists| && i != g && lists[i] != [] ==>
               Before(lists[i][|lists[i]| - 1], lists[g][|lists[g]| - 1])
    requires v.Of(lists[g := lists[g][..|lists[g]| - 1]])
    ensures u.Of(lists)
  {
    var last := |lists[g]| - 1;
    var e := lists[g][last];
    var fewer := lists[g := lists[g][..last]];
    u := Union(v.entries + [e], v.at[g := v.at[g] + [|v.entries|]], v.owner + [(g, last)]);
    assert Sorted(u.entries) by {
      forall q | 0 <= q < |v.entries|
        ensures Before(v.entries[q], e)
      {
        assert v.Owns(fewer, q);
        var (i, k) := v.owner[q];
        assert v.Places(fewer, i, k);
        assert Sorted(lists[i]) && v.entries[q] == fewer[i][k] == lists[i][k];
        if k < |lists[i]| - 1 {
          assert Before(lists[i][k], lists[i][|lists[i]| - 1]);
        }
      }
      forall a, b {:trigger Before(u.entries[a], u.entries[b])} | 0 <= a < b < |u.entries|
        ensures Before(u.entries[a], u.entries[b])
      {
        if b < |v.entries| {
          assert Before(v.entries[a], v.entries[b]);
        }
      }
    }
    forall i, k | 0 <= i < |lists| && 0 <= k < |lists[i]|
      ensures u.Places(lists, i, k)
    {
      if !(i == g && k == last) {
        assert v.Places(fewer, i, k);
      }
    }
    forall q | 0 <= q < |u.entries|
      ensures u.Owns(lists, q)
    {
      assert |v.at[g]| == |fewer[g]| == last;
      if q < |v.entries| {
        assert v.Owns(fewer, q);
        var (i, k) := v.owner[q];
        assert u.at[i][k] == v.at[i][k];
      }
    }
  }

  lemma {:induction false} UnionExists(lists: seq<seq<Entry>>) returns (u: Union)
    requires Mergeable(lists)
    ensures u.Of(lists)
    decreases Total(lists)
  {
    var g := GreatestLast(lists, |lists|);
    if g == -1 {
      u := Union([], seq(|lists|, _ => []), []);
    } else {
      var shorter := lists[g][..|lists[g]| - 1];
      TotalUpdate(lists, g, shorter);
      FewerMergeable(lists, g);
      var v := UnionExists(lists[g := shorter]);
      u := Extend(lists, g, v);
    }
  }

  /** Merges children that stand on sorted lists of entries. */
  class MergingIterator {
    const children: seq<InternalIterator>
    var current: Option<nat>
    var direction: Direction
    /** The sorted union of the children's entries, and the position in it. */
    ghost const union: Union
    ghost var pos: nat

    ghost function Lists(): seq<seq<Entry>> {
      seq(|children|, i requires 0 <= i < |children| => children[i].entries)
    }

    /** Child `i` is at its first entry at or after position `p` of the union. */
    ghost predicate AheadOf(i: nat, p: nat)
      requires i < |children| && union.Of(Lists())
      reads children[i]
    {
      && children[i].Wf()
      && (forall k :: 0 <= k < |children[i].entries| ==> (k < children[i].pos <==> union.at[i][k] < p))
    }

    /** Child `i` is at its last entry at or before position `p` of the union, or is not valid if it
        has none. */
    ghost predicate Behind(i: nat, p: int)
      requires i < |children| && union.Of(Lists())
      reads children[i]
    {
      && children[i].Wf()
      && (children[i].Valid() ==>
            && union.at[i][children[i].pos] <= p
            && forall k :: children[i].pos < k < |children[i].entries| ==> union.at[i][k] > p)
      && (!children[i].Valid() ==> forall k :: 0 <= k < |children[i].entries| ==> union.at[i][k] > p)
    }

    ghost predicate Wf()
      reads this, children
    {
      && Mergeable(Lists()) && union.Of(Lists())
      && (forall i, j :: 0 <= i < j < |children| ==> children[i] != children[j])
      && pos <= |union.entries|
      && (current.None? ==> pos == |union.entries|)
      && (current.Some? ==> pos < |union.entries| && current.value == union.owner[pos].0)
      && (current.Some? && direction.Forward? ==> forall i :: 0 <= i < |children| ==> AheadOf(i, pos))
      && (current.Some? && direction.Reverse? ==> forall i :: 0 <= i < |children| ==> Behind(i, pos))
    }

    predicate Valid()
      reads `current
    {
      current.Some?
    }

    /** The child that holds position `p` of the union. */
    lemma {:induction false} Owner(p: nat)
      requires union.Of(Lists()) && p < |union.entries|
      ensures var (c, k) := union.owner[p];
              && c < |children| && k < |children[c].entries|
              && union.at[c][k] == p && children[c].entries[k] == union.entries[p]
    {
      assert union.Owns(Lists(), p);
      var (c, k) := union.owner[p];
      assert union.Places(Lists(), c, k);
    }

    constructor (children: seq<InternalIterator>)
      requires forall i, j :: 0 <= i < j < |children| ==> children[i] != children[j]
      requires Mergeable(seq(|children|, i requires 0 <= i < |children| => children[i].entries))
      ensures Wf() && !Valid() && this.children == children
    {
      this.children := children;
      current, direction := None, Forward;
      ghost var lists := seq(|children|, i requires 0 <= i < |children| => children[i].entries);
      ghost var u := UnionExists(lists);
      union := u;
      pos := |u.entries|;
      new;
      assert Lists() == lists;
    }

    /** Positions in the union ascend within a child. */
    lemma {:induction false} Ascend(i: nat, k: nat, m: nat)
      requires Mergeable(Lists()) && union.Of(Lists()) && i < |children| && k < m < |children[i].entries|
      ensures union.at[i][k] < union.at[i][m]
    {
      assert Sorted(Lists()[i]) && Before(Lists()[i][k], Lists()[i][m]);
      union.Order(Lists(), i, k, i, m);
    }

    /** The owner of position `p` is at its entry there. */
    lemma {:induction false} OwnerAhead(p: nat)
      requires Mergeable(Lists()) && union.Of(Lists()) && p < |union.entries|
      requires union.owner[p].0 < |children| && AheadOf(union.owner[p].0, p)
      ensures var (c, k) := union.owner[p]; children[c].pos == k && children[c].Valid()
    {
      Owner(p);
      var (c, k) := union.owner[p];
      if children[c].pos < k {
        Ascend(c, children[c].pos, k);
      }
    }

    lemma {:induction false} OwnerBehind(p: nat)
      requires Mergeable(Lists()) && union.Of(Lists()) && p < |union.entries|
      requires union.owner[p].0 < |children| && Behind(union.owner[p].0, p)
      ensures var (c, k) := union.owner[p]; children[c].pos == k && children[c].Valid()
    {
      Owner(p);
      var (c, k) := union.owner[p];
      if children[c].Valid() && k < children[c].pos {
        Ascend(c, k, children[c].pos);
      }
    }

    /** No two entries have the same position. */
    lemma {:induction false} SamePlace(i: nat, k: nat, j: nat, m: nat)
      requires union.Of(Lists())
      requires i < |children| && k < |children[i].entries| && j < |children| && m < |children[j].entries|
      ensures union.at[i][k] < |union.entries|
      ensures union.at[i][k] == union.at[j][m] ==> i == j
    {
      union.Order(Lists(), i, k, j, m);
    }

    /** The smallest of the children. */
    method FindSmallest(ghost p: nat)
      requires Mergeable(Lists()) && union.Of(Lists()) && p <= |union.entries|
      requires forall i :: 0 <= i < |children| ==> AheadOf(i, p)
      modifies `current
      ensures p == |union.entries| ==> current == None
      ensures p < |union.entries| ==> current == Some(union.owner[p].0)
    {
      var smallest: Option<nat> := None;
      var i := 0;
      while i < |children|
        invariant i <= |children|
        invariant smallest.None? ==> forall j :: 0 <= j < i ==> !children[j].Valid()
        invariant smallest.Some? ==> smallest.value < i && children[smallest.value].Valid()
        invariant smallest.Some? ==> forall j :: 0 <= j < i && children[j].Valid() ==>
                    union.at[smallest.value][children[smallest.value].pos] <= union.at[j][children[j].pos]
      {
        assert AheadOf(i, p);
        var child := children[i];
        if child.Valid() {
          if smallest.None? {
            smallest := Some(i);
          } else {
            var best := children[smallest.value];
            union.Order(Lists(), i, child.pos, smallest.value, best.pos);
            if Before(child.entries[child.pos], best.entries[best.pos]) {
              smallest := Some(i);
            }
          }
        }
        i := i + 1;
      }
      current := smallest;
      if smallest.Some? {
        assert AheadOf(smallest.value, p);
        SamePlace(smallest.value, children[smallest.value].pos, smallest.value, children[smallest.value].pos);
      }
      if p < |union.entries| {
        Owner(p);
        OwnerAhead(p);
        var (c, k) := union.owner[p];
        SamePlace(smallest.value, children[smallest.value].pos, c, k);
      }
    }

    /** The largest of the children. */
    method FindLargest(ghost p: int)
      requires Mergeable(Lists()) && union.Of(Lists()) && -1 <= p < |union.entries|
      requires forall i :: 0 <= i < |children| ==> Behind(i, p)
      modifies `current
      ensures p == -1 ==> current == None
      ensures p >= 0 ==> current == Some(union.owner[p].0)
    {
      var largest: Option<nat> := None;
      var i := |children|;
      while i > 0
        invariant 0 <= i <= |children|
        invariant largest.None? ==> forall j :: i <= j < |children| ==> !children[j].Valid()
        invariant largest.Some? ==> i <= largest.value < |children| && children[largest.value].Valid()
        invariant largest.Some? ==> forall j :: i <= j < |children| && children[j].Valid() ==>
                    union.at[j][children[j].pos] <= union.at[largest.value][children[largest.value].pos]
      {
        i := i - 1;
        assert Behind(i, p);
        var child := children[i];
        if child.Valid() {
          if largest.None? {
            largest := Some(i);
          } else {
            var best := children[largest.value];
            union.Order(Lists(), largest.value, best.pos, i, child.pos);
            if Before(best.entries[best.pos], child.entries[child.pos]) {
              largest := Some(i);
            }
          }
        }
      }
      current := largest;
      if largest.Some? {
        assert Behind(largest.value, p);
      }
      if p >= 0 {
        Owner(p);
        assert Behind(union.owner[p].0, p);
        OwnerBehind(p);
        var (c, k) := union.owner[p];
        SamePlace(largest.value, children[largest.value].pos, c, k);
      }
    }

    /** Position `p` splits the union at the first entry that is not before `target`. */
    ghost predicate SplitsAt(p: nat, target: Entry) {
      && p <= |union.entries|
      && (forall q :: 0 <= q < p ==> Before(union.entries[q], target))
      && (forall q :: p <= q < |union.entries| ==> !Before(union.entries[q], target))
    }

    lemma {:induction false} SplitExists(target: Entry) returns (p: nat)
      requires Sorted(union.entries)
      ensures SplitsAt(p, target)
    {
      p := 0;
      while p < |union.entries| && Before(union.entries[p], target)
        invariant p <= |union.entries|
        invariant forall q :: 0 <= q < p ==> Before(union.entries[q], target)
      {
        p := p + 1;
      }
      if p < |union.entries| {
        Around(union.entries, p);
      }
    }

    lemma {:induction false} SplitsAtOwn(p: nat)
      requires Sorted(union.entries) && p < |union.entries|
      ensures SplitsAt(p, union.entries[p])
    {
      Around(union.entries, p);
    }

    /** A child that was sent to `target` is where the union splits. */
    lemma {:induction false} SoughtAhead(i: nat, p: nat, target: Entry)
      requires Mergeable(Lists()) && union.Of(Lists()) && i < |children| && SplitsAt(p, target)
      requires children[i].Wf()
      requires forall k :: 0 <= k < children[i].pos ==> Before(children[i].entries[k], target)
      requires children[i].Valid() ==> !Before(children[i].entries[children[i].pos], target)
      ensures AheadOf(i, p)
    {
      forall k | 0 <= k < |children[i].entries|
        ensures k < children[i].pos <==> union.at[i][k] < p
      {
        assert union.Places(Lists(), i, k);
        assert Before(children[i].entries[k], target) <==> union.at[i][k] < p;
        if children[i].pos < k {
          Ascend(i, children[i].pos, k);
          assert union.Places(Lists(), i, children[i].pos);
        }
      }
    }

    /** One step back from the split is the last entry before it. */
    lemma {:induction false} StepBack(i: nat, p: nat, was: nat)
      requires Mergeable(Lists()) && union.Of(Lists()) && i < |children| && was <= |children[i].entries|
      requires forall k :: 0 <= k < |children[i].entries| ==> (k < was <==> union.at[i][k] < p)
      requires children[i].pos == if was == 0 then |children[i].entries| else was - 1
      ensures Behind(i, p - 1)
    {
    }

    /** No other child holds the current position. */
    lemma {:induction false} OthersPass(i: nat, p: nat)
      requires Mergeable(Lists()) && union.Of(Lists()) && p < |union.entries|
      requires i < |children| && i != union.owner[p].0
      ensures AheadOf(i, p) ==> AheadOf(i, p + 1)
      ensures Behind(i, p - 1) <==> Behind(i, p)
    {
      Owner(p);
      var (c, m) := union.owner[p];
      forall k | 0 <= k < |children[i].entries|
        ensures union.at[i][k] != p
      {
        SamePlace(i, k, c, m);
      }
    }

    /** The child that holds the current position, on both sides of it. */
    lemma {:induction false} OwnerStands(p: nat)
      requires Mergeable(Lists()) && union.Of(Lists()) && p < |union.entries|
      requires union.owner[p].0 < |children| && children[union.owner[p].0].pos == union.owner[p].1
      ensures AheadOf(union.owner[p].0, p) && Behind(union.owner[p].0, p)
    {
      Owner(p);
      var (c, m) := union.owner[p];
      forall k | 0 <= k < |children[c].entries|
        ensures k < m <==> union.at[c][k] < p
        ensures k > m ==> union.at[c][k] > p
      {
        if k < m {
          Ascend(c, k, m);
        } else if k > m {
          Ascend(c, m, k);
        }
      }
    }

    method SeekToFirst()
      requires Wf()
      modifies this, children
      ensures Wf() && pos == 0
    {
      var i := 0;
      while i < |children|
        invariant i <= |children|
        invariant forall j :: 0 <= j < i ==> AheadOf(j, 0)
      {
        children[i].SeekToFirst();
        i := i + 1;
      }
      FindSmallest(0);
      direction := Forward;
      pos := 0;
    }

    method SeekToLast()
      requires Wf()
      modifies this, children
      ensures Wf() && pos == if |union.entries| == 0 then 0 else |union.entries| - 1
    {
      ghost var last := |union.entries| - 1;
      var i := 0;
      while i < |children|
        invariant i <= |children|
        invariant forall j :: 0 <= j < i ==> Behind(j, last)
      {
        children[i].SeekToLast();
        LastBehind(i);
        i := i + 1;
      }
      FindLargest(last);
      direction := Reverse;
      pos := if last == -1 then 0 else last;
    }

    lemma {:induction false} LastBehind(i: nat)
      requires Mergeable(Lists()) && union.Of(Lists()) && i < |children|
      requires children[i].pos == if |children[i].entries| == 0 then 0 else |children[i].entries| - 1
      ensures Behind(i, |union.entries| - 1)
    {
      if children[i].Valid() {
        assert union.Places(Lists(), i, children[i].pos);
      }
    }

    /** Position at the first entry at or after `target`. */
    method Seek(target: Entry)
      requires Wf()
      modifies this, children
      ensures Wf()
      ensures forall q :: 0 <= q < pos ==> Before(union.entries[q], target)
      ensures Valid() ==> !Before(union.entries[pos], target)
    {
      ghost var p := SplitExists(target);
      var i := 0;
      while i < |children|
        invariant i <= |children|
        invariant forall j :: 0 <= j < i ==> AheadOf(j, p)
      {
        children[i].SeekTo(target);
        SoughtAhead(i, p, target);
        i := i + 1;
      }
      FindSmallest(p);
      direction := Forward;
      pos := p;
    }

    /** The entry at the current position. */
    method Current() returns (e: Entry)
      requires Wf() && Valid()
      ensures e == union.entries[pos]
    {
      Owner(pos);
      if direction.Forward? {
        OwnerAhead(pos);
      } else {
        OwnerBehind(pos);
      }
      var child := children[current.value];
      e := child.entries[child.pos];
    }

    /** Position all other children after the current entry. */
    method TurnForward()
      requires Wf() && Valid() && direction.Reverse?
      modifies `direction, children
      ensures Wf() && direction.Forward?
    {
      var key := Current();
      Owner(pos);
      OwnerBehind(pos);
      OwnerStands(pos);
      SplitsAtOwn(pos);
      var i := 0;
      while i < |children|
        invariant i <= |children|
        invariant children[union.owner[pos].0].pos == union.owner[pos].1
        invariant forall j :: 0 <= j < i ==> AheadOf(j, pos)
      {
        if i != current.value {
          children[i].SeekTo(key);
          SoughtAhead(i, pos, key);
          // no other child has an entry equal to the current one, so none is skipped
        } else {
          OwnerStands(pos);
        }
        i := i + 1;
      }
      direction := Forward;
    }

    /** Position all other children before the current entry. */
    method TurnReverse()
      requires Wf() && Valid() && direction.Forward?
      modifies `direction, children
      ensures Wf() && direction.Reverse?
    {
      var key := Current();
      Owner(pos);
      OwnerAhead(pos);
      OwnerStands(pos);
      SplitsAtOwn(pos);
      var i := 0;
      while i < |children|
        invariant i <= |children|
        invariant children[union.owner[pos].0].pos == union.owner[pos].1
        invariant forall j :: 0 <= j < i ==> Behind(j, pos)
      {
        if i != current.value {
          var child := children[i];
          child.SeekTo(key);
          SoughtAhead(i, pos, key);
          ghost var first := child.pos;
          if child.Valid() {
            child.Prev();
          } else {
            child.SeekToLast();
          }
          StepBack(i, pos, first);
          OthersPass(i, pos);
        } else {
          OwnerStands(pos);
        }
        i := i + 1;
      }
      direction := Reverse;
    }

    method Next()
      requires Wf() && Valid()
      modifies this, children
      ensures Wf() && pos == old(pos) + 1
    {
      if direction != Forward {
        TurnForward();
      }
      Owner(pos);
      OwnerAhead(pos);
      OwnerStands(pos);
      var child := children[current.value];
      assert forall k :: 0 <= k < |child.entries| ==> (k < child.pos + 1 <==> union.at[current.value][k] < pos + 1);
      child.Next();
      ghost var next := pos + 1;
      forall i | 0 <= i < |children|
        ensures AheadOf(i, next)
      {
        if i != current.value {
          assert AheadOf(i, pos);
          OthersPass(i, pos);
        }
      }
      FindSmallest(next);
      pos := pos + 1;
    }

    method Prev()
      requires Wf() && Valid()
      modifies this, children
      ensures Wf() && pos == if old(pos) == 0 then |union.entries| else old(pos) - 1
    {
      if direction != Reverse {
        TurnReverse();
      }
      Owner(pos);
      OwnerBehind(pos);
      OwnerStands(pos);
      var child := children[current.value];
      ghost var was := child.pos;
      assert forall k :: 0 <= k < |child.entries| ==> (k < was <==> union.at[current.value][k] < pos);
      child.Prev();
      StepBack(current.value, pos, was);
      ghost var last := pos - 1;
      forall i | 0 <= i < |children|
        ensures Behind(i, last)
      {
        if i != current.value {
          assert Behind(i, pos);
          OthersPass(i, pos);
        }
      }
      FindLargest(last);
      pos := if pos == 0 then |union.entries| else pos - 1;
    }
  }
}
