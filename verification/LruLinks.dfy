/** The links of the block cache: the circular lists of its entries, and the chains of its hash table.  Every pointer
    operation does to the links what the cache's specification does to its sequences. */
module LruLinks {
  import opened Common

  class Node {
    const key: string
    const hash: nat
    var next: Node?
    var prev: Node?
    var nextHash: Node?
  }

  // ----- Circular lists -----

  /** Position `i` of a list: its head stands before and after the nodes. */
  ghost function At(head: Node, nodes: seq<Node>, i: nat): Node
    requires i <= |nodes| + 1
  {
    if i == 0 || i == |nodes| + 1 then head else nodes[i - 1]
  }

  ghost predicate LinkedAt(head: Node, nodes: seq<Node>, i: nat)
    requires i <= |nodes|
    reads head, nodes
  {
    At(head, nodes, i).next == At(head, nodes, i + 1) && At(head, nodes, i + 1).prev == At(head, nodes, i)
  }

  /** The links from the head go through the nodes, in both directions, and back to the head. */
  ghost predicate Circle(head: Node, nodes: seq<Node>)
    reads head, nodes
  {
    && head !in nodes && Distinct(nodes)
    && forall i {:trigger LinkedAt(head, nodes, i)} :: 0 <= i <= |nodes| ==> LinkedAt(head, nodes, i)
  }

  ghost function Without(nodes: seq<Node>, i: nat): seq<Node>
    requires i < |nodes|
  {
    nodes[..i] + nodes[i + 1..]
  }

  lemma {:induction false} WithoutDistinct(nodes: seq<Node>, i: nat)
    requires Distinct(nodes) && i < |nodes|
    ensures Distinct(Without(nodes, i))
    ensures forall x :: x in Without(nodes, i) <==> x in nodes && x != nodes[i]
  {
    var r := Without(nodes, i);
    forall a, b | 0 <= a < b < |r| ensures Differ(r, a, b) {
      assert Differ(nodes, if a < i then a else a + 1, if b < i then b else b + 1);
    }
    forall a | 0 <= a < |r| ensures r[a] != nodes[i] {
      assert if a < i then Differ(nodes, a, i) else Differ(nodes, i, a + 1);
    }
  }

  lemma {:induction false} NodesDiffer(head: Node, nodes: seq<Node>, i: nat, j: nat)
    requires head !in nodes && Distinct(nodes) && i < j <= |nodes| + 1 && !(i == 0 && j == |nodes| + 1)
    ensures At(head, nodes, i) != At(head, nodes, j)
  {
    if 0 < i && j <= |nodes| {
      assert Differ(nodes, i - 1, j - 1);
    }
  }

  /** An empty list. */
  method InitList(head: Node)
    modifies head`next, head`prev
    ensures Circle(head, [])
  {
    head.next := head;
    head.prev := head;
    assert LinkedAt(head, [], 0);
  }

  /** LRU_Remove: the neighbours of the entry are linked to each other. */
  method Remove(e: Node, ghost head: Node, ghost nodes: seq<Node>, ghost i: nat)
    requires Circle(head, nodes) && i < |nodes| && nodes[i] == e
    modifies At(head, nodes, i)`next, At(head, nodes, i + 2)`prev
    ensures Circle(head, Without(nodes, i))
  {
    assert LinkedAt(head, nodes, i) && LinkedAt(head, nodes, i + 1);
    NodesDiffer(head, nodes, i, i + 1);
    NodesDiffer(head, nodes, i + 1, i + 2);
    e.next.prev := e.prev;
    e.prev.next := e.next;
    WithoutDistinct(nodes, i);
    var less := Without(nodes, i);
    forall k | 0 <= k <= |less| ensures LinkedAt(head, less, k) {
      var a := if k <= i then k else k + 1;
      assert At(head, less, k) == At(head, nodes, a);
      if k != i {
        assert At(head, less, k + 1) == At(head, nodes, a + 1);
        assert old(LinkedAt(head, nodes, a));
        OthersStay(head, nodes, i, a);
      }
    }
  }

  /** Only the links between the neighbours change. */
  lemma {:induction false} OthersStay(head: Node, nodes: seq<Node>, i: nat, a: nat)
    requires head !in nodes && Distinct(nodes) && i < |nodes| && a <= |nodes| && a != i && a != i + 1
    ensures At(head, nodes, a) != At(head, nodes, i)
    ensures At(head, nodes, a + 1) != At(head, nodes, i + 2)
  {
    if a < i {
      NodesDiffer(head, nodes, a, i);
      if !(a + 1 == 0 && i + 2 == |nodes| + 1) {
        NodesDiffer(head, nodes, a + 1, i + 2);
      }
    } else {
      NodesDiffer(head, nodes, i, a);
      NodesDiffer(head, nodes, i + 2, a + 1);
    }
  }

  /** LRU_Append: the entry comes last, before the head. */
  method Append(head: Node, e: Node, ghost nodes: seq<Node>)
    requires Circle(head, nodes) && e != head && e !in nodes
    modifies e`next, e`prev, head`prev, At(head, nodes, |nodes|)`next
    ensures Circle(head, nodes + [e])
  {
    assert LinkedAt(head, nodes, |nodes|);
    e.next := head;
    e.prev := head.prev;
    e.prev.next := e;
    e.next.prev := e;
    Common.Append(nodes, e);
    var more := nodes + [e];
    forall k | 0 <= k <= |more| ensures LinkedAt(head, more, k) {
      if k < |nodes| {
        assert old(LinkedAt(head, nodes, k));
        assert At(head, more, k) == At(head, nodes, k) && At(head, more, k + 1) == At(head, nodes, k + 1);
        NodesDiffer(head, nodes, k, |nodes|);
      }
    }
  }

  /** An entry goes from one list to the end of another; nothing else changes in either. */
  method Move(e: Node, to: Node, ghost from: Node, ghost source: seq<Node>, ghost i: nat, ghost target: seq<Node>)
    requires Circle(from, source) && Circle(to, target) && i < |source| && source[i] == e
    requires from != to && from !in target && to !in source && forall x :: x in source ==> x !in target
    modifies from, source, to, target
    ensures Circle(from, Without(source, i)) && Circle(to, target + [e])
  {
    WithoutDistinct(source, i);
    assert Circle(to, target);
    InList(from, source, i);
    InList(from, source, i + 2);
    InList(to, target, |target|);
    hide Circle, At;
    Remove(e, from, source, i);
    assert Circle(to, target);
    assert e !in Without(source, i) && e in source;
    Append(to, e, target);
  }

  lemma {:induction false} InList(head: Node, nodes: seq<Node>, i: nat)
    requires i <= |nodes| + 1
    ensures At(head, nodes, i) == head || At(head, nodes, i) in nodes
  {
  }

  /** The oldest entry is the one after the head. */
  method Oldest(head: Node, ghost nodes: seq<Node>) returns (e: Node)
    requires Circle(head, nodes)
    ensures if nodes == [] then e == head else e == nodes[0]
  {
    assert LinkedAt(head, nodes, 0);
    e := head.next;
  }

  // ----- Hash chains -----

  function FirstOf(c: seq<Node>): Node? {
    if |c| == 0 then null else c[0]
  }

  ghost predicate ChainedAt(c: seq<Node>, i: nat)
    requires i < |c|
    reads c
  {
    c[i].nextHash == FirstOf(c[i + 1..])
  }

  /** Following the links from `first` visits exactly `c`. */
  ghost predicate Chain(first: Node?, c: seq<Node>)
    reads c
  {
    first == FirstOf(c) && forall i {:trigger ChainedAt(c, i)} :: 0 <= i < |c| ==> ChainedAt(c, i)
  }

  ghost predicate Meets(a: seq<Node>, b: seq<Node>) {
    exists x :: x in a && x in b
  }

  /** Every node is in one chain, once. */
  ghost predicate Apart(chains: seq<seq<Node>>) {
    && (forall b {:trigger chains[b]} :: 0 <= b < |chains| ==> Distinct(chains[b]))
    && forall b, c {:trigger Meets(chains[b], chains[c])} :: 0 <= b < c < |chains| ==> !Meets(chains[b], chains[c])
  }

  ghost function AllOf(chains: seq<seq<Node>>): (all: set<Node>)
    ensures forall b, x :: 0 <= b < |chains| && x in chains[b] ==> x in all
    ensures forall x :: x in all ==> exists b :: 0 <= b < |chains| && x in chains[b]
  {
    set b, x | 0 <= b < |chains| && x in chains[b] :: x
  }

  ghost predicate Chains(firsts: seq<Node?>, chains: seq<seq<Node>>)
    reads AllOf(chains)
  {
    && |firsts| == |chains| && Apart(chains)
    && forall b {:trigger chains[b]} :: 0 <= b < |chains| ==> Chain(firsts[b], chains[b])
  }

  lemma {:induction false} InOneChain(chains: seq<seq<Node>>, b: nat, c: nat, x: Node)
    requires Apart(chains) && b < |chains| && c < |chains| && x in chains[b] && x in chains[c]
    ensures b == c
  {
    if b < c {
      assert Meets(chains[b], chains[c]);
    } else if c < b {
      assert Meets(chains[c], chains[b]);
    }
  }

  /** The rest of a chain. */
  lemma {:induction false} RestOfChain(c: seq<Node>, i: nat)
    requires Chain(FirstOf(c), c) && i <= |c|
    ensures Chain(FirstOf(c[i..]), c[i..])
  {
    var r := c[i..];
    forall k | 0 <= k < |r| ensures ChainedAt(r, k) {
      assert ChainedAt(c, i + k);
      assert r[k + 1..] == c[i + k + 1..];
    }
  }

  lemma {:induction false} NotElsewhere(chains: seq<seq<Node>>, b: nat, x: Node)
    requires Apart(chains) && b < |chains| && x in chains[b]
    ensures forall n :: 0 <= n < |chains| && n != b ==> x !in chains[n]
  {
    forall n | 0 <= n < |chains| && n != b ensures x !in chains[n] {
      if x in chains[n] {
        InOneChain(chains, b, n, x);
      }
    }
  }

  /** The last node before the tail is not elsewhere in the chain. */
  lemma {:induction false} TailApart(c: seq<Node>, i: nat, tail: seq<Node>)
    requires i <= |c| && Distinct(c[..i] + tail)
    ensures i > 0 ==> c[i - 1] !in tail && forall k :: 0 <= k < i - 1 ==> c[k] != c[i - 1]
  {
    var more := c[..i] + tail;
    if i > 0 {
      forall k | 0 <= k < |tail| ensures tail[k] != c[i - 1] {
        assert Differ(more, i - 1, i + k);
      }
      forall k | 0 <= k < i - 1 ensures c[k] != c[i - 1] {
        assert Differ(more, k, i - 1);
      }
    }
  }

  /** The number of nodes in all chains. */
  ghost function Total(chains: seq<seq<Node>>): nat {
    if |chains| == 0 then 0 else Total(chains[..|chains| - 1]) + |chains[|chains| - 1]|
  }

  lemma {:induction false} TotalChanged(chains: seq<seq<Node>>, b: nat, c: seq<Node>)
    requires b < |chains|
    ensures Total(chains[b := c]) + |chains[b]| == Total(chains) + |c|
  {
    var last := |chains| - 1;
    if b == last {
      assert chains[b := c][..last] == chains[..last];
    } else {
      assert chains[b := c][..last] == chains[..last][b := c];
      TotalChanged(chains[..last], b, c);
    }
  }

  /** The start of a chain goes on with another one. */
  lemma {:induction false} GoesOn(c: seq<Node>, i: nat, tail: seq<Node>)
    requires i <= |c| && Chain(FirstOf(tail), tail)
    requires i > 0 ==> c[i - 1].nextHash == FirstOf(tail)
    requires forall k {:trigger ChainedAt(c, k)} :: 0 <= k < i - 1 ==> ChainedAt(c, k)
    ensures Chain(FirstOf(c[..i] + tail), c[..i] + tail)
  {
    var more := c[..i] + tail;
    forall k | 0 <= k < |more| ensures ChainedAt(more, k) {
      if k < i {
        assert k < i - 1 ==> ChainedAt(c, k) && more[k + 1] == c[k + 1];
        assert k == i - 1 ==> more[k + 1..] == tail;
      } else {
        assert ChainedAt(tail, k - i) && more[k + 1..] == tail[k - i + 1..];
      }
    }
  }

  /** A chain with fewer nodes. */
  lemma {:induction false} FewerApart(chains: seq<seq<Node>>, b: nat, c: seq<Node>)
    requires Apart(chains) && b < |chains| && Distinct(c) && forall x :: x in c ==> x in chains[b]
    ensures Apart(chains[b := c])
  {
    var after := chains[b := c];
    forall m, n | 0 <= m < n < |after| ensures !Meets(after[m], after[n]) {
      assert !Meets(chains[m], chains[n]);
    }
  }

  lemma {:induction false} PlacedDistinct(c: seq<Node>, i: nat, h: Node)
    requires Distinct(c) && h !in c && i <= |c|
    ensures Distinct(if i < |c| then c[i := h] else c + [h])
    ensures forall x :: x in (if i < |c| then c[i := h] else c + [h]) ==> x in c || x == h
  {
    if i < |c| {
      var more := c[i := h];
      forall m, n | 0 <= m < n < |more| ensures Differ(more, m, n) {
        assert Differ(c, m, n);
      }
    } else {
      Common.Append(c, h);
    }
  }

  /** A chain with a new node at position `i`, in the place of another one or at the end. */
  lemma {:induction false} OneChanged(chains: seq<seq<Node>>, b: nat, i: nat, h: Node)
    requires Apart(chains) && b < |chains| && i <= |chains[b]| && forall n :: 0 <= n < |chains| ==> h !in chains[n]
    ensures Apart(chains[b := if i < |chains[b]| then chains[b][i := h] else chains[b] + [h]])
  {
    var c := chains[b];
    var more := if i < |c| then c[i := h] else c + [h];
    PlacedDistinct(c, i, h);
    var after := chains[b := more];
    forall m, n | 0 <= m < n < |after| ensures !Meets(after[m], after[n]) {
      assert !Meets(chains[m], chains[n]);
    }
  }

  /** The first node of chain `k` becomes the first node of chain `b`. */
  ghost function Moved(chains: seq<seq<Node>>, k: nat, b: nat): seq<seq<Node>>
    requires k < |chains| && b < |chains| && k != b && |chains[k]| > 0
  {
    chains[k := chains[k][1..]][b := [chains[k][0]] + chains[b]]
  }

  lemma {:induction false} MovedApart(chains: seq<seq<Node>>, k: nat, b: nat)
    requires Apart(chains) && k < |chains| && b < |chains| && k != b && |chains[k]| > 0
    ensures Apart(Moved(chains, k, b)) && chains[k][0] !in chains[k][1..]
    ensures forall n :: 0 <= n < |chains| && n != k ==> chains[k][0] !in chains[n]
    ensures AllOf(Moved(chains, k, b)) == AllOf(chains) && Total(Moved(chains, k, b)) == Total(chains)
  {
    var x, less := chains[k][0], chains[k := chains[k][1..]];
    RemoveHead(chains[k]);
    NotElsewhere(chains, k, x);
    FewerApart(chains, k, chains[k][1..]);
    TotalChanged(chains, k, chains[k][1..]);
    TotalChanged(less, b, [x] + chains[b]);
    Prepend(x, less[b]);
    var after := Moved(chains, k, b);
    forall m, n | 0 <= m < n < |after| ensures !Meets(after[m], after[n]) {
      assert !Meets(less[m], less[n]);
      assert x !in less[m] && x !in less[n];
    }
    forall y ensures y in AllOf(after) <==> y in AllOf(chains) {
      if y in AllOf(chains) && y != x {
        var n :| 0 <= n < |chains| && y in chains[n];
        assert y in after[n];
      }
      assert x in after[b] && x in chains[k];
    }
  }

  lemma {:induction false} AllInBuckets(firsts: seq<Node?>, chains: seq<seq<Node>>)
    requires Chains(firsts, chains) && Hashed(chains) && |chains| > 0
    ensures Apart(chains) && forall x :: x in AllOf(chains) ==> x in chains[x.hash % |chains|]
  {
  }

  /** What Link makes of the set of nodes. */
  lemma {:induction false} LinkedNodes(chains: seq<seq<Node>>, b: nat, i: nat, h: Node, was: Node?)
    requires Apart(chains) && b < |chains| && i <= |chains[b]| && was == FirstOf(chains[b][i..]) && h !in AllOf(chains)
    ensures was != null ==> was in AllOf(chains) && AllOf(chains[b := chains[b][i := h]]) == AllOf(chains) + {h} - {was}
    ensures was != null ==> Total(chains[b := chains[b][i := h]]) == Total(chains)
    ensures was == null ==> AllOf(chains[b := chains[b] + [h]]) == AllOf(chains) + {h}
    ensures was == null ==> Total(chains[b := chains[b] + [h]]) == Total(chains) + 1
  {
    var c := chains[b];
    var more := if was == null then c + [h] else c[i := h];
    var after := chains[b := more];
    TotalChanged(chains, b, more);
    if was != null {
      assert was == c[i];
      NotElsewhere(chains, b, was);
      OnceOnly(c, i, h);
    }
    forall x ensures x in AllOf(after) <==> (x in AllOf(chains) && x != was) || x == h {
      if x in AllOf(after) {
        var n :| 0 <= n < |after| && x in after[n];
        assert n != b ==> x in chains[n];
      }
      if x in AllOf(chains) && x != was {
        var n :| 0 <= n < |chains| && x in chains[n];
        assert x in after[n];
      }
      assert h in after[b];
    }
  }

  lemma {:induction false} OnceOnly(c: seq<Node>, i: nat, h: Node)
    requires Distinct(c) && i < |c| && h !in c
    ensures c[i] !in c[i := h] && h in c[i := h]
    ensures forall x :: x in c && x != c[i] ==> x in c[i := h]
    ensures forall x :: x in c[i := h] ==> x == h || x in c
  {
    var more := c[i := h];
    assert more[i] == h;
    forall k | 0 <= k < |more| && k != i ensures more[k] != c[i] {
      assert Differ(c, if k < i then k else i, if k < i then i else k);
    }
    forall x | x in c && x != c[i] ensures x in more {
      var k :| 0 <= k < |c| && c[k] == x;
      assert more[k] == x;
    }
  }

  /** Empty buckets before the old ones. */
  lemma {:induction false} NothingPlaced(n: nat, firsts: seq<Node?>, chains: seq<seq<Node>>)
    requires Chains(firsts, chains)
    ensures var none, empty := seq<Node?>(n, _ => null), seq<seq<Node>>(n, _ => []);
            && Chains(none + firsts, empty + chains) && Hashed(empty)
            && AllOf(empty + chains) == AllOf(chains) && Total(empty + chains) == Total(chains)
  {
    var none, empty := seq<Node?>(n, _ => null), seq<seq<Node>>(n, _ => []);
    var all, more := none + firsts, empty + chains;
    forall k | 0 <= k < |more| ensures Chain(all[k], more[k]) && Distinct(more[k]) {
      assert k >= n ==> more[k] == chains[k - n] && all[k] == firsts[k - n] && Chain(firsts[k - n], chains[k - n]);
    }
    forall m, k | 0 <= m < k < |more| ensures !Meets(more[m], more[k]) {
      assert k >= n ==> more[k] == chains[k - n];
      assert m >= n ==> more[m] == chains[m - n] && !Meets(chains[m - n], chains[k - n]);
    }
    EmptyFirst(n, chains);
  }

  lemma {:induction false} EmptyFirst(n: nat, chains: seq<seq<Node>>)
    ensures AllOf(seq<seq<Node>>(n, _ => []) + chains) == AllOf(chains) && Total(seq<seq<Node>>(n, _ => []) + chains) == Total(chains)
  {
    var more := seq<seq<Node>>(n, _ => []) + chains;
    if n == 0 {
      assert more == chains;
    } else {
      EmptyFirst(n - 1, chains);
      assert more == [] + [[]] + (seq<seq<Node>>(n - 1, _ => []) + chains);
      assert [] + (seq<seq<Node>>(n - 1, _ => []) + chains) == seq<seq<Node>>(n - 1, _ => []) + chains;
      SameNodes([], seq<seq<Node>>(n - 1, _ => []) + chains);
    }
  }

  lemma {:induction false} FirstInChains(firsts: seq<Node?>, chains: seq<seq<Node>>, k: nat)
    requires Chains(firsts, chains) && k < |chains|
    ensures firsts[k] == FirstOf(chains[k]) && Apart(chains)
  {
    assert Chain(firsts[k], chains[k]);
  }

  /** The first node of `rest` goes to the front of chain `b` of those before it. */
  lemma {:induction false} MovedOn(placed: seq<seq<Node>>, rest: seq<Node>, later: seq<seq<Node>>, b: nat)
    requires b < |placed| && |rest| > 0 && Hashed(placed) && rest[0].hash % |placed| == b
    ensures var after, all := placed[b := [rest[0]] + placed[b]], placed + [rest] + later;
            && all[|placed|] == rest && all[b] == placed[b]
            && after + [rest[1..]] + later == Moved(all, |placed|, b) && Hashed(after)
  {
    var after := placed[b := [rest[0]] + placed[b]];
    forall n: nat, x: Node | n < |after| && x in after[n] ensures x.hash % |after| == n {
      assert x in placed[n] || x == rest[0];
    }
  }

  /** An empty chain between others. */
  lemma {:induction false} EmptyDropped(f: seq<Node?>, g: seq<Node?>, a: seq<seq<Node>>, c: seq<seq<Node>>)
    requires |f| == |a| && Chains(f + [null] + g, a + [[]] + c)
    ensures Chains(f + g, a + c)
    ensures AllOf(a + c) == AllOf(a + [[]] + c) && Total(a + c) == Total(a + [[]] + c)
  {
    var all, less, firsts, fewer := a + [[]] + c, a + c, f + [null] + g, f + g;
    forall n | 0 <= n < |less| ensures Chain(fewer[n], less[n]) && Distinct(less[n]) {
      var m := if n < |a| then n else n + 1;
      assert less[n] == all[m] && fewer[n] == firsts[m] && Chain(firsts[m], all[m]);
    }
    forall m, n | 0 <= m < n < |less| ensures !Meets(less[m], less[n]) {
      var m', n' := if m < |a| then m else m + 1, if n < |a| then n else n + 1;
      assert less[m] == all[m'] && less[n] == all[n'] && !Meets(all[m'], all[n']);
    }
    SameNodes(a, c);
  }

  lemma {:induction false} SameNodes(a: seq<seq<Node>>, c: seq<seq<Node>>)
    ensures AllOf(a + c) == AllOf(a + [[]] + c) && Total(a + c) == Total(a + [[]] + c)
  {
    var all, less := a + [[]] + c, a + c;
    forall x ensures x in AllOf(all) <==> x in AllOf(less) {
      if x in AllOf(all) {
        var m :| 0 <= m < |all| && x in all[m];
        assert less[if m < |a| then m else m - 1] == all[m];
      }
      if x in AllOf(less) {
        var n :| 0 <= n < |less| && x in less[n];
        assert all[if n < |a| then n else n + 1] == less[n];
      }
    }
    TotalWithEmpty(a, c);
  }

  lemma {:induction false} TotalWithEmpty(a: seq<seq<Node>>, c: seq<seq<Node>>)
    ensures Total(a + c) == Total(a + [[]] + c)
  {
    if |c| == 0 {
      assert a + c == a && (a + [[]] + c)[..|a|] == a;
    } else {
      var d := c[..|c| - 1];
      TotalWithEmpty(a, d);
      assert (a + c)[..|a + c| - 1] == a + d && (a + [[]] + c)[..|a + [[]] + c| - 1] == a + [[]] + d;
    }
  }

  /** What a pointer to a pointer points to: a slot of the table, or the link of a node. */
  datatype Place = Bucket(b: nat) | LinkOf(node: Node)

  class HandleTable {
    var length: nat
    var elems: nat
    var list: array<Node?>
    ghost var chains: seq<seq<Node>>

    /** The empty table, as Resize makes it. */
    constructor ()
      ensures Valid() && Counted() && elems == 0 && length == 4 && Nodes() == {} && fresh(list)
    {
      length, elems, list := 4, 0, new Node?[4](_ => null);
      chains := seq(4, _ => []);
      new;
      assert list[..] == seq<Node?>(4, _ => null) + [] && chains == seq<seq<Node>>(4, _ => []) + [];
      NothingPlaced(4, [], []);
    }

    ghost function Nodes(): set<Node>
      reads `chains
    {
      AllOf(chains)
    }

    ghost predicate Valid()
      reads this, list, Nodes()
    {
      && 0 < length == list.Length == |chains| && Chains(list[..], chains)
      && Hashed(chains)
    }

    ghost predicate Counted()
      reads `elems, `chains
    {
      elems == Total(chains)
    }

    /** Where the pointer to entry `i` of bucket `b` is. */
    ghost function PlaceOf(b: nat, i: nat): Place
      requires b < |chains| && i <= |chains[b]|
      reads `chains
    {
      if i == 0 then Bucket(b) else LinkOf(chains[b][i - 1])
    }

    function Read(ptr: Place): Node?
      requires ptr.Bucket? ==> ptr.b < list.Length
      reads `list, list, if ptr.LinkOf? then {ptr.node} else {}
    {
      match ptr
      case Bucket(b) => list[b]
      case LinkOf(node) => node.nextHash
    }

    /** A store through the pointer: the chain goes on with `tail` from there. */
    method Write(ptr: Place, h: Node?, ghost b: nat, ghost i: nat, ghost tail: seq<Node>)
      requires Valid() && b < |chains| && i <= |chains[b]| && ptr == PlaceOf(b, i)
      requires Chain(h, tail) && Apart(chains[b := chains[b][..i] + tail])
      requires forall x :: x in tail ==> x.hash % length == b
      modifies `chains, list, if ptr.LinkOf? then {ptr.node} else {}
      ensures Valid() && chains == old(chains)[b := old(chains[b])[..i] + tail]
      ensures ptr.LinkOf? ==> ptr.node.next == old(ptr.node.next) && ptr.node.prev == old(ptr.node.prev)
    {
      ghost var was, c := chains, chains[b];
      ghost var more := c[..i] + tail;
      assert Chain(list[..][b], c);
      assert Distinct(more) by { assert was[b := more][b] == more; }
      if i > 0 {
        NotElsewhere(was, b, c[i - 1]);
      }
      TailApart(c, i, tail);
      Store(ptr, h);
      forall k | 0 <= k < i - 1 ensures ChainedAt(c, k) {
        assert old(ChainedAt(c, k));
      }
      GoesOn(c, i, tail);
      chains := chains[b := more];
      forall n | 0 <= n < |chains| ensures Chain(list[..][n], chains[n]) {
        if n != b {
          assert old(Chain(list[..][n], chains[n]));
        }
      }
      forall n, x | 0 <= n < |chains| && x in chains[n] ensures x.hash % length == n {
        assert n == b ==> x in c || x in tail;
        assert n != b ==> x in was[n];
      }
    }

    method Store(ptr: Place, h: Node?)
      requires ptr.Bucket? ==> ptr.b < list.Length
      modifies if ptr.Bucket? then {list} else {}
      modifies if ptr.LinkOf? then {ptr.node} else {}
      ensures ptr.Bucket? ==> list[..] == old(list[..])[ptr.b := h]
      ensures ptr.LinkOf? ==> ptr.node.nextHash == h && ptr.node.next == old(ptr.node.next) && ptr.node.prev == old(ptr.node.prev)
    {
      match ptr {
        case Bucket(b) => list[b] := h;
        case LinkOf(node) => node.nextHash := h;
      }
    }

    method Lookup(key: string, hash: nat) returns (e: Node?, ghost b: nat, ghost i: nat)
      requires Valid()
      ensures b == hash % length && i <= |chains[b]| && e == FirstOf(chains[b][i..])
      ensures e != null ==> e.hash == hash && e.key == key
      ensures e == null ==> forall x :: x in chains[b] ==> !(x.hash == hash && x.key == key)
    {
      var ptr;
      ptr, b, i := FindPointer(key, hash);
      e := Read(ptr);
    }

    /** The entry with the key leaves its chain. */
    method Remove(key: string, hash: nat) returns (e: Node?, ghost b: nat, ghost i: nat)
      requires Valid() && Counted()
      modifies `chains, `elems, list, Nodes()
      ensures Valid() && b == hash % length == hash % old(length) && i <= |old(chains)[b]| && e == FirstOf(old(chains)[b][i..])
      ensures e != null ==> e.hash == hash && e.key == key && chains == old(chains)[b := Without(old(chains)[b], i)]
      ensures e == null ==> chains == old(chains) && forall x :: x in chains[b] ==> !(x.hash == hash && x.key == key)
      ensures Counted()
    {
      var ptr;
      ptr, b, i := FindPointer(key, hash);
      e := Read(ptr);
      if e != null {
        ghost var c := chains[b];
        assert Chain(list[..][b], c) && ChainedAt(c, i);
        RestOfChain(c, i + 1);
        WithoutDistinct(c, i);
        forall x | x in c[i + 1..] ensures x.hash % length == b {
          assert x in chains[b];
        }
        FewerApart(chains, b, Without(c, i));
        TotalChanged(chains, b, Without(c, i));
        Write(ptr, e.nextHash, b, i, c[i + 1..]);
        elems := elems - 1;
      }
    }

    /** The entry takes the place of one with its key, or comes last. */
    method Link(h: Node) returns (was: Node?, ghost b: nat, ghost i: nat)
      requires Valid() && h !in Nodes()
      modifies `chains, list, Nodes(), h
      ensures Valid() && b == h.hash % length && i <= |old(chains)[b]| && was == FirstOf(old(chains)[b][i..])
      ensures was != null ==> was.hash == h.hash && was.key == h.key && chains == old(chains)[b := old(chains)[b][i := h]]
      ensures was == null ==> chains == old(chains)[b := old(chains)[b] + [h]]
      ensures was == null ==> forall x :: x in old(chains)[b] ==> !(x.hash == h.hash && x.key == h.key)
    {
      var ptr;
      ptr, b, i := FindPointer(h.key, h.hash);
      was := Read(ptr);
      ghost var c := chains[b];
      assert Chain(list[..][b], c) && (i < |c| ==> ChainedAt(c, i));
      ghost var rest := if was == null then [] else c[i + 1..];
      if was != null {
        RestOfChain(c, i + 1);
      }
      assert Chain(FirstOf(rest), rest) && h !in rest && forall x :: x in rest ==> x in c;
      h.nextHash := if was == null then null else was.nextHash;
      ghost var tail := [h] + rest;
      forall k | 0 <= k < |tail| ensures ChainedAt(tail, k) {
        assert tail[k + 1..] == rest[k..];
        assert k > 0 ==> ChainedAt(rest, k - 1);
      }
      forall n | 0 <= n < |chains| ensures Chain(list[..][n], chains[n]) {
        assert old(Chain(list[..][n], chains[n]));
      }
      OneChanged(chains, b, i, h);
      assert c[..i] + tail == if was == null then c + [h] else c[i := h];
      Write(ptr, h, b, i, tail);
    }

    /** The pointer to the entry with the key, or to the end of its chain. */
    method FindPointer(key: string, hash: nat) returns (ptr: Place, ghost b: nat, ghost i: nat)
      requires Valid()
      ensures b == hash % length && i <= |chains[b]| && ptr == PlaceOf(b, i)
      ensures (ptr.Bucket? ==> ptr.b < list.Length) && Read(ptr) == FirstOf(chains[b][i..])
      ensures i < |chains[b]| ==> chains[b][i].hash == hash && chains[b][i].key == key
      ensures forall k :: 0 <= k < i ==> !(chains[b][k].hash == hash && chains[b][k].key == key)
    {
      ptr := Bucket(hash % length);
      b, i := hash % length, 0;
      assert chains[b][0..] == chains[b] && Chain(list[..][b], chains[b]);
      while Read(ptr) != null && (Read(ptr).hash != hash || key != Read(ptr).key)
        invariant i <= |chains[b]| && ptr == PlaceOf(b, i) && (ptr.Bucket? ==> ptr.b < list.Length)
        invariant Read(ptr) == FirstOf(chains[b][i..])
        invariant forall k :: 0 <= k < i ==> !(chains[b][k].hash == hash && chains[b][k].key == key)
        decreases |chains[b]| - i
      {
        assert ChainedAt(chains[b], i) && Read(ptr) == chains[b][i];
        ptr := LinkOf(Read(ptr));
        i := i + 1;
      }
    }

    /** HandleTable::Insert. */
    method Insert(h: Node) returns (was: Node?)
      requires Valid() && Counted() && elems <= length && h !in Nodes()
      modifies this, list, Nodes(), h
      ensures Valid() && Counted() && elems <= length
      ensures was != null ==> was in old(Nodes()) && was.hash == h.hash && was.key == h.key
      ensures was == null ==> forall x :: x in old(Nodes()) ==> !(x.hash == h.hash && x.key == h.key)
      ensures Nodes() == old(Nodes()) + {h} - (if was == null then {} else {was})
    {
      hide Chains, Apart, Total, Hashed, Chain;
      ghost var b, i;
      AllInBuckets(list[..], chains);
      was, b, i := Link(h);
      LinkedNodes(old(chains), b, i, h, was);
      if was == null {
        elems := elems + 1;
        if elems > length {
          Resize();
        }
      }
    }

    /** One entry is linked in at the front of its new chain; `next` comes after it in the old one. */
    static method MoveOne(newList: array<Node?>, h: Node, b: nat, ghost others: seq<Node?>, ghost all: seq<seq<Node>>)
      returns (next: Node?)
      requires b < newList.Length && Chains(newList[..] + [h] + others, all)
      modifies newList, h
      ensures |all[newList.Length]| > 0 && all[newList.Length][0] == h
      ensures Chains(newList[..] + [next] + others, Moved(all, newList.Length, b))
    {
      ghost var k := newList.Length;
      ghost var firsts := newList[..] + [h] + others;
      ghost var rest, old_b := all[k], all[b];
      assert firsts[k] == h && Chain(firsts[k], all[k]) && Chain(firsts[b], all[b]) && firsts[b] == newList[b];
      MovedApart(all, k, b);
      assert ChainedAt(rest, 0);
      RestOfChain(rest, 1);
      next := h.nextHash;
      h.nextHash := newList[b];
      newList[b] := h;
      ghost var more := [h] + old_b;
      forall n | 0 <= n < |more| ensures ChainedAt(more, n) {
        assert more[n + 1..] == old_b[n..];
        assert n > 0 ==> old(ChainedAt(old_b, n - 1));
      }
      ghost var after, now := Moved(all, k, b), newList[..] + [next] + others;
      forall n | 0 <= n < |after| ensures Chain(now[n], after[n]) {
        assert old(Chain(firsts[n], all[n]));
        assert n == k ==> after[n] == rest[1..];
        assert n == b ==> after[n] == more;
      }
    }

    /** All entries of a bucket. */
    method MoveChain(i: nat, newList: array<Node?>, ghost placed0: seq<seq<Node>>) returns (ghost placed: seq<seq<Node>>)
      requires i < list.Length == |chains| && newList != list && newList.Length == |placed0| > 0
      requires Chains(newList[..] + list[i..], placed0 + chains[i..]) && Hashed(placed0)
      modifies newList, AllOf(placed0 + chains[i..])
      ensures |placed| == |placed0| && Hashed(placed)
      ensures Chains(newList[..] + list[i + 1..], placed + chains[i + 1..])
      ensures AllOf(placed + chains[i + 1..]) == AllOf(placed0 + chains[i..])
      ensures Total(placed + chains[i + 1..]) == Total(placed0 + chains[i..])
    {
      hide Chains, Apart, Total, Hashed, Moved;
      var h := list[i];
      ghost var rest, others, later := chains[i], list[i + 1..], chains[i + 1..];
      placed := placed0;
      assert newList[..] + [h] + others == newList[..] + list[i..] && placed + [rest] + later == placed0 + chains[i..];
      while h != null
        invariant |placed| == newList.Length && Hashed(placed)
        invariant Chains(newList[..] + [h] + others, placed + [rest] + later)
        invariant AllOf(placed + [rest] + later) == AllOf(placed0 + chains[i..])
        invariant Total(placed + [rest] + later) == Total(placed0 + chains[i..])
        decreases |rest|
      {
        ghost var all := placed + [rest] + later;
        var b := h.hash % newList.Length;
        FirstInChains(newList[..] + [h] + others, all, newList.Length);
        MovedApart(all, newList.Length, b);
        MovedOn(placed, rest, later, b);
        h := MoveOne(newList, h, b, others, all);
        placed := placed[b := [rest[0]] + placed[b]];
        rest := rest[1..];
      }
      FirstInChains(newList[..] + [h] + others, placed + [rest] + later, newList.Length);
      EmptyDropped(newList[..], others, placed, later);
    }

    method NewLength() returns (n: nat)
      ensures 4 <= n && elems <= n && (n == 4 || n < 2 * elems) && exists k: nat :: n == Pow2(k)
    {
      n := 4;
      ghost var k: nat := 2;
      assert Pow2(2) == 2 * Pow2(1) == 4 * Pow2(0);
      while n < elems
        invariant 4 <= n == Pow2(k) && (n == 4 || n < 2 * elems)
      {
        n, k := n * 2, k + 1;
      }
    }

    /** All entries, into a list of empty buckets. */
    method Relink(newList: array<Node?>) returns (ghost placed: seq<seq<Node>>)
      requires Valid() && newList != list && newList.Length > 0 && forall k :: 0 <= k < newList.Length ==> newList[k] == null
      modifies newList, Nodes()
      ensures |placed| == newList.Length && Chains(newList[..], placed) && Hashed(placed)
      ensures AllOf(placed) == AllOf(chains) && Total(placed) == Total(chains)
    {
      hide Chains, Apart, Total, Hashed, Chain;
      placed := seq(newList.Length, _ => []);
      NothingPlaced(newList.Length, list[..], chains);
      assert newList[..] == seq<Node?>(newList.Length, _ => null) && list[0..] == list[..] && chains[0..] == chains;
      for i := 0 to length
        invariant newList.Length == |placed| && list[..] == old(list[..])
        invariant Chains(newList[..] + list[i..], placed + chains[i..])
        invariant Hashed(placed) && AllOf(placed + chains[i..]) == AllOf(chains) && Total(placed + chains[i..]) == Total(chains)
      {
        placed := MoveChain(i, newList, placed);
      }
      assert newList[..] + list[length..] == newList[..] && placed + chains[length..] == placed;
    }

    /** A table of at least as many buckets as entries; every entry is linked in at the front of its new chain. */
    method Resize()
      requires Valid() && Counted()
      modifies this, Nodes()
      ensures Valid() && Counted() && elems <= length && elems == old(elems) && Nodes() == old(Nodes()) && fresh(list)
    {
      hide Chains, Total, Hashed;
      var newLength := NewLength();
      var newList := new Node?[newLength](_ => null);
      ghost var placed := Relink(newList);
      list, length, chains := newList, newLength, placed;
    }
  }

  /** Every node is in the bucket of its hash. */
  ghost predicate Hashed(chains: seq<seq<Node>>) {
    forall b, x {:trigger x in chains[b]} :: 0 <= b < |chains| && x in chains[b] ==> x.hash % |chains| == b
  }
}
