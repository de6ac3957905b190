/** The pointer heap of pending timers. */
module TimerHeap {
  import opened Common

  /** A timer with the heap node embedded in it. */
  class Timer {
    var left: Timer?
    var right: Timer?
    var parent: Timer?
    var timeout: nat
    var startId: nat
    var repeat: nat
    var hasCallback: bool
    var active: bool
    var closing: bool

    constructor ()
      ensures !active && !closing && !hasCallback && repeat == 0
    {
      left, right, parent := null, null, null;
      timeout, startId, repeat := 0, 0, 0;
      hasCallback, active, closing := false, false, false;
    }
  }

  /** timer_less_than: earlier timeout, then earlier start. */
  predicate Less(a: Timer, b: Timer)
    reads a`timeout, a`startId, b`timeout, b`startId
  {
    a.timeout < b.timeout || (a.timeout == b.timeout && a.startId < b.startId)
  }

  // ----- The complete tree, read off as a sequence -----

  function Left(i: nat): nat { 2 * i + 1 }

  function Right(i: nat): nat { 2 * i + 2 }

  function Parent(i: nat): nat
    requires i > 0
  {
    (i - 1) / 2
  }

  function At(s: seq<Timer>, i: nat): Timer? {
    if i < |s| then s[i] else null
  }

  function Above(s: seq<Timer>, i: nat): Timer?
    requires i < |s|
  {
    if i == 0 then null else s[Parent(i)]
  }

  ghost predicate Apart(s: seq<Timer>, i: nat, j: nat)
    requires i < |s| && j < |s|
  {
    s[i] != s[j]
  }

  ghost predicate Distinct(s: seq<Timer>) {
    forall i, j :: 0 <= i < j < |s| ==> Apart(s, i, j)
  }

  ghost predicate OnlyAt(s: seq<Timer>, x: Timer, k: nat) {
    forall i :: 0 <= i < |s| && s[i] == x ==> i == k
  }

  lemma {:induction false} Placed(s: seq<Timer>, k: nat)
    requires Distinct(s) && k < |s|
    ensures OnlyAt(s, s[k], k)
  {
    forall i | 0 <= i < |s| && i != k ensures s[i] != s[k] {
      assert if i < k then Apart(s, i, k) else Apart(s, k, i);
    }
  }

  ghost predicate LinkedAt(s: seq<Timer>, i: nat)
    requires i < |s|
    reads s`left, s`right, s`parent
  {
    s[i].left == At(s, Left(i)) && s[i].right == At(s, Right(i)) && s[i].parent == Above(s, i)
  }

  /** The node pointers are those of the complete tree whose rows, read in order, are `s`. */
  ghost predicate Linked(s: seq<Timer>)
    reads s`left, s`right, s`parent
  {
    Distinct(s) && forall i :: 0 <= i < |s| ==> LinkedAt(s, i)
  }

  /** Node `i` is not below its parent. */
  ghost predicate OrderedAt(s: seq<Timer>, i: nat)
    requires i < |s|
    reads s`timeout, s`startId
  {
    i > 0 ==> !Less(s[i], s[Parent(i)])
  }

  ghost predicate Ordered(s: seq<Timer>)
    reads s`timeout, s`startId
  {
    forall i :: 0 <= i < |s| ==> OrderedAt(s, i)
  }

  /** Ordered but for node `j` against its parent. */
  ghost predicate OrderedButUp(s: seq<Timer>, j: nat)
    requires j < |s|
    reads s`timeout, s`startId
  {
    && (forall i :: 0 <= i < |s| && i != j ==> OrderedAt(s, i))
    && BridgesAt(s, j)
  }

  /** Ordered but for node `j` against its parent and its children. */
  ghost predicate OrderedBut(s: seq<Timer>, j: nat)
    requires j < |s|
    reads s`timeout, s`startId
  {
    && (forall i :: 0 < i < |s| && i != j && Parent(i) != j ==> OrderedAt(s, i))
    && BridgesAt(s, j)
  }

  /** The children of `j` are not below the parent of `j`. */
  ghost predicate BridgesAt(s: seq<Timer>, j: nat)
    requires j < |s|
    reads s`timeout, s`startId
  {
    forall i :: 0 < i < |s| && j > 0 && Parent(i) == j ==> !Less(s[i], s[Parent(j)])
  }

  ghost predicate Member(nodes: set<Timer>, s: seq<Timer>, i: nat)
    requires i < |s|
  {
    s[i] in nodes
  }

  /** The set `nodes` holds exactly what the sequence lists. */
  ghost predicate Holds(nodes: set<Timer>, s: seq<Timer>) {
    && (forall i :: 0 <= i < |s| ==> Member(nodes, s, i))
    && (forall x {:trigger x in s} :: x in nodes ==> x in s)
  }

  // ----- Swapping a parent and a child -----

  function Swapped(s: seq<Timer>, c: nat): seq<Timer>
    requires 0 < c < |s|
  {
    s[Parent(c) := s[c]][c := s[Parent(c)]]
  }

  lemma {:induction false} SwappedNodes(s: seq<Timer>, c: nat)
    requires 0 < c < |s| && Distinct(s)
    ensures Distinct(Swapped(s, c))
    ensures forall nodes :: Holds(nodes, s) ==> Holds(nodes, Swapped(s, c))
  {
    var t := Swapped(s, c);
    Placed(s, c);
    Placed(s, Parent(c));
    forall i, j | 0 <= i < j < |s| ensures Apart(t, i, j) {
      Placed(s, i);
      Placed(s, j);
    }
    forall nodes | Holds(nodes, s) ensures Holds(nodes, t) {
      forall i | 0 <= i < |t| ensures Member(nodes, t, i) {
        assert Member(nodes, s, if i == c then Parent(c) else if i == Parent(c) then c else i);
      }
      forall x | x in s ensures x in t {
        var i :| 0 <= i < |s| && s[i] == x;
        assert t[if i == c then Parent(c) else if i == Parent(c) then c else i] == x;
      }
    }
  }

  /** The three pointers of a node. */
  datatype Link = Link(left: Timer?, right: Timer?, parent: Timer?)

  function LinkOf(x: Timer): Link
    reads x`left, x`right, x`parent
  {
    Link(x.left, x.right, x.parent)
  }

  /** The pointers that slot `i` of the complete tree `s` must have. */
  ghost function Due(s: seq<Timer>, i: nat): Link
    requires i < |s|
  {
    Link(At(s, Left(i)), At(s, Right(i)), Above(s, i))
  }

  /** What the swap writes into the node `x` that had the pointers `l`. */
  ghost function Relinked(s: seq<Timer>, c: nat, l: Link, x: Timer): Link
    requires 0 < c < |s|
  {
    var p := Parent(c);
    var parent, child := s[p], s[c];
    if x == child then
      if c == Left(p) then Link(parent, At(s, Right(p)), Above(s, p)) else Link(At(s, Left(p)), parent, Above(s, p))
    else if x == parent then Link(At(s, Left(c)), At(s, Right(c)), child)
    else Link(
      if l.left == parent then child else l.left,
      if l.right == parent then child else l.right,
      if l.parent == parent then child else if l.parent == child then parent else l.parent)
  }

  ghost predicate RelinkedAt(s: seq<Timer>, c: nat, i: nat)
    requires 0 < c < |s| && i < |s|
    reads s`left, s`right, s`parent
  {
    LinkOf(s[i]) == Relinked(s, c, Due(s, i), s[i])
  }

  lemma {:induction false} FarSlot(s: seq<Timer>, c: nat, i: nat)
    requires 0 < c < |s| && i < |s| && i != c && i != Parent(c)
    requires OnlyAt(s, s[Parent(c)], Parent(c)) && OnlyAt(s, s[c], c)
    ensures Relinked(s, c, Due(s, i), s[i]) == Due(Swapped(s, c), i)
  {
    var t := Swapped(s, c);
    assert s[i] != s[c] && s[i] != s[Parent(c)];
    assert Left(i) != c && Right(i) != c;
    assert At(t, Left(i)) == if Left(i) == Parent(c) then s[c] else At(s, Left(i));
    assert At(t, Right(i)) == if Right(i) == Parent(c) then s[c] else At(s, Right(i));
  }

  lemma {:induction false} ParentSlot(s: seq<Timer>, c: nat)
    requires 0 < c < |s| && s[c] != s[Parent(c)]
    ensures Relinked(s, c, Due(s, c), s[c]) == Due(Swapped(s, c), Parent(c))
  {
    var p, t := Parent(c), Swapped(s, c);
    assert p > 0 ==> Parent(p) != c && Parent(p) != p;
    assert Left(p) == c || Right(p) == c;
    assert Left(p) != p && Right(p) != p;
  }

  lemma {:induction false} ChildSlot(s: seq<Timer>, c: nat)
    requires 0 < c < |s| && s[c] != s[Parent(c)]
    ensures Relinked(s, c, Due(s, Parent(c)), s[Parent(c)]) == Due(Swapped(s, c), c)
  {
    assert Left(c) != c && Right(c) != c && Left(c) != Parent(c) && Right(c) != Parent(c);
  }

  /** The swap rewires the tree of `s` into the tree of the swapped sequence. */
  lemma {:induction false} SwappedLinks(s: seq<Timer>, c: nat, i: nat)
    requires 0 < c < |s| && i < |s|
    requires OnlyAt(s, s[Parent(c)], Parent(c)) && OnlyAt(s, s[c], c)
    ensures var home := if i == c then Parent(c) else if i == Parent(c) then c else i;
      Relinked(s, c, Due(s, i), s[i]) == Due(Swapped(s, c), home) && Swapped(s, c)[home] == s[i]
  {
    assert s[c] != s[Parent(c)];
    if i == c {
      ParentSlot(s, c);
    } else if i == Parent(c) {
      ChildSlot(s, c);
    } else {
      FarSlot(s, c, i);
    }
  }

  /** The tree after the swap, from what the swap writes into each node. */
  lemma {:induction false} SwapLinked(s: seq<Timer>, c: nat)
    requires 0 < c < |s| && Distinct(s)
    requires forall i :: 0 <= i < |s| ==> RelinkedAt(s, c, i)
    ensures Linked(Swapped(s, c))
  {
    Placed(s, c);
    Placed(s, Parent(c));
    SwappedNodes(s, c);
    var t := Swapped(s, c);
    forall j | 0 <= j < |s| ensures LinkedAt(t, j) {
      var i := if j == c then Parent(c) else if j == Parent(c) then c else j;
      SwappedLinks(s, c, i);
      assert RelinkedAt(s, c, i);
      assert LinkOf(t[j]) == Due(t, j);
    }
  }

  class Heap {
    var min: Timer?
    var nelts: nat
    ghost var slots: seq<Timer>
    ghost var nodes: set<Timer>

    ghost predicate Shaped()
      reads this, slots`left, slots`right, slots`parent
    {
      nelts == |slots| && min == At(slots, 0) && Linked(slots) && Holds(nodes, slots)
    }

    ghost predicate Valid()
      reads this, slots`left, slots`right, slots`parent, slots`timeout, slots`startId
    {
      Shaped() && Ordered(slots)
    }

    constructor ()
      ensures Valid() && nodes == {} && nelts == 0
    {
      min := null;
      nelts := 0;
      slots := [];
      nodes := {};
    }

    /** The pointer writes of the swap. */
    method Exchange(parent: Timer, child: Timer, ghost n: Around, ghost first: bool)
      requires child != parent && Apart6(parent, child, n)
      requires LinkOf(child) == Link(n.childLeft, n.childRight, parent)
      requires LinkOf(parent) == Link(if first then child else n.sibling, if first then n.sibling else child, n.grand)
      requires n.grand != null ==> n.grand.left == parent || n.grand.right == parent
      modifies this`min, {parent, child}`left, {parent, child}`right, {parent, child}`parent
      modifies Maybe(n.sibling)`parent, Maybe(n.childLeft)`parent, Maybe(n.childRight)`parent
      modifies Maybe(n.grand)`left, Maybe(n.grand)`right
      ensures min == if n.grand == null then child else old(min)
      ensures LinkOf(parent) == Link(n.childLeft, n.childRight, child)
      ensures LinkOf(child) == Link(if first then parent else n.sibling, if first then n.sibling else parent, n.grand)
      ensures n.sibling != null ==> n.sibling.parent == child
      ensures n.childLeft != null ==> n.childLeft.parent == parent
      ensures n.childRight != null ==> n.childRight.parent == parent
      ensures n.grand != null ==>
          if old(n.grand.left) == parent then n.grand.left == child && n.grand.right == old(n.grand.right)
          else n.grand.right == child && n.grand.left == old(n.grand.left)
    {
      parent.left, parent.right, parent.parent, child.left, child.right, child.parent :=
        child.left, child.right, child.parent, parent.left, parent.right, parent.parent;
      parent.parent := child;
      var sibling;
      if child.left == child {
        child.left := parent;
        sibling := child.right;
      } else {
        child.right := parent;
        sibling := child.left;
      }
      if sibling != null {
        sibling.parent := child;
      }
      if parent.left != null {
        parent.left.parent := parent;
      }
      if parent.right != null {
        parent.right.parent := parent;
      }
      if child.parent == null {
        min := child;
      } else if child.parent.left == parent {
        child.parent.left := child;
      } else {
        child.parent.right := child;
      }
    }

    /** What the writes amount to, slot by slot. */
    method ExchangeAt(parent: Timer, child: Timer, ghost c: nat, ghost n: Around)
      requires 0 < c < |slots| && slots[c] == child && slots[Parent(c)] == parent && n == Near(slots, c)
      requires child != parent && Apart6(parent, child, n) && Within(nodes, parent, child, n)
      requires LinkedAt(slots, c) && LinkedAt(slots, Parent(c))
      requires n.grand != null ==> n.grand.left == parent || n.grand.right == parent
      modifies this`min, nodes`left, nodes`right, nodes`parent
      ensures min == if Parent(c) == 0 then child else old(min)
      ensures forall i :: 0 <= i < |slots| && NearRole(slots, c, i) && old(LinkedAt(slots, i)) ==> RelinkedAt(slots, c, i)
    {
      ghost var s, first := slots, c == Left(Parent(c));
      Exchange(parent, child, n, first);
      forall i | 0 <= i < |s| && NearRole(s, c, i) && old(LinkedAt(s, i)) ensures RelinkedAt(s, c, i) {
        assert old(LinkOf(s[i])) == Due(s, i);
      }
    }

    /** heap_node_swap: exchange the child at slot `c` with its parent. */
    method NodeSwap(parent: Timer, child: Timer, ghost c: nat)
      requires Shaped() && 0 < c < |slots| && slots[c] == child && slots[Parent(c)] == parent
      modifies this`min, this`slots, nodes`left, nodes`right, nodes`parent
      ensures Shaped() && slots == Swapped(old(slots), c)
    {
      ghost var s, p := slots, Parent(c);
      assert LinkedAt(s, p) && LinkedAt(s, c);
      assert p > 0 ==> LinkedAt(s, Parent(p)) && (Left(Parent(p)) == p || Right(Parent(p)) == p);
      NearDistinct(s, c);
      NearIn(nodes, s, c);
      ExchangeAt(parent, child, c, Near(s, c));
      forall i | 0 <= i < |s| ensures RelinkedAt(s, c, i) {
        NearIs(s, c, i);
        assert old(LinkedAt(s, i));
      }
      slots := Swapped(s, c);
      SwapLinked(s, c);
      SwappedNodes(s, c);
    }

    /** Walk from the root along the bits of `path`, lowest first, to slot `target`, counted
        from 1.  The result is the place where the last step looks, and the node above it. */
    method Walk(path0: nat, k0: nat, ghost target: nat) returns (above: Place, place: Place)
      requires Shaped() && 1 <= target <= |slots| + 1
      requires path0 == Path(target, k0) && Prefix(target, k0) == 1
      ensures Names(place, slots, target - 1)
      ensures target > 1 ==> Names(above, slots, Parent(target - 1))
      ensures target == 1 ==> above == Root
    {
      var path, k := path0, k0;
      above, place := Root, Root;
      ghost var at := 1;  // the slot that `place` names
      while k > 0
        invariant 1 <= at <= target && at == Prefix(target, k) && path == Path(target, k)
        invariant Names(place, slots, at - 1)
        invariant if at == 1 then above == Root else Names(above, slots, Parent(at - 1))
        decreases k
      {
        PrefixBelow(target, k);
        NamesDeref(place, at - 1);
        var node := Deref(place);
        above := place;
        if path % 2 == 1 {
          place := RightOf(node);
          at := 2 * at + 1;
        } else {
          place := LeftOf(node);
          at := 2 * at;
        }
        path := path / 2;
        k := k - 1;
      }
    }

    /** What a place holds. */
    function Deref(place: Place): Timer?
      reads this, match place case Root => {} case LeftOf(x) => {x} case RightOf(x) => {x}
    {
      match place
      case Root => min
      case LeftOf(x) => x.left
      case RightOf(x) => x.right
    }

    lemma {:induction false} NamesDeref(place: Place, i: nat)
      requires Shaped() && i <= |slots| && Names(place, slots, i)
      ensures place != Root ==> place.node in nodes
      ensures Deref(place) == At(slots, i)
    {
      if i > 0 {
        assert LinkedAt(slots, Parent(i)) && Member(nodes, slots, Parent(i));
      }
    }

    /** heap_insert: put the node in the first free slot of the bottom row, then let it rise. */
    method Insert(node: Timer)
      requires Valid() && node !in nodes && nelts < UINT_MAX
      modifies this, node`left, node`right, node`parent, nodes`left, nodes`right, nodes`parent
      ensures Valid() && nelts == old(nelts) + 1 && nodes == old(nodes) + {node}
    {
      ghost var s := slots;
      NotListed(nodes, slots, node);
      node.left, node.right, node.parent := null, null, null;
      var path, k := ComputePath(nelts + 1);
      var above, place := Walk(path, k, nelts + 1);
      Hang(node, above, place);
      forall i | 0 <= i < |s| ensures OrderedAt(slots, i) {
        assert old(OrderedAt(s, i));
      }
      Rise(node, |s|);
    }

    /** Link a bare node into the place after the last slot. */
    method Hang(node: Timer, above: Place, place: Place)
      requires Shaped() && node !in nodes && LinkOf(node) == Link(null, null, null)
      requires Names(place, slots, |slots|)
      requires if |slots| == 0 then above == Root else Names(above, slots, Parent(|slots|))
      modifies this, node`parent, nodes`left, nodes`right
      ensures Shaped() && slots == old(slots) + [node] && nodes == old(nodes) + {node}
    {
      ghost var s := slots;
      NotListed(nodes, slots, node);
      NamesDeref(place, |s|);
      if |s| > 0 {
        NamesDeref(above, Parent(|s|));
      }
      node.parent := Deref(above);
      match place {
        case Root => min := node;
        case LeftOf(x) => x.left := node;
        case RightOf(x) => x.right := node;
      }
      nelts := nelts + 1;
      slots := slots + [node];
      nodes := nodes + {node};
      Appended(s, node);
      forall i | 0 <= i < |s| ensures LinkedAt(slots, i) {
        assert old(LinkedAt(s, i));
        AppendedSlot(s, node, i);
        PlaceOnly(s, place, i);
      }
      AppendedSlot(s, node, |s|);
      assert LinkedAt(slots, |s|);
    }

    /** Exchange a node with a parent that is above it. */
    method SwapUp(node: Timer, parent: Timer, ghost j: nat)
      requires Shaped() && 0 < j < |slots| && slots[j] == node && slots[Parent(j)] == parent
      requires OrderedButUp(slots, j) && Less(node, parent)
      modifies this`min, this`slots, nodes`left, nodes`right, nodes`parent
      ensures Shaped() && |slots| == old(|slots|) && slots[Parent(j)] == node && OrderedButUp(slots, Parent(j))
    {
      RiseOrdered(slots, j);
      NodeSwap(parent, node, j);
    }

    /** Swap a node upwards until its parent is not above it. */
    method Rise(node: Timer, ghost j0: nat)
      requires Shaped() && j0 < |slots| && slots[j0] == node && OrderedButUp(slots, j0)
      modifies this`min, this`slots, nodes`left, nodes`right, nodes`parent
      ensures Valid() && nelts == old(nelts)
    {
      ghost var j: nat := j0;
      assert LinkedAt(slots, j);
      while node.parent != null && Less(node, node.parent)
        invariant Shaped() && j < |slots| && slots[j] == node && OrderedButUp(slots, j) && LinkedAt(slots, j)
        decreases j
      {
        SwapUp(node, node.parent, j);
        j := Parent(j);
        assert LinkedAt(slots, j);
      }
    }

    /** The smallest of a node and its children. */
    method SmallestOf(node: Timer, ghost j: nat) returns (smallest: Timer, ghost m: nat)
      requires Shaped() && j < |slots| && slots[j] == node
      ensures m < |slots| && slots[m] == smallest && (m == j || m == Left(j) || m == Right(j))
      ensures m != j ==> Less(smallest, node)
      ensures Left(j) < |slots| ==> !Less(slots[Left(j)], smallest)
      ensures Right(j) < |slots| ==> !Less(slots[Right(j)], smallest)
      ensures !Less(node, smallest)
    {
      assert LinkedAt(slots, j);
      smallest, m := node, j;
      if node.left != null && Less(node.left, smallest) {
        smallest, m := node.left, Left(j);
      }
      if node.right != null && Less(node.right, smallest) {
        smallest, m := node.right, Right(j);
      }
    }

    /** Exchange a node with its smallest child. */
    method SwapDown(node: Timer, child: Timer, ghost j: nat, ghost m: nat)
      requires Shaped() && j < m < |slots| && j == Parent(m) && slots[j] == node && slots[m] == child
      requires OrderedBut(slots, j) && Less(child, node)
      requires forall i :: 0 < i < |slots| && Parent(i) == j ==> !Less(slots[i], child)
      modifies this`min, this`slots, nodes`left, nodes`right, nodes`parent
      ensures Shaped() && |slots| == old(|slots|) && slots[m] == node && OrderedBut(slots, m) && OrderedAt(slots, m)
    {
      SinkOrdered(slots, m);
      NodeSwap(node, child, m);
    }

    /** Swap a node downwards until no child is below it, then upwards. */
    method Settle(node: Timer, ghost j0: nat)
      requires Shaped() && j0 < |slots| && slots[j0] == node && OrderedBut(slots, j0)
      modifies this`min, this`slots, nodes`left, nodes`right, nodes`parent
      ensures Valid() && nelts == old(nelts)
    {
      ghost var j: nat := j0;
      while true
        invariant Shaped() && j < |slots| && slots[j] == node && OrderedBut(slots, j)
        decreases |slots| - j
      {
        var smallest;
        ghost var m;
        smallest, m := SmallestOf(node, j);
        ChildrenOf(slots, j, smallest);
        if smallest == node {
          break;
        }
        SwapDown(node, smallest, j, m);
        j := m;
      }
      Rise(node, j);
    }

    /** heap_remove: unlink the last node, put it in the place of the removed one, and let it
        sink and rise. */
    method Remove(node: Timer)
      requires Valid() && node in nodes && nelts <= UINT_MAX
      modifies this, nodes`left, nodes`right, nodes`parent
      ensures Valid() && nelts == old(nelts) - 1 && nodes == old(nodes) - {node}
    {
      ghost var s := slots;
      assert node in s;
      ghost var d: nat :| d < |s| && s[d] == node;
      var child := UnlinkLast();
      if child == node {
        // The root pointer is cleared already if this was the only node.
        return;
      }
      ghost var t := slots;
      assert d < |t| by {
        assert d == |t| ==> child == node;
      }
      Replace(node, child, d);
      ReplacedOrdered(t, d, child);
      Settle(child, d);
    }

    /** Find the last slot by its path and take its node out. */
    method UnlinkLast() returns (child: Timer)
      requires Valid() && 0 < nelts <= UINT_MAX
      modifies this, nodes`left, nodes`right
      ensures Valid() && slots == old(slots)[..|old(slots)| - 1] && child == old(slots)[|old(slots)| - 1]
      ensures nodes == old(nodes) - {child} && child in old(nodes)
    {
      ghost var s := slots;
      var path, k := ComputePath(nelts);
      var _, place := Walk(path, k, nelts);
      child := Unlink(place);
      forall i | 0 <= i < |slots| ensures OrderedAt(slots, i) {
        assert old(OrderedAt(s, i));
      }
    }

    /** Take out the node in the last slot, named by `place`. */
    method Unlink(place: Place) returns (child: Timer)
      requires Shaped() && |slots| > 0 && Names(place, slots, |slots| - 1)
      modifies this, nodes`left, nodes`right
      ensures Shaped() && slots == old(slots)[..|old(slots)| - 1] && child == old(slots)[|old(slots)| - 1]
      ensures nodes == old(nodes) - {child} && child in old(nodes)
    {
      ghost var s, last := slots, |slots| - 1;
      NamesDeref(place, last);
      assert LinkedAt(s, last) && Member(nodes, s, last);
      nelts := nelts - 1;
      child := Deref(place);
      match place {
        case Root => min := null;
        case LeftOf(x) => x.left := null;
        case RightOf(x) => x.right := null;
      }
      slots := s[..last];
      nodes := nodes - {child};
      Dropped(s);
      forall i | 0 <= i < last ensures LinkedAt(slots, i) {
        assert old(LinkedAt(s, i));
        PlaceIn(s, place, i);
      }
    }

    /** Put `child` in the place of the node at slot `d`. */
    method Replace(node: Timer, child: Timer, ghost d: nat)
      requires Shaped() && d < |slots| && slots[d] == node && child !in nodes
      modifies this, child`left, child`right, child`parent, nodes`left, nodes`right, nodes`parent
      ensures Shaped() && slots == old(slots)[d := child] && nodes == old(nodes) - {node} + {child}
      ensures nelts == old(nelts)
    {
      ghost var s := slots;
      NotListed(nodes, s, child);
      Placed(s, d);
      assert LinkedAt(s, d);
      NeighboursIn(nodes, s, d);
      child.left, child.right, child.parent := node.left, node.right, node.parent;
      if child.left != null {
        child.left.parent := child;
      }
      if child.right != null {
        child.right.parent := child;
      }
      if node.parent == null {
        min := child;
      } else if node.parent.left == node {
        node.parent.left := child;
      } else {
        node.parent.right := child;
      }
      slots := s[d := child];
      nodes := nodes - {node} + {child};
      Substituted(s, d, child);
      forall i | 0 <= i < |s| ensures LinkedAt(slots, i) {
        assert old(LinkedAt(s, i));
        SubstitutedSlot(s, d, child, i);
      }
    }
  }

  lemma {:induction false} NeighboursIn(nodes: set<Timer>, s: seq<Timer>, d: nat)
    requires d < |s| && Holds(nodes, s)
    ensures s[d] in nodes && Maybe(At(s, Left(d))) <= nodes && Maybe(At(s, Right(d))) <= nodes && Maybe(Above(s, d)) <= nodes
  {
    assert Member(nodes, s, d);
    assert d > 0 ==> Member(nodes, s, Parent(d));
    assert Left(d) < |s| ==> Member(nodes, s, Left(d));
    assert Right(d) < |s| ==> Member(nodes, s, Right(d));
  }

  lemma {:induction false} Dropped(s: seq<Timer>)
    requires Distinct(s) && |s| > 0
    ensures var t, x := s[..|s| - 1], s[|s| - 1];
      Distinct(t) && forall nodes :: Holds(nodes, s) ==> Holds(nodes - {x}, t)
  {
    var t, x := s[..|s| - 1], s[|s| - 1];
    Placed(s, |s| - 1);
    forall i, j | 0 <= i < j < |t| ensures Apart(t, i, j) {
      assert Apart(s, i, j);
    }
    forall nodes | Holds(nodes, s) ensures Holds(nodes - {x}, t) {
      forall i | 0 <= i < |t| ensures Member(nodes - {x}, t, i) {
        assert Member(nodes, s, i);
      }
      forall y | y in nodes - {x} ensures y in t {
        assert y in s;
        var i :| 0 <= i < |s| && s[i] == y;
        assert t[i] == y;
      }
    }
  }

  /** The place of the last slot is in one node only. */
  lemma {:induction false} PlaceIn(s: seq<Timer>, place: Place, i: nat)
    requires Distinct(s) && i < |s| - 1 && Names(place, s, |s| - 1)
    ensures Left(i) == |s| - 1 <==> place == LeftOf(s[i])
    ensures Right(i) == |s| - 1 <==> place == RightOf(s[i])
    ensures var d := Due(s[..|s| - 1], i);
      d == Link(if Left(i) == |s| - 1 then null else At(s, Left(i)), if Right(i) == |s| - 1 then null else At(s, Right(i)), Above(s, i))
  {
    Placed(s, i);
    if |s| > 1 {
      Placed(s, Parent(|s| - 1));
    }
    assert Left(i) == |s| - 1 || Right(i) == |s| - 1 ==> i == Parent(|s| - 1);
  }

  lemma {:induction false} Substituted(s: seq<Timer>, d: nat, x: Timer)
    requires Distinct(s) && d < |s| && x !in s
    ensures var t := s[d := x];
      Distinct(t) && forall nodes :: Holds(nodes, s) ==> Holds(nodes - {s[d]} + {x}, t)
  {
    var t := s[d := x];
    Placed(s, d);
    forall i, j | 0 <= i < j < |t| ensures Apart(t, i, j) {
      assert Apart(s, i, j);
    }
    forall nodes | Holds(nodes, s) ensures Holds(nodes - {s[d]} + {x}, t) {
      forall i | 0 <= i < |t| ensures Member(nodes - {s[d]} + {x}, t, i) {
        assert Member(nodes, s, i);
      }
      forall y | y in nodes - {s[d]} + {x} ensures y in t {
        if y == x {
          assert t[d] == y;
        } else {
          assert y in s;
          var i :| 0 <= i < |s| && s[i] == y;
          assert t[i] == y;
        }
      }
    }
  }

  /** The links due in a tree with another node at slot `d`. */
  lemma {:induction false} SubstitutedSlot(s: seq<Timer>, d: nat, x: Timer, i: nat)
    requires Distinct(s) && d < |s| && i < |s|
    ensures var b, t := Due(s, i), s[d := x];
      && Due(t, i) == Link(if b.left == s[d] then x else b.left, if b.right == s[d] then x else b.right, if b.parent == s[d] then x else b.parent)
      && (b.left == s[d] || b.right == s[d] <==> s[i] == Above(s, d))
      && !(b.left == s[d] && b.right == s[d])
      && (b.parent == s[d] <==> s[i] == At(s, Left(d)) || s[i] == At(s, Right(d)))
      && (i == d ==> b.left != s[d] && b.right != s[d] && b.parent != s[d])
      && (s[i] == s[d] <==> i == d)
  {
    Placed(s, d);
    Placed(s, i);
    assert d > 0 ==> (Parent(d) == i <==> Left(i) == d || Right(i) == d);
    assert i > 0 ==> (Parent(i) == d <==> i == Left(d) || i == Right(d));
  }

  // ----- The root -----

  /** Nothing in an ordered tree is below its root. */
  lemma {:induction false} RootIsLeast(s: seq<Timer>, i: nat)
    requires Ordered(s) && i < |s|
    ensures s[0].timeout < s[i].timeout || (s[0].timeout == s[i].timeout && s[0].startId <= s[i].startId)
  {
    if i > 0 {
      assert OrderedAt(s, i);
      RootIsLeast(s, Parent(i));
    }
  }

  // ----- Order under a swap -----

  /** Rising past a parent that is above keeps everything else in order. */
  lemma {:induction false} RiseOrdered(s: seq<Timer>, j: nat)
    requires 0 < j < |s| && OrderedButUp(s, j) && Less(s[j], s[Parent(j)])
    ensures OrderedButUp(Swapped(s, j), Parent(j))
  {
    var t, p := Swapped(s, j), Parent(j);
    forall i | 0 < i < |s| && i != p ensures OrderedAt(t, i) {
      assert i != j ==> OrderedAt(s, i);
      assert Parent(i) == j ==> !Less(s[i], s[p]);
    }
    forall i | 0 < i < |s| && p > 0 && Parent(i) == p ensures !Less(t[i], t[Parent(p)]) {
      assert OrderedAt(s, p);
      assert i != j ==> OrderedAt(s, i);
    }
  }

  /** Sinking below its smallest child keeps everything else in order. */
  lemma {:induction false} SinkOrdered(s: seq<Timer>, m: nat)
    requires 0 < m < |s| && OrderedBut(s, Parent(m)) && Less(s[m], s[Parent(m)])
    requires forall i :: 0 < i < |s| && Parent(i) == Parent(m) ==> !Less(s[i], s[m])
    ensures OrderedBut(Swapped(s, m), m) && OrderedAt(Swapped(s, m), m)
  {
    var t, j := Swapped(s, m), Parent(m);
    forall i | 0 < i < |s| && i != m && Parent(i) != m ensures OrderedAt(t, i) {
      assert i != j && Parent(i) != j ==> OrderedAt(s, i);
    }
    forall i | 0 < i < |s| && Parent(i) == m ensures !Less(t[i], t[j]) {
      assert OrderedAt(s, i);
    }
  }

  lemma {:induction false} ReplacedOrdered(s: seq<Timer>, d: nat, x: Timer)
    requires Ordered(s) && d < |s|
    ensures OrderedBut(s[d := x], d)
  {
    var t := s[d := x];
    forall i | 0 < i < |s| && i != d && Parent(i) != d ensures OrderedAt(t, i) {
      assert OrderedAt(s, i);
    }
    forall i | 0 < i < |s| && d > 0 && Parent(i) == d ensures !Less(t[i], t[Parent(d)]) {
      assert OrderedAt(s, i) && OrderedAt(s, d);
    }
  }

  /** A node that is not above its children is in order with them. */
  lemma {:induction false} ChildrenOf(s: seq<Timer>, j: nat, smallest: Timer)
    requires j < |s| && OrderedBut(s, j)
    requires Left(j) < |s| ==> !Less(s[Left(j)], smallest)
    requires Right(j) < |s| ==> !Less(s[Right(j)], smallest)
    ensures forall i :: 0 < i < |s| && Parent(i) == j ==> !Less(s[i], smallest)
    ensures smallest == s[j] ==> OrderedButUp(s, j)
  {
    forall i | 0 < i < |s| && Parent(i) == j ensures !Less(s[i], smallest) {
      assert i == Left(j) || i == Right(j);
    }
    if smallest == s[j] {
      forall i | 0 <= i < |s| && i != j ensures OrderedAt(s, i) {
        assert i > 0 && Parent(i) != j ==> OrderedAt(s, i);
      }
    }
  }

  /** The place after the last slot is in one node only, and was empty. */
  lemma {:induction false} PlaceOnly(s: seq<Timer>, place: Place, i: nat)
    requires Distinct(s) && i < |s| && Names(place, s, |s|)
    ensures Left(i) == |s| <==> place == LeftOf(s[i])
    ensures Right(i) == |s| <==> place == RightOf(s[i])
  {
    Placed(s, i);
    Placed(s, Parent(|s|));
    assert Left(i) == |s| || Right(i) == |s| ==> i == Parent(|s|);
  }

  lemma {:induction false} Appended(s: seq<Timer>, x: Timer)
    requires Distinct(s) && x !in s
    ensures Distinct(s + [x]) && forall nodes :: Holds(nodes, s) ==> Holds(nodes + {x}, s + [x])
  {
    var t := s + [x];
    forall i, j | 0 <= i < j < |t| ensures Apart(t, i, j) {
      assert j < |s| ==> Apart(s, i, j);
    }
    forall nodes | Holds(nodes, s) ensures Holds(nodes + {x}, t) {
      forall i | 0 <= i < |t| ensures Member(nodes + {x}, t, i) {
        assert i < |s| ==> Member(nodes, s, i);
      }
    }
  }

  lemma {:induction false} NotListed(nodes: set<Timer>, s: seq<Timer>, x: Timer)
    requires Holds(nodes, s) && x !in nodes
    ensures x !in s
  {
    forall i | 0 <= i < |s| ensures s[i] != x {
      assert Member(nodes, s, i);
    }
  }

  /** The links due in a tree with one more slot. */
  lemma {:induction false} AppendedSlot(s: seq<Timer>, x: Timer, i: nat)
    requires i <= |s|
    ensures var d := Due(s + [x], i);
      && (i == |s| ==> d == Link(null, null, if i == 0 then null else s[Parent(i)]))
      && (i < |s| ==> d == Link(if Left(i) == |s| then x else At(s, Left(i)), if Right(i) == |s| then x else At(s, Right(i)), Above(s, i)))
  {
  }

  // ----- The path to a slot -----

  /** A location that can hold a node: the root pointer or a child pointer. */
  datatype Place = Root | LeftOf(node: Timer) | RightOf(node: Timer)

  /** `place` is the location of slot `i` of the tree `s`. */
  ghost predicate Names(place: Place, s: seq<Timer>, i: nat) {
    if i == 0 then place == Root
    else Parent(i) < |s| && place == if i == Left(Parent(i)) then LeftOf(s[Parent(i)]) else RightOf(s[Parent(i)])
  }

  /** `n` without its lowest `k` bits. */
  function Prefix(n: nat, k: nat): nat {
    if k == 0 then n else Prefix(n, k - 1) / 2
  }

  /** The lowest `k` bits of `n`, in reverse. */
  function Path(n: nat, k: nat): nat {
    if k == 0 then 0 else 2 * Path(n, k - 1) + Prefix(n, k - 1) % 2
  }

  lemma {:induction false} PrefixBelow(n: nat, k: nat)
    requires k > 0 && Prefix(n, k) >= 1
    ensures Prefix(n, k) < Prefix(n, k - 1) <= n
    ensures Prefix(n, k - 1) == 2 * Prefix(n, k) + Path(n, k) % 2 && Path(n, k) / 2 == Path(n, k - 1)
  {
    PrefixAtMost(n, k - 1);
  }

  lemma {:induction false} PrefixAtMost(n: nat, k: nat)
    ensures Prefix(n, k) <= n
  {
    if k > 0 {
      PrefixAtMost(n, k - 1);
    }
  }

  lemma {:induction false} PathFits(n: nat, k: nat)
    ensures Path(n, k) < Pow2(k) && Prefix(n, k) * Pow2(k) <= n
  {
    if k > 0 {
      PathFits(n, k - 1);
    }
  }

  const UINT_MAX: nat := 0xffff_ffff

  /** The loop that turns a slot number into the path from the root to it.  Nothing is lost
      to the width of an unsigned int. */
  method ComputePath(target: nat) returns (path: nat, k: nat)
    requires 1 <= target <= UINT_MAX
    ensures path == Path(target, k) && Prefix(target, k) == 1 && path <= UINT_MAX
  {
    path, k := 0, 0;
    var n := target;
    while n >= 2
      invariant n == Prefix(target, k) && path == Path(target, k) && n >= 1
    {
      path := 2 * path + n % 2;
      k := k + 1;
      n := n / 2;
    }
    PathFits(target, k);
  }

  /** The pair and the nodes around it are all different. */
  ghost predicate Apart6(parent: Timer, child: Timer, n: Around) {
    && n.grand != child && n.grand != parent
    && n.sibling != child && n.sibling != parent && (n.sibling != null ==> n.sibling != n.grand)
    && n.childLeft != child && n.childLeft != parent
    && (n.childLeft != null ==> n.childLeft != n.grand && n.childLeft != n.sibling && n.childLeft != n.childRight)
    && n.childRight != child && n.childRight != parent
    && (n.childRight != null ==> n.childRight != n.grand && n.childRight != n.sibling)
  }

  /** A set of at most one node. */
  ghost function Maybe(x: Timer?): set<Timer> {
    if x == null then {} else {x}
  }

  /** The nodes around a parent and its child at slot `c`. */
  datatype Around = Around(grand: Timer?, sibling: Timer?, childLeft: Timer?, childRight: Timer?)

  ghost function Near(s: seq<Timer>, c: nat): Around
    requires 0 < c < |s|
  {
    var p := Parent(c);
    Around(Above(s, p), At(s, if c == Left(p) then Right(p) else Left(p)), At(s, Left(c)), At(s, Right(c)))
  }

  lemma {:induction false} NearDistinct(s: seq<Timer>, c: nat)
    requires 0 < c < |s| && Distinct(s)
    ensures s[c] != s[Parent(c)] && Apart6(s[Parent(c)], s[c], Near(s, c))
  {
    var p := Parent(c);
    Placed(s, c);
    Placed(s, p);
    assert p < c && c < Left(c) < Right(c);
    assert p > 0 ==> Parent(p) < p;
    assert p < Left(p) < Right(p) < Left(c);
    assert forall i, j :: 0 <= i < j < |s| ==> Apart(s, i, j);
    if p > 0 {
      Placed(s, Parent(p));
    }
    var q := if c == Left(p) then Right(p) else Left(p);
    if q < |s| {
      Placed(s, q);
    }
    if Left(c) < |s| {
      Placed(s, Left(c));
    }
  }

  ghost predicate Within(nodes: set<Timer>, parent: Timer, child: Timer, n: Around) {
    && {child, parent} <= nodes && Maybe(n.grand) <= nodes && Maybe(n.sibling) <= nodes
    && Maybe(n.childLeft) <= nodes && Maybe(n.childRight) <= nodes
  }

  /** Which nodes point at the pair, by their slots. */
  ghost predicate NearRole(s: seq<Timer>, c: nat, i: nat)
    requires 0 < c < |s| && i < |s|
  {
    var n, d, p := Near(s, c), Due(s, i), Parent(c);
    && (d.left == s[p] || d.right == s[p] <==> s[i] == n.grand)
    && !(d.left == s[p] && d.right == s[p])
    && (d.parent == s[p] <==> s[i] == s[c] || s[i] == n.sibling)
    && (d.parent == s[c] <==> s[i] == n.childLeft || s[i] == n.childRight)
  }

  lemma {:induction false} NearIn(nodes: set<Timer>, s: seq<Timer>, c: nat)
    requires 0 < c < |s| && Holds(nodes, s)
    ensures Within(nodes, s[Parent(c)], s[c], Near(s, c))
  {
    var p := Parent(c);
    assert Member(nodes, s, c) && Member(nodes, s, p);
    assert p > 0 ==> Member(nodes, s, Parent(p));
    assert Left(c) < |s| ==> Member(nodes, s, Left(c));
    assert Right(c) < |s| ==> Member(nodes, s, Right(c));
    assert Left(p) < |s| ==> Member(nodes, s, Left(p));
    assert Right(p) < |s| ==> Member(nodes, s, Right(p));
  }

  lemma {:induction false} NearIs(s: seq<Timer>, c: nat, i: nat)
    requires 0 < c < |s| && i < |s| && Distinct(s)
    ensures NearRole(s, c, i)
  {
    var p := Parent(c);
    Placed(s, p);
    Placed(s, c);
    Placed(s, i);
    assert p > 0 ==> (Parent(p) == i <==> Left(i) == p || Right(i) == p);
    assert i > 0 ==> (Parent(i) == p <==> i == Left(p) || i == Right(p));
    assert i > 0 ==> (Parent(i) == c <==> i == Left(c) || i == Right(c));
  }
}
