/** The memtable's skip list: one writer, which links a node level by level with single stores, and
    readers that run at any time. */
module SkipLists {

  const MAX_HEIGHT: nat := 12

  class Node {
    const key: int
    var next: seq<Node?>

    constructor (key: int, height: nat)
      ensures this.key == key && |next| == height
      ensures forall l :: 0 <= l < height ==> next[l] == null
    {
      this.key := key;
      next := seq(height, _ => null);
    }
  }

  class SkipList {
    const head: Node
    var maxHeight: nat
    /** All nodes that can be reached, with the head. */
    ghost var nodes: set<Node>
    /** The nodes of each level in list order, from the head on. */
    ghost var chains: seq<seq<Node>>

    /** The order of the list: the head comes before all keys. */
    predicate Before(a: Node, b: Node) {
      b != head && (a == head || a.key < b.key)
    }

    ghost predicate Ascending(c: seq<Node>) {
      forall i, j {:trigger Before(c[i], c[j])} :: 0 <= i < j < |c| ==> Before(c[i], c[j])
    }

    ghost function Successor(c: seq<Node>, i: nat): Node?
      requires i < |c|
    {
      if i + 1 < |c| then c[i + 1] else null
    }

    /** Following the links of level `l` from the head visits exactly `c`. */
    ghost predicate Linked(c: seq<Node>, l: nat)
      reads nodes, `nodes
    {
      && |c| > 0 && c[0] == head
      && (forall n <- c :: n in nodes && l < |n.next|)
      && (forall i {:trigger Successor(c, i)} :: 0 <= i < |c| ==> c[i].next[l] == Successor(c, i))
    }

    /** Level `l` has only nodes of the level below. */
    ghost predicate Nested(l: nat)
      requires 0 < l < |chains|
      reads `chains
    {
      forall n <- chains[l] :: n in chains[l - 1]
    }

    ghost predicate Valid()
      reads this, nodes
    {
      && 1 <= maxHeight <= MAX_HEIGHT == |chains|
      && head in nodes
      && (forall l :: 0 <= l < MAX_HEIGHT ==> Linked(chains[l], l))
      && (forall l :: 0 <= l < MAX_HEIGHT ==> Ascending(chains[l]))
      && (forall l :: 0 < l < MAX_HEIGHT ==> Nested(l))
      && (forall l :: maxHeight <= l < MAX_HEIGHT ==> chains[l] == [head])
    }

    ghost function Keys(): set<int>
      requires |chains| > 0
      reads `chains
    {
      set n | n in chains[0] && n != head :: n.key
    }

    /** Position `j` of level `l` is the last one before `key`. */
    ghost predicate Splits(l: nat, j: nat, key: int)
      requires l < |chains|
      reads `chains
    {
      && j < |chains[l]|
      && (chains[l][j] == head || chains[l][j].key < key)
      && (j + 1 < |chains[l]| ==> key <= chains[l][j + 1].key)
    }

    /** `r` is the earliest node at or after `key`. */
    ghost predicate Lands(r: Node?, key: int)
      requires |chains| > 0
      reads `chains
    {
      && (r != null ==> r in chains[0] && r != head && key <= r.key)
      && (forall n :: n in chains[0] && n != head && key <= n.key ==> r != null && r.key <= n.key)
    }

    constructor ()
      ensures Valid() && Keys() == {} && fresh(nodes)
    {
      head := new Node(0, MAX_HEIGHT);
      maxHeight := 1;
      new;
      nodes := {head};
      chains := seq(MAX_HEIGHT, _ => [head]);
    }

    lemma {:induction false} SplitLands(j: nat, key: int)
      requires Valid() && Splits(0, j, key)
      ensures Lands(Successor(chains[0], j), key)
    {
      var c := chains[0];
      var r := Successor(c, j);
      assert Linked(c, 0) && Ascending(c);
      if j + 1 < |c| {
        assert Before(c[j], c[j + 1]);
      }
      assert forall i :: 0 <= i < j ==> Before(c[i], c[j]);
      forall n | n in c && n != head && key <= n.key
        ensures r != null && r.key <= n.key
      {
        var i :| 0 <= i < |c| && c[i] == n;
        if i > j + 1 {
          assert Before(c[j + 1], c[i]);
        }
      }
    }

    /** The earliest node at or after `key`, and the last node before `key` on each level. */
    method FindGreaterOrEqual(key: int) returns (r: Node?, prev: seq<Node>, ghost at: seq<nat>)
      requires Valid()
      ensures Lands(r, key)
      ensures |prev| == |at| == maxHeight
      ensures forall l :: 0 <= l < maxHeight ==> Splits(l, at[l], key) && prev[l] == chains[l][at[l]]
    {
      var x := head;
      var level := maxHeight - 1;
      prev := seq(maxHeight, _ => head);
      at := seq(maxHeight, _ => 0);
      ghost var j: nat := 0;
      while true
        invariant 0 <= level < maxHeight == |prev| == |at|
        invariant j < |chains[level]| && chains[level][j] == x
        invariant x == head || x.key < key
        invariant forall l :: level < l < maxHeight ==> Splits(l, at[l], key) && prev[l] == chains[l][at[l]]
        decreases level, |chains[level]| - j
      {
        var next := Next(x, level, j);
        if next != null && next.key < key {
          x := next;
          j := j + 1;
          assert chains[level][j] == x;
        } else {
          prev := prev[level := x];
          at := at[level := j];
          if level == 0 {
            SplitLands(j, key);
            return next, prev, at;
          }
          j := Down(level, j);
          level := level - 1;
        }
      }
    }

    /** The last node before `key`, or the head. */
    method FindLessThan(key: int) returns (r: Node, ghost j: nat)
      requires Valid()
      ensures Splits(0, j, key) && r == chains[0][j]
    {
      r := head;
      var level := maxHeight - 1;
      j := 0;
      while true
        invariant 0 <= level < maxHeight
        invariant j < |chains[level]| && chains[level][j] == r
        invariant r == head || r.key < key
        decreases level, |chains[level]| - j
      {
        var next := Next(r, level, j);
        if next == null || next.key >= key {
          if level == 0 {
            return;
          }
          j := Down(level, j);
          level := level - 1;
        } else {
          r := next;
          j := j + 1;
          assert chains[level][j] == r;
        }
      }
    }

    /** The last node of the list, or the head. */
    method FindLast() returns (r: Node)
      requires Valid()
      ensures r == chains[0][|chains[0]| - 1]
    {
      r := head;
      var level := maxHeight - 1;
      ghost var j: nat := 0;
      while true
        invariant 0 <= level < maxHeight
        invariant j < |chains[level]| && chains[level][j] == r
        decreases level, |chains[level]| - j
      {
        var next := Next(r, level, j);
        if next == null {
          if level == 0 {
            return;
          }
          j := Down(level, j);
          level := level - 1;
        } else {
          r := next;
          j := j + 1;
          assert chains[level][j] == r;
        }
      }
    }

    method Contains(key: int) returns (found: bool)
      requires Valid()
      ensures found == (key in Keys())
    {
      var x, _, _ := FindGreaterOrEqual(key);
      found := x != null && x.key == key;
    }

    // ----- The single stores of an insertion -----

    /** Store the new height. */
    method Raise(height: nat)
      requires Valid() && maxHeight <= height <= MAX_HEIGHT
      modifies `maxHeight
      ensures Valid() && maxHeight == height
    {
      maxHeight := height;
    }

    /** `x` may come right after position `j` of level `l`. */
    ghost predicate Place(x: Node, l: nat, j: nat)
      requires l < |chains|
      reads `chains
    {
      && j < |chains[l]| && x != head
      && x !in chains[l]
      && (l > 0 ==> x in chains[l - 1])
      && Before(chains[l][j], x)
      && (j + 1 < |chains[l]| ==> Before(x, chains[l][j + 1]))
    }

    /** Store a link of a node on a level that does not have the node yet. */
    method Prepare(x: Node, l: nat, p: Node)
      requires Valid() && l < MAX_HEIGHT && x !in chains[l] && l < |x.next| && p in chains[l]
      requires forall m :: l < m < MAX_HEIGHT ==> x !in chains[m]
      modifies x`next
      ensures Valid()
      ensures |x.next| == old(|x.next|) && l < |p.next| && x.next[l] == p.next[l]
      ensures forall m :: 0 <= m < |x.next| && m != l ==> x.next[m] == old(x.next[m])
    {
      assert Linked(chains[l], l);
      x.next := x.next[l := p.next[l]];
      forall m | 0 <= m < MAX_HEIGHT
        ensures Linked(chains[m], m)
      {
        var c := chains[m];
        assert old(Linked(c, m));
        forall i {:trigger Successor(c, i)} | 0 <= i < |c|
          ensures c[i].next[m] == Successor(c, i)
        {
          assert old(c[i].next[m]) == Successor(c, i);
          assert c[i] in c;
        }
      }
    }

    /** Store the link that makes a node part of a level. */
    method Publish(x: Node, l: nat, p: Node, ghost j: nat)
      requires Valid() && l < maxHeight && Place(x, l, j)
      requires p == chains[l][j] && l < |x.next| && l < |p.next| && x.next[l] == p.next[l]
      modifies p`next, `nodes, `chains
      ensures Valid() && nodes == old(nodes) + {x}
      ensures chains == old(chains)[l := With(old(chains[l]), j, x)]
    {
      ghost var was := chains[l];
      InsertAscending(was, j, x);
      WithMembers(was, j, x);
      StoreLink(x, l, p, j);
      chains := chains[l := With(was, j, x)];
      forall m | 0 < m < MAX_HEIGHT
        ensures Nested(m)
      {
        assert old(Nested(m));
      }
    }

    method StoreLink(x: Node, l: nat, p: Node, ghost j: nat)
      requires Valid() && l < MAX_HEIGHT && Place(x, l, j)
      requires p == chains[l][j] && l < |x.next| && l < |p.next| && x.next[l] == p.next[l]
      modifies p`next, `nodes
      ensures nodes == old(nodes) + {x}
      ensures Linked(With(chains[l], j, x), l)
      ensures forall m :: 0 <= m < MAX_HEIGHT && m != l ==> Linked(chains[m], m)
    {
      ghost var was := chains[l];
      assert Linked(was, l);
      assert p.next[l] == Successor(was, j);
      WithMembers(was, j, x);
      p.next := p.next[l := x];
      nodes := nodes + {x};
      assert Linked(With(was, j, x), l) by {
        assert Ascending(was);
        assert forall i :: 0 <= i < j ==> Before(was[i], was[j]);
        assert forall i :: j < i < |was| ==> Before(was[j], was[i]);
        forall i {:trigger Successor(was, i)} | 0 <= i < |was| && i != j
          ensures was[i].next[l] == Successor(was, i)
        {
          assert old(was[i].next[l] == Successor(was, i));
        }
        InsertLinked(was, j, x, l);
      }
      forall m | 0 <= m < MAX_HEIGHT && m != l
        ensures Linked(chains[m], m)
      {
        var c := chains[m];
        assert old(Linked(c, m));
        forall i {:trigger Successor(c, i)} | 0 <= i < |c|
          ensures c[i].next[m] == Successor(c, i)
        {
          assert old(c[i].next[m]) == Successor(c, i);
          assert c[i] in c;
        }
      }
    }

    ghost function With(c: seq<Node>, j: nat, x: Node): seq<Node>
      requires j < |c|
    {
      c[..j + 1] + [x] + c[j + 1..]
    }

    lemma {:induction false} WithMembers(c: seq<Node>, j: nat, x: Node)
      requires j < |c|
      ensures forall n :: n in With(c, j, x) <==> n in c || n == x
    {
      assert forall n :: n in c <==> n in c[..j + 1] || n in c[j + 1..] by {
        assert c == c[..j + 1] + c[j + 1..];
      }
    }

    lemma {:induction false} InsertAscending(c: seq<Node>, j: nat, x: Node)
      requires Ascending(c) && j < |c| && Before(c[j], x) && (j + 1 < |c| ==> Before(x, c[j + 1]))
      ensures Ascending(With(c, j, x))
    {
      var r := With(c, j, x);
      assert forall i :: 0 <= i < j ==> Before(c[i], c[j]);
      assert forall i :: j + 1 < i < |c| ==> Before(c[j + 1], c[i]);
      forall a, b | 0 <= a < b < |r|
        ensures Before(r[a], r[b])
      {
        var a', b' := if a <= j then a else a - 1, if b <= j then b else b - 1;
        if a != j + 1 && b != j + 1 {
          assert Before(c[a'], c[b']);
        }
      }
    }

    lemma {:induction false} InsertLinked(c: seq<Node>, j: nat, x: Node, l: nat)
      requires |c| > 0 && c[0] == head && j < |c|
      requires forall n <- With(c, j, x) :: n in nodes && l < |n.next|
      requires forall i {:trigger Successor(c, i)} :: 0 <= i < |c| && i != j ==> c[i].next[l] == Successor(c, i)
      requires c[j].next[l] == x && x.next[l] == Successor(c, j)
      ensures Linked(With(c, j, x), l)
    {
      var r := With(c, j, x);
      forall i | 0 <= i < |r|
        ensures r[i].next[l] == Successor(r, i)
      {
        if i < j {
          assert r[i] == c[i] && r[i + 1] == c[i + 1] && c[i].next[l] == Successor(c, i);
        } else if i == j {
          assert r[i] == c[i] && r[i + 1] == x;
        } else if i == j + 1 {
          assert r[i] == x && (i + 1 < |r| ==> r[i + 1] == c[i]);
        } else {
          assert r[i] == c[i - 1] && (i + 1 < |r| ==> r[i + 1] == c[i]) && c[i - 1].next[l] == Successor(c, i - 1);
        }
      }
    }

    /** The place of a node on the level below. */
    lemma {:induction false} Down(l: nat, j: nat) returns (k: nat)
      requires Valid() && 0 < l < MAX_HEIGHT && j < |chains[l]|
      ensures k < |chains[l - 1]| && chains[l - 1][k] == chains[l][j]
    {
      assert Nested(l) && chains[l][j] in chains[l];
      k :| 0 <= k < |chains[l - 1]| && chains[l - 1][k] == chains[l][j];
    }

    /** One load of a link. */
    method Next(x: Node, l: nat, ghost j: nat) returns (next: Node?)
      requires Valid() && l < MAX_HEIGHT && j < |chains[l]| && chains[l][j] == x
      ensures next == Successor(chains[l], j)
    {
      assert Linked(chains[l], l);
      next := x.next[l];
      assert next == Successor(chains[l], j);
    }

    // ----- Insertion -----

    lemma {:induction false} OnBottom(l: nat, n: Node)
      requires Valid() && l < MAX_HEIGHT && n in chains[l]
      ensures n in chains[0]
    {
      if l > 0 {
        assert Nested(l);
        OnBottom(l - 1, n);
      }
    }

    /** `x` is on the levels below `i`, and `prev` says after which nodes it belongs on the others. */
    ghost predicate Linking(x: Node, height: nat, prev: seq<Node>, at: seq<nat>, i: nat)
      requires |chains| == MAX_HEIGHT
      reads `chains
    {
      && x != head && i <= height <= MAX_HEIGHT && height <= |prev| && height <= |at|
      && (forall l :: 0 <= l < i ==> x in chains[l])
      && (forall l :: i <= l < MAX_HEIGHT ==> x !in chains[l])
      && (forall l :: i <= l < height ==> at[l] < |chains[l]| && prev[l] == chains[l][at[l]])
      && (forall l :: i <= l < height ==> Fits(x, l, at[l]))
    }

    ghost predicate Fits(x: Node, l: nat, j: nat)
      requires l < |chains| && j < |chains[l]|
      reads `chains
    {
      && Before(chains[l][j], x)
      && (j + 1 < |chains[l]| ==> Before(x, chains[l][j + 1]))
    }

    /** The first part of an insertion: find the place, raise the height, make the node. */
    method Locate(key: int, height: nat) returns (x: Node, prev: seq<Node>, ghost at: seq<nat>)
      requires Valid() && key !in Keys() && 1 <= height <= MAX_HEIGHT
      modifies `maxHeight
      ensures Valid() && height <= maxHeight
      ensures fresh(x) && x.key == key && |x.next| == height
      ensures Linking(x, height, prev, at, 0)
    {
      var y;
      y, prev, at := FindGreaterOrEqual(key);
      ghost var known := maxHeight;
      if height > maxHeight {
        prev := prev + seq(height - maxHeight, _ => head);
        at := at + seq(height - maxHeight, _ => 0);
        Raise(height);
      }
      x := new Node(key, height);
      forall l | 0 <= l < MAX_HEIGHT
        ensures x !in chains[l]
      {
        assert Linked(chains[l], l);
      }
      forall l | 0 <= l < height
        ensures at[l] < |chains[l]| && prev[l] == chains[l][at[l]] && Fits(x, l, at[l])
      {
        if l < known {
          assert Splits(l, at[l], key);
          if at[l] + 1 < |chains[l]| {
            OnBottom(l, chains[l][at[l] + 1]);
            assert Ascending(chains[l]) && Before(chains[l][at[l]], chains[l][at[l] + 1]);
          }
        } else {
          assert chains[l] == [head];
        }
      }
    }

    method Insert(key: int, height: nat)
      requires Valid() && key !in Keys() && 1 <= height <= MAX_HEIGHT
      modifies this, nodes
      ensures Valid() && fresh(nodes - old(nodes))
      ensures Keys() == old(Keys()) + {key}
    {
      var x, prev, at := Locate(key, height);
      var i := 0;
      while i < height
        invariant Valid() && height <= maxHeight && |x.next| == height
        invariant Linking(x, height, prev, at, i)
        invariant nodes == old(nodes) + if i == 0 then {} else {x}
        invariant Keys() == old(Keys()) + if i == 0 then {} else {key}
      {
        Prepare(x, i, prev[i]);
        PublishNext(x, height, prev, at, i);
        i := i + 1;
      }
    }

    /** Publish a node on its next level. */
    method PublishNext(x: Node, height: nat, prev: seq<Node>, ghost at: seq<nat>, i: nat)
      requires Valid() && height <= maxHeight && i < height == |x.next|
      requires Linking(x, height, prev, at, i)
      requires i < |prev[i].next| && x.next[i] == prev[i].next[i]
      modifies {prev[i]}, `nodes, `chains
      ensures Valid() && nodes == old(nodes) + {x}
      ensures |x.next| == height
      ensures Linking(x, height, prev, at, i + 1)
      ensures Keys() == old(Keys()) + {x.key}
      ensures Grown(old(chains))
    {
      Publish(x, i, prev[i], at[i]);
      WithMembers(old(chains[i]), at[i], x);
    }

    /** No node has left a level. */
    ghost predicate Grown(was: seq<seq<Node>>)
      requires |was| == |chains|
      reads `chains
    {
      forall l :: 0 <= l < |was| ==> forall n <- was[l] :: n in chains[l]
    }

    lemma {:induction false} GrownKeys(was: seq<seq<Node>>)
      requires |was| == |chains| > 0 && Grown(was)
      ensures forall n <- was[0] :: n != head ==> n.key in Keys()
    {
    }
  }

  /** A key to insert, with the height that was drawn for it. */
  datatype Task = Task(key: int, height: nat)

  /** The thread that inserts. One step is one store that other threads can see. */
  class Writer {
    const list: SkipList
    var pending: seq<Task>
    var x: Node?
    var prev: seq<Node>
    ghost var at: seq<nat>
    var i: nat
    var prepared: bool

    ghost predicate Wanted(tasks: seq<Task>)
      requires |list.chains| > 0
      reads list`chains
    {
      && (forall t <- tasks :: 1 <= t.height <= MAX_HEIGHT && t.key !in list.Keys())
      && (forall a, b :: 0 <= a < b < |tasks| ==> tasks[a].key != tasks[b].key)
    }

    ghost predicate Valid()
      reads this, list, list.nodes, x
    {
      && list.Valid() && Wanted(pending)
      && (x != null ==>
            && i < |x.next| <= list.maxHeight
            && list.Linking(x, |x.next|, prev, at, i)
            && (i == 0 ==> x.key !in list.Keys())
            && (forall t <- pending :: t.key != x.key)
            && (prepared ==> i < |prev[i].next| && x.next[i] == prev[i].next[i]))
    }

    constructor (list: SkipList, pending: seq<Task>)
      requires list.Valid()
      requires forall t <- pending :: 1 <= t.height <= MAX_HEIGHT && t.key !in list.Keys()
      requires forall a, b :: 0 <= a < b < |pending| ==> pending[a].key != pending[b].key
      ensures Valid() && this.list == list && this.pending == pending && x == null
    {
      this.list, this.pending, x, prev, at, i, prepared := list, pending, null, [], [], 0, false;
    }

    ghost function Frame(): set<object>
      reads this, list
    {
      {this, list} + list.nodes + if x == null then {} else {x}
    }

    lemma {:induction false} ListValid()
      requires Valid()
      ensures list.Valid()
    {
    }

    /** The stores that are left. */
    ghost function Work(): nat
      requires Valid()
      reads this, list, list.nodes, x
    {
      Cost(pending) + if x == null then 0 else 2 * (|x.next| - i) - if prepared then 1 else 0
    }

    static ghost function Cost(tasks: seq<Task>): nat {
      if |tasks| == 0 then 0 else 2 * tasks[0].height + 1 + Cost(tasks[1..])
    }

    lemma {:induction false} WantedTail(tasks: seq<Task>)
      requires |list.chains| > 0 && Wanted(tasks) && tasks != []
      ensures Wanted(tasks[1..])
      ensures 1 <= tasks[0].height <= MAX_HEIGHT && tasks[0].key !in list.Keys()
      ensures forall t <- tasks[1..] :: t.key != tasks[0].key
      ensures Cost(tasks) == Cost(tasks[1..]) + 2 * tasks[0].height + 1
    {
      assert tasks[0] in tasks;
      forall t | t in tasks[1..]
        ensures t in tasks && t.key != tasks[0].key
      {
        var k :| 0 <= k < |tasks[1..]| && tasks[1..][k] == t;
        assert t == tasks[k + 1];
      }
    }

    /** Start the next insertion. */
    method Begin()
      requires Valid() && x == null && pending != []
      modifies this, list`maxHeight
      ensures Valid() && x != null && fresh(x)
      ensures Work() < old(Work())
    {
      hide SkipList.Linking, Writer.Wanted;
      var task := pending[0];
      WantedTail(pending);
      var node, before, positions := list.Locate(task.key, task.height);
      assert Wanted(pending[1..]);
      pending, x, prev, at, i, prepared := pending[1..], node, before, positions, 0, false;
    }

    method StorePrivate()
      requires Valid() && x != null && !prepared
      modifies `prepared, x`next
      ensures Valid() && x == old(x)
      ensures Work() < old(Work())
    {
      list.Prepare(x, i, prev[i]);
      prepared := true;
    }

    method StorePublic()
      requires Valid() && x != null && prepared
      modifies `prepared, `i, `x, prev[i], list`nodes, list`chains
      ensures Valid() && (x == null || x == old(x)) && list.nodes == old(list.nodes) + {old(x)}
      ensures Work() < old(Work())
      ensures list.Grown(old(list.chains))
    {
      list.PublishNext(x, |x.next|, prev, at, i);
      i, prepared := i + 1, false;
      if i == |x.next| {
        x := null;
      }
    }

    method Step()
      requires Valid() && Work() > 0
      modifies Frame()
      ensures Valid() && fresh(Frame() - old(Frame()))
      ensures Work() < old(Work())
      ensures list.Grown(old(list.chains))
    {
      if x == null {
        Begin();
      } else if !prepared {
        StorePrivate();
      } else {
        StorePublic();
      }
    }

    /** Any number of steps. */
    method Run(steps: nat)
      requires Valid()
      modifies Frame()
      ensures Valid() && fresh(Frame() - old(Frame()))
      ensures Work() <= old(Work())
      ensures Work() == old(Work()) ==> list.chains == old(list.chains)
      ensures list.Grown(old(list.chains))
    {
      var n := 0;
      while n < steps && (x != null || pending != [])
        invariant Valid() && fresh(Frame() - old(Frame()))
        invariant Work() <= old(Work())
        invariant Work() == old(Work()) ==> list.chains == old(list.chains)
        invariant list.Grown(old(list.chains))
      {
        Step();
        n := n + 1;
      }
    }
  }

  /** A load of the reader, after some steps of the writer. */
  method LoadAmidInserts(writer: Writer, x: Node, level: nat, ghost j: nat, steps: nat)
    returns (next: Node?, ghost k: nat)
    requires writer.Valid() && level < MAX_HEIGHT
    requires j < |writer.list.chains[level]| && writer.list.chains[level][j] == x
    modifies writer.Frame()
    ensures writer.Valid() && fresh(writer.Frame() - old(writer.Frame()))
    ensures k < |writer.list.chains[level]| && writer.list.chains[level][k] == x
    ensures next == writer.list.Successor(writer.list.chains[level], k)
    ensures writer.Work() <= old(writer.Work())
    ensures writer.Work() == old(writer.Work()) ==> writer.list.chains == old(writer.list.chains) && k == j
    ensures writer.list.Grown(old(writer.list.chains))
  {
    var list := writer.list;
    assert x in list.chains[level];
    k := j;
    writer.Run(steps);
    if writer.Work() < old(writer.Work()) {
      k :| 0 <= k < |list.chains[level]| && list.chains[level][k] == x;
    }
    next := list.Next(x, level, k);
  }

  /** The reader's search for `key`, with any number of the writer's steps before each of its loads:
      `schedule(t)` steps before load `t`. The height `seen` that it starts from may be stale. */
  method FindAmidInserts(writer: Writer, key: int, seen: nat, schedule: nat -> nat) returns (r: Node?)
    requires writer.Valid() && 1 <= seen <= MAX_HEIGHT
    modifies writer.Frame()
    ensures writer.Valid()
    // the answer is that of the list at the moment of the last load
    ensures writer.list.Lands(r, key)
    // and it does not miss a key that was there before the search began
    ensures old(writer.list.Keys()) <= writer.list.Keys()
    ensures forall k :: k in old(writer.list.Keys()) && key <= k ==> r != null && r.key <= k
  {
    hide Writer.Valid, Writer.Work, SkipList.Lands;
    writer.ListValid();
    var list := writer.list;
    var x: Node := list.head;
    var level: nat := seen - 1;
    var t := 0;
    ghost var was := list.chains;
    ghost var j: nat := 0;
    assert list.Linked(list.chains[level], level);
    assert list.Grown(was);
    while true
      invariant writer.Valid() && list.Valid() && fresh(writer.Frame() - old(writer.Frame()))
      invariant level < MAX_HEIGHT && j < |list.chains[level]| && list.chains[level][j] == x
      invariant x == list.head || x.key < key
      invariant list.Grown(was)
      decreases writer.Work(), level, |list.chains[level]| - j
    {
      hide Writer.Valid, Writer.Work, SkipList.Lands;
      var next;
      next, j := LoadAmidInserts(writer, x, level, j, schedule(t));
      t := t + 1;
      writer.ListValid();
      if next != null && next.key < key {
        x := next;
        j := j + 1;
      } else if level == 0 {
        list.SplitLands(j, key);
        list.GrownKeys(was);
        return next;
      } else {
        j := list.Down(level, j);
        level := level - 1;
      }
    }
  }
}
