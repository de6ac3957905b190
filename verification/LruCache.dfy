/** The LRU cache of blocks and tables: a hash table that grows, and the entries that are in use and
    those that may be evicted. */
module LruCache {
  import opened Common

  /** An entry of the cache, or one that clients still hold. */
  class Handle {
    const key: string
    const hash: nat
    const value: int
    const charge: nat
    var refs: nat
    var inCache: bool

    constructor (key: string, hash: nat, value: int, charge: nat)
      ensures this.key == key && this.hash == hash && this.value == value && this.charge == charge
      ensures refs == 1 && !inCache
    {
      this.key, this.hash, this.value, this.charge := key, hash, value, charge;
      refs, inCache := 1, false;
    }
  }

  predicate Same(a: Handle, b: Handle) {
    a.hash == b.hash && a.key == b.key
  }

  // ----- Sequences without repetition -----

  function Drop(s: seq<Handle>, i: nat): seq<Handle>
    requires i < |s|
  {
    s[..i] + s[i + 1..]
  }

  lemma {:induction false} DropOne(s: seq<Handle>, i: nat)
    requires Distinct(s) && i < |s|
    ensures Distinct(Drop(s, i))
    ensures forall h :: h in Drop(s, i) <==> h in s && h != s[i]
  {
    var r := Drop(s, i);
    forall a, b | 0 <= a < b < |r| ensures Differ(r, a, b) {
      assert Differ(s, if a < i then a else a + 1, if b < i then b else b + 1);
    }
    forall a | 0 <= a < |r| ensures r[a] in s && r[a] != s[i] {
      if a < i {
        assert Differ(s, a, i);
      } else {
        assert Differ(s, i, a + 1);
      }
    }
    forall h | h in s && h != s[i] ensures h in r {
      var a :| 0 <= a < |s| && s[a] == h;
      assert h == r[if a < i then a else a - 1];
    }
  }

  lemma {:induction false} ReplaceOne(s: seq<Handle>, i: nat, h: Handle)
    requires Distinct(s) && i < |s| && h !in s
    ensures Distinct(s[i := h]) && forall x :: x in s[i := h] <==> x == h || (x in s && x != s[i])
  {
    var r := s[i := h];
    assert r[i] == h;
    forall a, b | 0 <= a < b < |r| ensures Differ(r, a, b) {
      assert Differ(s, a, b);
    }
    forall a | 0 <= a < |s| && a != i ensures s[a] == r[a] && s[a] != s[i] {
      assert if a < i then Differ(s, a, i) else Differ(s, i, a);
    }
    forall x | x in s && x != s[i] ensures x in r {
      var a :| 0 <= a < |s| && s[a] == x;
      assert r[a] == x;
    }
    forall a | 0 <= a < |r| && a != i ensures r[a] in s && r[a] != s[i] {
      assert r[a] == s[a];
    }
  }

  // ----- The hash table -----

  predicate IsPow2(n: nat)
  {
    n == 1 || (n > 1 && n % 2 == 0 && IsPow2(n / 2))
  }

  lemma {:induction false} Pow2Double(n: nat)
    requires IsPow2(n)
    ensures IsPow2(n * 2)
  {
    assert n * 2 / 2 == n;
  }

  /** No two handles of the set have the same key and hash. */
  ghost predicate UniqueKeys(content: set<Handle>) {
    forall a, b {:trigger Same(a, b)} :: a in content && b in content && Same(a, b) ==> a == b
  }

  lemma {:induction false} Pow2Four()
    ensures IsPow2(4)
  {
    assert IsPow2(2) && IsPow2(1);
  }

  lemma {:induction false} UniqueWith(content: set<Handle>, h: Handle, same: Handle?)
    requires UniqueKeys(content)
    requires same == null ==> forall x :: x in content ==> !Same(x, h)
    requires same != null ==> same in content && Same(same, h)
    ensures same == null ==> UniqueKeys(content + {h})
    ensures same != null ==> UniqueKeys(content - {same} + {h})
  {
    var rest := if same == null then content else content - {same};
    forall x | x in rest ensures !Same(x, h) && !Same(h, x) {
      assert same != null ==> (Same(x, same) ==> x == same);
    }
    forall a, b | a in rest + {h} && b in rest + {h} && Same(a, b) ensures a == b {
      assert a in rest && b in rest ==> Same(a, b);
    }
  }

  lemma {:induction false} NotBefore(s: seq<Handle>, k: nat)
    requires Distinct(s) && k < |s|
    ensures s[k] !in s[..k]
  {
    forall i | 0 <= i < k ensures s[i] != s[k] {
      assert Differ(s, i, k);
    }
  }

  /** The buckets hold exactly the content, each handle once and in the bucket of its hash. */
  ghost predicate Buckets(list: seq<seq<Handle>>, content: set<Handle>) {
    && |list| > 0
    && (forall b :: 0 <= b < |list| ==> Distinct(list[b]))
    && (forall b, h :: 0 <= b < |list| && h in list[b] ==> h in content && h.hash % |list| == b)
    && (forall h :: h in content ==> h in list[h.hash % |list|])
  }

  /** One bucket changes by one handle. */
  lemma {:induction false} BucketChange(list: seq<seq<Handle>>, content: set<Handle>, b: nat, bucket: seq<Handle>,
                                        gone: set<Handle>, come: set<Handle>)
    requires Buckets(list, content) && b < |list| && Distinct(bucket)
    requires forall h :: h in gone + come ==> h.hash % |list| == b
    requires forall h :: h in bucket <==> (h in list[b] && h !in gone) || h in come
    ensures Buckets(list[b := bucket], content - gone + come)
  {
    var list' := list[b := bucket];
    forall c, h | 0 <= c < |list'| && h in list'[c] ensures h in content - gone + come && h.hash % |list'| == c {
      assert c != b ==> list'[c] == list[c];
      assert c == b ==> h in list[b] || h in come;
    }
    forall h | h in content - gone + come ensures h in list'[h.hash % |list'|] {
      assert h in content ==> h in list[h.hash % |list|];
    }
  }

  class HandleTable {
    var length: nat
    var elems: nat
    var list: seq<seq<Handle>>
    ghost var content: set<Handle>

    ghost predicate Core()
      reads this
    {
      && length == |list| && IsPow2(length) && Buckets(list, content)
      && UniqueKeys(content) && elems == |content|
    }

    ghost predicate Valid()
      reads this
    {
      Core() && elems <= length
    }

    constructor ()
      ensures Valid() && content == {}
    {
      length, elems, list, content := 4, 0, [[], [], [], []], {};
      new;
      Pow2Four();
    }

    /** The slot for a key: its position in its bucket, or the bucket's end. */
    method FindPointer(key: string, hash: nat) returns (b: nat, i: nat)
      requires Valid()
      ensures b == hash % |list| && b < |list| && i <= |list[b]|
      ensures i < |list[b]| ==> list[b][i].hash == hash && list[b][i].key == key && list[b][i] in content
      ensures i == |list[b]| ==> forall h :: h in content ==> !(h.hash == hash && h.key == key)
    {
      // the length is a power of two, so the remainder is the source's bit mask
      b, i := hash % length, 0;
      while i < |list[b]| && (list[b][i].hash != hash || key != list[b][i].key)
        invariant 0 <= i <= |list[b]|
        invariant forall j :: 0 <= j < i ==> !(list[b][j].hash == hash && list[b][j].key == key)
      {
        i := i + 1;
      }
      assert i < |list[b]| ==> list[b][i] in list[b];
    }

    method Lookup(key: string, hash: nat) returns (h: Handle?)
      requires Valid()
      ensures h != null ==> h in content && h.key == key && h.hash == hash
      ensures h == null ==> forall x :: x in content ==> !(x.hash == hash && x.key == key)
    {
      var b, i := FindPointer(key, hash);
      h := if i < |list[b]| then list[b][i] else null;
    }

    /** Put a handle in, in the place of one with the same key. */
    method Insert(h: Handle) returns (old_: Handle?)
      requires Valid() && h !in content
      modifies this
      ensures Valid()
      ensures old_ != null ==> old_ in old(content) && Same(old_, h)
      ensures old_ == null ==> forall x :: x in old(content) ==> !Same(x, h)
      ensures old_ == null ==> content == old(content) + {h}
      ensures old_ != null ==> content == old(content) - {old_} + {h}
    {
      var b, i := FindPointer(h.key, h.hash);
      if i < |list[b]| {
        old_ := Replace(b, i, h);
      } else {
        old_ := null;
        Extend(b, h);
        if elems > length {
          Resize();
        }
      }
    }

    method Replace(b: nat, i: nat, h: Handle) returns (was: Handle)
      requires Valid() && b < |list| && h.hash % |list| == b && h !in content
      requires i < |list[b]| && list[b][i] in content && Same(list[b][i], h)
      modifies `list, `content
      ensures Valid() && was == old(list[b][i]) && content == old(content) - {was} + {h}
    {
      was := list[b][i];
      assert h !in list[b];
      ReplaceOne(list[b], i, h);
      BucketChange(list, content, b, list[b][i := h], {was}, {h});
      UniqueWith(content, h, was);
      list := list[b := list[b][i := h]];
      content := content - {was} + {h};
    }

    method Extend(b: nat, h: Handle)
      requires Valid() && b < |list| && h.hash % |list| == b && h !in content
      requires forall x :: x in content ==> !Same(x, h)
      modifies `list, `content, `elems
      ensures Core() && content == old(content) + {h}
    {
      assert h !in list[b];
      Append(list[b], h);
      BucketChange(list, content, b, list[b] + [h], {}, {h});
      UniqueWith(content, h, null);
      assert content - {} + {h} == content + {h};
      list := list[b := list[b] + [h]];
      content := content + {h};
      elems := elems + 1;
    }

    /** Make the table at least as long as it has elements, and put each chain's handles into their
        new buckets. */
    method Resize()
      requires Core()
      modifies `list, `length
      ensures Valid() && length >= elems && (length == 4 || length < 2 * elems)
    {
      var newLength := 4;
      Pow2Four();
      while newLength < elems
        invariant newLength >= 4 && IsPow2(newLength) && Core() && (newLength == 4 || newLength < 2 * elems)
        decreases elems - newLength
      {
        Pow2Double(newLength);
        newLength := newLength * 2;
      }
      list := Rehash(newLength);
      length := newLength;
    }

    method Rehash(newLength: nat) returns (newList: seq<seq<Handle>>)
      requires Core() && newLength > 0
      ensures |newList| == newLength && Buckets(newList, content)
    {
      newList := seq(newLength, _ => []);
      ghost var done: set<Handle> := {};
      var i := 0;
      while i < length
        invariant 0 <= i <= length && |newList| == newLength && Buckets(newList, done)
        invariant forall h :: h in done <==> h in content && h.hash % length < i
      {
        var k := 0;
        while k < |list[i]|
          invariant 0 <= k <= |list[i]| && |newList| == newLength && Buckets(newList, done)
          invariant forall h :: h in done <==> h in content && (h.hash % length < i || h in list[i][..k])
        {
          var h := list[i][k];
          assert h in list[i];
          NotBefore(list[i], k);
          var b := h.hash % newLength;
          assert h !in newList[b];
          Prepend(h, newList[b]);
          newList := newList[b := [h] + newList[b]];
          done := done + {h};
          assert list[i][..k + 1] == list[i][..k] + [h];
          k := k + 1;
        }
        assert list[i][..k] == list[i];
        i := i + 1;
      }
      assert done == content;
    }

    method Remove(key: string, hash: nat) returns (h: Handle?)
      requires Valid()
      modifies this
      ensures Valid()
      ensures h != null ==> h in old(content) && h.key == key && h.hash == hash && content == old(content) - {h}
      ensures h == null ==> content == old(content)
      ensures h == null ==> forall x :: x in content ==> !(x.hash == hash && x.key == key)
    {
      var b, i := FindPointer(key, hash);
      if i < |list[b]| {
        h := list[b][i];
        DropOne(list[b], i);
        BucketChange(list, content, b, Drop(list[b], i), {h}, {});
        list := list[b := Drop(list[b], i)];
        assert content - {h} + {} == content - {h};
        content := content - {h};
        elems := elems - 1;
      } else {
        h := null;
      }
    }
  }

  // ----- The cache -----

  ghost function Charge(s: seq<Handle>): nat {
    if |s| == 0 then 0 else s[0].charge + Charge(s[1..])
  }

  lemma {:induction false} ChargeConcat(a: seq<Handle>, b: seq<Handle>)
    ensures Charge(a + b) == Charge(a) + Charge(b)
  {
    if |a| == 0 {
      assert a + b == b;
    } else {
      assert (a + b)[1..] == a[1..] + b;
      ChargeConcat(a[1..], b);
    }
  }

  lemma {:induction false} ChargeDrop(s: seq<Handle>, i: nat)
    requires i < |s|
    ensures Charge(Drop(s, i)) + s[i].charge == Charge(s)
  {
    assert s == s[..i] + ([s[i]] + s[i + 1..]);
    ChargeConcat(s[..i], s[i + 1..]);
    ChargeConcat(s[..i], [s[i]] + s[i + 1..]);
  }

  lemma {:induction false} ChargeAppend(s: seq<Handle>, h: Handle)
    ensures Charge(s + [h]) == Charge(s) + h.charge
  {
    ChargeConcat(s, [h]);
    assert Charge([h]) == h.charge + Charge([]);
  }

  /** The list without an entry. */
  ghost function Others(s: seq<Handle>, e: Handle): seq<Handle> {
    if |s| == 0 then [] else (if s[0] == e then [] else [s[0]]) + Others(s[1..], e)
  }

  lemma {:induction false} NotAmong(s: seq<Handle>, e: Handle)
    ensures e !in s ==> Others(s, e) == s
  {
    if |s| > 0 && e !in s {
      NotAmong(s[1..], e);
      assert s == [s[0]] + s[1..];
    }
  }

  lemma {:induction false} DropIsOthers(s: seq<Handle>, i: nat)
    requires Distinct(s) && i < |s|
    ensures Others(s, s[i]) == Drop(s, i)
  {
    RemoveHead(s);
    if i == 0 {
      NotAmong(s[1..], s[0]);
    } else {
      DropIsOthers(s[1..], i - 1);
      assert s[1..][i - 1] == s[i] && s[i] in s[1..];
      assert Drop(s, i) == [s[0]] + Drop(s[1..], i - 1);
    }
  }

  /** The list without the entries that have the key of `e`. */
  ghost function Unlike(s: seq<Handle>, e: Handle): seq<Handle> {
    if |s| == 0 then [] else (if Same(s[0], e) then [] else [s[0]]) + Unlike(s[1..], e)
  }

  lemma {:induction false} UnlikeIsOthers(s: seq<Handle>, e: Handle, was: Handle?)
    requires forall x :: x in s ==> (Same(x, e) <==> x == was)
    ensures Unlike(s, e) == if was == null then s else Others(s, was)
  {
    if |s| > 0 {
      assert s[0] in s;
      UnlikeIsOthers(s[1..], e, was);
      assert s == [s[0]] + s[1..];
    }
  }

  class Cache {
    const capacity: nat
    const table: HandleTable
    var usage: int
    /** Evictable entries, oldest first; and entries that clients hold. */
    var lru: seq<Handle>
    var inUse: seq<Handle>
    /** Every handle ever made, how often clients hold each, and those given to their deleter. */
    ghost var known: set<Handle>
    ghost var held: map<Handle, nat>
    ghost var deleted: seq<Handle>

    /** A handle, where `content` is what the cache has a reference to. */
    ghost predicate HandleOk(h: Handle, content: set<Handle>)
      reads `lru, `inUse, `held, `deleted, h
    {
      && h in held
      && (h.inCache <==> h in content)
      && (h in content <==> h in lru || h in inUse)
      && (h in lru ==> h.refs == 1) && (h in inUse ==> h.refs >= 2)
      && h.refs == held[h] + (if h.inCache then 1 else 0)
      && (h in deleted <==> h.refs == 0)
    }

    ghost predicate ListsOk()
      reads `lru, `inUse, `deleted, `usage
    {
      && Distinct(lru) && Distinct(inUse) && Distinct(deleted)
      && usage == Charge(lru) + Charge(inUse)
    }

    ghost predicate InvFor(content: set<Handle>)
      reads this, known
    {
      && ListsOk() && content <= known && held.Keys == known
      && (forall h <- lru :: h in known) && (forall h <- inUse :: h in known) && (forall h <- deleted :: h in known)
      && (forall h {:trigger HandleOk(h, content)} :: h in known ==> HandleOk(h, content))
    }

    ghost predicate Inv()
      reads this, table, known
    {
      InvFor(table.content) && table.Valid()
    }

    constructor (capacity: nat)
      ensures Inv() && usage == 0 && known == {} && fresh(table) && this.capacity == capacity
    {
      this.capacity := capacity;
      table := new HandleTable();
      usage, lru, inUse := 0, [], [];
      known, held, deleted := {}, map[], [];
    }

    ghost function Frame(): set<object>
      reads `known
    {
      {this, table} + known
    }

    /** Unlink an entry from the list that it is in. */
    method LruRemove(e: Handle)
      requires Distinct(lru) && Distinct(inUse) && (e in lru || e in inUse) && !(e in lru && e in inUse)
      modifies `lru, `inUse
      ensures Distinct(lru) && Distinct(inUse)
      ensures forall h :: h in lru <==> h in old(lru) && h != e
      ensures forall h :: h in inUse <==> h in old(inUse) && h != e
      ensures Charge(lru) + Charge(inUse) + e.charge == old(Charge(lru) + Charge(inUse))
      ensures lru == Others(old(lru), e) && (e !in old(inUse) ==> inUse == old(inUse))
    {
      NotAmong(lru, e);
      if e in lru {
        var i :| 0 <= i < |lru| && lru[i] == e;
        DropIsOthers(lru, i);
        DropOne(lru, i);
        ChargeDrop(lru, i);
        lru := Drop(lru, i);
      } else {
        var i :| 0 <= i < |inUse| && inUse[i] == e;
        DropOne(inUse, i);
        ChargeDrop(inUse, i);
        inUse := Drop(inUse, i);
      }
    }

    /** An evictable entry is in use now. */
    method ToInUse(e: Handle)
      requires ListsOk() && e in lru && e !in inUse
      modifies `lru, `inUse
      ensures ListsOk() && lru == Others(old(lru), e) && inUse == old(inUse) + [e]
      ensures (forall h :: h in lru <==> h in old(lru) && h != e) && forall h :: h in inUse <==> h in old(inUse) || h == e
    {
      LruRemove(e);
      Append(inUse, e);
      ChargeAppend(inUse, e);
      inUse := inUse + [e];
    }

    /** An entry of the cache is on the in-use list, where it was moved if only the cache held it. */
    method PutInUse(e: Handle)
      requires Inv() && e in table.content
      modifies `lru, `inUse
      ensures ListsOk() && lru == Others(old(lru), e)
      ensures (forall h :: h in lru <==> h in old(lru) && h != e) && forall h :: h in inUse <==> h in old(inUse) || h == e
    {
      assert HandleOk(e, table.content);
      NotAmong(lru, e);
      if e.refs == 1 && e.inCache {
        ToInUse(e);
      }
    }

    /** Take one more reference; an entry that was evictable is in use now. */
    method Ref(e: Handle)
      requires Inv() && e in table.content
      modifies this, e
      ensures Inv() && known == old(known) && held == old(held)[e := old(held)[e] + 1]
      ensures usage == old(usage) && deleted == old(deleted)
      ensures e in inUse && e.refs == old(e.refs) + 1 && e.inCache == old(e.inCache)
      ensures lru == Others(old(lru), e)
    {
      assert HandleOk(e, table.content);
      PutInUse(e);
      e.refs := e.refs + 1;
      held := held[e := held[e] + 1];
      forall h | h in known ensures HandleOk(h, table.content) {
        assert old(HandleOk(h, table.content));
      }
    }

    /** Drop a reference: the last one gives the entry to its deleter, and an entry of which only the
        cache's reference is left becomes the newest evictable one. */
    method Unref(e: Handle)
      requires ListsOk() && e.refs > 0 && e !in deleted
      requires if e.inCache then e.refs >= 2 && e in inUse && e !in lru else e !in inUse && e !in lru
      modifies `lru, `inUse, `deleted, e`refs
      ensures ListsOk() && e.refs == old(e.refs) - 1
      ensures deleted == if e.refs == 0 then old(deleted) + [e] else old(deleted)
      ensures var idle := e.inCache && e.refs == 1;
              && lru == (if idle then old(lru) + [e] else old(lru))
              && (forall h :: h in inUse <==> h in old(inUse) && !(idle && h == e))
              && (!idle ==> inUse == old(inUse))
    {
      NotAmong(lru, e);
      e.refs := e.refs - 1;
      if e.refs == 0 {
        Append(deleted, e);
        deleted := deleted + [e];
      } else if e.inCache && e.refs == 1 {
        LruRemove(e);
        Append(lru, e);
        ChargeAppend(lru, e);
        lru := lru + [e];
      }
    }

    /** A client gives back a handle. */
    method Release(e: Handle)
      requires Inv() && e in known && e in held && held[e] > 0
      modifies this, e
      ensures Inv() && known == old(known) && held == old(held)[e := old(held)[e] - 1] && usage == old(usage)
      // the deleter runs exactly when the last reference goes
      ensures deleted == if old(held)[e] == 1 && e !in table.content then old(deleted) + [e] else old(deleted)
      // an entry that nobody holds any more is the newest evictable one
      ensures lru == if old(held)[e] == 1 && e in table.content then old(lru) + [e] else old(lru)
    {
      assert HandleOk(e, table.content);
      held := held[e := held[e] - 1];
      Unref(e);
      forall h | h in known ensures HandleOk(h, table.content) {
        assert old(HandleOk(h, table.content));
      }
    }

    method Lookup(key: string, hash: nat) returns (e: Handle?)
      requires Inv()
      modifies this, known
      ensures Inv() && known == old(known) && usage == old(usage) && deleted == old(deleted)
      ensures e != null ==> e in table.content && e.key == key && e.hash == hash && held == old(held)[e := old(held)[e] + 1]
      ensures e == null ==> held == old(held) && forall x :: x in table.content ==> !(x.hash == hash && x.key == key)
      ensures lru == if e == null then old(lru) else Others(old(lru), e)
    {
      e := table.Lookup(key, hash);
      if e != null {
        Ref(e);
      }
    }

    /** An entry that left the hash table leaves its list and the usage, and the cache's reference. */
    method EraseEntry(e: Handle)
      requires table.Valid() && e !in table.content && InvFor(table.content + {e})
      modifies `lru, `inUse, `deleted, `usage, e
      ensures Inv() && usage == old(usage) - e.charge && !e.inCache
      ensures deleted == if e in held && held[e] == 0 then old(deleted) + [e] else old(deleted)
      ensures lru == Others(old(lru), e) && (e !in old(inUse) ==> inUse == old(inUse))
    {
      ghost var content := table.content + {e};
      assert HandleOk(e, content);
      LruRemove(e);
      e.inCache := false;
      usage := usage - e.charge;
      Unref(e);
      forall h | h in known ensures HandleOk(h, table.content) {
        assert old(HandleOk(h, content));
      }
    }

    /** Finish removing an entry that is no longer in the hash table. */
    method FinishErase(e: Handle?) returns (erased: bool)
      requires table.Valid() && (e != null ==> e !in table.content)
      requires InvFor(if e == null then table.content else table.content + {e})
      modifies this, known
      ensures Inv() && known == old(known) && held == old(held) && erased == (e != null)
      ensures e == null ==> usage == old(usage) && lru == old(lru) && deleted == old(deleted)
      ensures e != null ==> usage == old(usage) - e.charge && !e.inCache
      ensures e != null ==> deleted == if e in old(held) && old(held)[e] == 0 then old(deleted) + [e] else old(deleted)
      ensures e != null ==> lru == Others(old(lru), e) && (e !in old(inUse) ==> inUse == old(inUse))
    {
      if e != null {
        EraseEntry(e);
      }
      erased := e != null;
    }

    method Erase(key: string, hash: nat)
      requires Inv()
      modifies this, table, known
      ensures Inv() && known == old(known) && held == old(held)
      ensures forall x :: x in table.content <==> x in old(table.content) && !(x.hash == hash && x.key == key)
    {
      var e := table.Remove(key, hash);
      RemovedOne(old(table.content), table.content, e, key, hash);
      var _ := FinishErase(e);
    }

    lemma {:induction false} RemovedOne(was: set<Handle>, now: set<Handle>, e: Handle?, key: string, hash: nat)
      requires UniqueKeys(was)
      requires e != null ==> e in was && e.key == key && e.hash == hash && now == was - {e}
      requires e == null ==> now == was && forall x :: x in was ==> !(x.hash == hash && x.key == key)
      ensures forall x :: x in now <==> x in was && !(x.hash == hash && x.key == key)
      ensures e != null ==> now + {e} == was && e !in now
    {
      if e != null {
        forall x | x in was && x.hash == hash && x.key == key ensures x == e {
          assert Same(x, e);
        }
      }
    }

    /** Evict the oldest entry. */
    method EvictOldest()
      requires Inv() && lru != []
      modifies this, table, known
      ensures Inv() && known == old(known) && held == old(held)
      ensures lru == old(lru[1..]) && inUse == old(inUse) && usage == old(usage) - old(lru[0]).charge
      ensures table.content == old(table.content) - {old(lru[0])} && deleted == old(deleted) + [old(lru[0])]
    {
      var e := lru[0];
      DropIsOthers(lru, 0);
      assert Drop(lru, 0) == lru[1..];
      assert HandleOk(e, table.content);
      var found := table.Remove(e.key, e.hash);
      assert found != null && Same(found, e);
      RemovedOne(old(table.content), table.content, found, e.key, e.hash);
      var erased := FinishErase(found);
      assert erased;
    }

    /** A new entry, which its creator holds; nobody else knows it. */
    method NewHandle(key: string, hash: nat, value: int, charge: nat) returns (e: Handle)
      requires Inv()
      modifies this
      ensures Inv() && fresh(e) && e.key == key && e.hash == hash && e.value == value && e.charge == charge
      ensures known == old(known) + {e} && held == old(held)[e := 1]
      ensures lru == old(lru) && usage == old(usage) && deleted == old(deleted)
    {
      e := new Handle(key, hash, value, charge);
      known := known + {e};
      held := held[e := 1];
      forall h | h in known ensures HandleOk(h, table.content) {
        if h != e {
          assert old(HandleOk(h, table.content));
        }
      }
    }

    /** The cache takes a reference to a new entry. */
    method AddReference(e: Handle)
      requires Inv() && e in known && e in held && held[e] == 1 && !e.inCache
      modifies `inUse, `usage, e
      ensures InvFor(table.content + {e}) && table.Valid()
      ensures e !in table.content && e !in lru && e.inCache && e.refs == 2 && lru == old(lru)
    {
      assert HandleOk(e, table.content);
      e.refs := e.refs + 1;
      e.inCache := true;
      Append(inUse, e);
      ChargeAppend(inUse, e);
      inUse := inUse + [e];
      usage := usage + e.charge;
      forall h | h in known ensures HandleOk(h, table.content + {e}) {
        assert old(HandleOk(h, table.content));
      }
    }

    /** A new entry goes into the table, and one that had the same key leaves the cache. */
    method TakeIn(e: Handle)
      requires Inv() && e in known && e in held && held[e] == 1 && !e.inCache
      modifies this, table, known
      ensures Inv() && known == old(known) && held == old(held) && e in table.content
      ensures forall x :: x in table.content <==> x == e || (x in old(table.content) && !Same(x, e))
      ensures lru == Unlike(old(lru), e)
    {
      assert HandleOk(e, table.content);
      InTable(lru);
      hide Unlike, Others, Charge, Distinct;
      AddReference(e);
      var was := table.Insert(e);
      ReplacedOne(old(table.content), e, was);
      ReplacedInList(old(table.content), lru, e, was);
      assert old(table.content) + {e} == if was == null then table.content else table.content + {was};
      var _ := FinishErase(was);
    }

    lemma {:induction false} InTable(s: seq<Handle>)
      requires Inv() && s == lru
      ensures forall h :: h in s ==> h in table.content
    {
      forall h | h in s ensures h in table.content {
        assert HandleOk(h, table.content);
      }
    }

    lemma {:induction false} ReplacedInList(content: set<Handle>, s: seq<Handle>, e: Handle, was: Handle?)
      requires forall x :: x in content ==> (Same(x, e) <==> x == was)
      requires forall x :: x in s ==> x in content
      ensures Unlike(s, e) == if was == null then s else Others(s, was)
    {
      UnlikeIsOthers(s, e, was);
    }

    lemma {:induction false} ReplacedOne(content: set<Handle>, e: Handle, was: Handle?)
      requires UniqueKeys(content) && e !in content
      requires was == null ==> forall x :: x in content ==> !Same(x, e)
      requires was != null ==> was in content && Same(was, e)
      ensures forall x :: x in content ==> (Same(x, e) <==> x == was)
      ensures was != null ==> content - {was} + {e} + {was} == content + {e}
    {
      if was != null {
        forall x | x in content && Same(x, e) ensures x == was {
          assert Same(x, was);
        }
      }
    }

    /** Insert an entry, then evict entries that nobody holds while the cache is over its capacity: the oldest
        `n` of those that are left, no more than needed. */
    method Insert(key: string, hash: nat, value: int, charge: nat) returns (e: Handle, ghost idle: seq<Handle>, ghost n: nat)
      requires Inv()
      modifies this, table, known
      ensures Inv() && fresh(e) && e.key == key && e.hash == hash && e.value == value && e.charge == charge
      ensures known == old(known) + {e} && held == old(held)[e := 1]
      ensures usage <= capacity || lru == []
      ensures idle == if capacity > 0 then Unlike(old(lru), e) else old(lru)
      ensures n <= |idle| && lru == idle[n..] && (n > 0 ==> usage + idle[n - 1].charge > capacity)
      ensures forall x :: x in table.content <==>
        (x == e && capacity > 0) || (x in old(table.content) && !(capacity > 0 && Same(x, e)) && x !in idle[..n])
    {
      e := NewHandle(key, hash, value, charge);
      assert HandleOk(e, table.content);
      if capacity > 0 {
        TakeIn(e);
      }
      assert HandleOk(e, table.content);
      idle := lru;
      n := EvictToFit();
    }

    /** Evict the oldest entries while the cache is over its capacity. */
    method EvictToFit() returns (ghost n: nat)
      requires Inv()
      modifies this, table, known
      ensures Inv() && known == old(known) && held == old(held) && (usage <= capacity || lru == [])
      ensures n <= |old(lru)| && lru == old(lru)[n..] && (n > 0 ==> usage + old(lru)[n - 1].charge > capacity)
      ensures forall x :: x in table.content <==> x in old(table.content) && x !in old(lru)[..n]
    {
      n := 0;
      while usage > capacity && lru != []
        invariant Inv() && known == old(known) && held == old(held)
        invariant n <= |old(lru)| && lru == old(lru)[n..] && (n > 0 ==> usage + old(lru)[n - 1].charge > capacity)
        invariant forall x :: x in table.content <==> x in old(table.content) && x !in old(lru)[..n]
        decreases |lru|
      {
        EvictOldest();
        assert old(lru)[..n + 1] == old(lru)[..n] + [old(lru)[n]];
        n := n + 1;
      }
    }

    /** Evict everything that nobody holds, and nothing else. */
    method Prune()
      requires Inv()
      modifies this, table, known
      ensures Inv() && known == old(known) && held == old(held) && lru == []
      ensures inUse == old(inUse) && deleted == old(deleted) + old(lru)
      ensures forall x :: x in table.content <==> x in old(table.content) && x !in old(lru)
    {
      ghost var n := 0;
      while lru != []
        invariant Inv() && known == old(known) && held == old(held)
        invariant n <= |old(lru)| && lru == old(lru)[n..] && inUse == old(inUse) && deleted == old(deleted) + old(lru)[..n]
        invariant forall x :: x in table.content <==> x in old(table.content) && x !in old(lru)[..n]
        decreases |lru|
      {
        EvictOldest();
        assert old(lru)[..n + 1] == old(lru)[..n] + [old(lru)[n]];
        n := n + 1;
      }
      assert old(lru)[..n] == old(lru);
    }

    /** The destructor, when no entry of the cache is in use: every entry that nobody holds has been
        given to its deleter, once. */
    method Destroy()
      requires Inv() && inUse == []
      modifies this, table, known
      ensures known == old(known) && held == old(held) && Distinct(deleted)
      ensures forall h :: h in known && h in held && held[h] == 0 ==> h in deleted
    {
      ghost var content := table.content;
      while lru != []
        invariant InvFor(content) && known == old(known) && held == old(held) && inUse == []
        decreases |lru|
      {
        ghost var e := lru[0];
        DropOldest(content);
        content := content - {e};
      }
      forall h | h in known && h in held && held[h] == 0 ensures h in deleted {
        assert HandleOk(h, content);
      }
    }

    /** The cache drops its reference to its oldest entry, without touching the hash table. */
    method DropOldest(ghost content: set<Handle>)
      requires InvFor(content) && lru != []
      modifies `lru, `inUse, `deleted, `usage, lru[0]
      ensures InvFor(content - {old(lru[0])}) && lru == old(lru[1..]) && inUse == old(inUse)
    {
      var e := lru[0];
      assert HandleOk(e, content);
      RemoveHead(lru);
      lru := lru[1..];
      usage := usage - e.charge;
      e.inCache := false;
      Unref(e);
      assert inUse == old(inUse);
      forall h | h in known ensures HandleOk(h, content - {e}) {
        assert old(HandleOk(h, content));
      }
    }

    /** What clients may rely on at any time. */
    lemma {:induction false} Promises()
      requires Inv()
      // the table is exactly what the lists hold, split by whether clients hold it too
      ensures forall h :: h in lru <==> h in table.content && h in held && held[h] == 0
      ensures forall h :: h in inUse <==> h in table.content && h in held && held[h] > 0
      // an entry is deleted once, when neither the cache nor a client refers to it
      ensures forall h :: h in deleted <==> h in known && h !in table.content && h in held && held[h] == 0
      ensures Distinct(deleted) && usage == Charge(lru) + Charge(inUse)
    {
      forall h | h in known
        ensures h in lru <==> h in table.content && h in held && held[h] == 0
        ensures h in inUse <==> h in table.content && h in held && held[h] > 0
        ensures h in deleted <==> h !in table.content && h in held && held[h] == 0
      {
        assert HandleOk(h, table.content);
      }
    }
  }
}
