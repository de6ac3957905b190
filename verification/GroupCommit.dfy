/** The write path: writers queue up, the first of them writes for a group, and the sequence
    numbers become visible at the end.  A method is what one thread does without others in
    between, so a run is any interleaving. */
module GroupCommit {
  import opened Common
  import opened InternalKey

  /** Writers are numbered in the order in which they enter the queue. */
  type Id = nat

  datatype Op = Put(key: UserKey, value: string) | Delete(key: UserKey)

  /** The operations of a write batch, and the size of its representation. */
  datatype Batch = Batch(ops: seq<Op>, bytes: nat)

  /** A writer; no batch means that it only waits for the ones before it. */
  datatype Request = Request(batch: Option<Batch>, sync: bool)

  datatype Status = Ok | Failed

  /** The writers that are served together, from `first` on, with their operations and the first
      sequence number. */
  datatype Group = Group(first: Id, count: nat, ops: seq<Op>, start: nat) {
    /** The writer after the group. */
    function Next(): Id { first + count }

    /** The sequence number after the group. */
    function End(): nat { start + |ops| }
  }

  /** A group that was served, with what its writers are told and how many operations were inserted: all of
      them, unless something failed. */
  datatype Served = Served(group: Group, status: Status, done: nat) {
    ghost function Part(): set<Entry> {
      if done <= |group.ops| then Entries(group.ops, group.start, done) else {}
    }
  }

  /** What the leader is doing; `Inserting` has inserted the first `next` operations. */
  datatype Phase =
    | Open
    | Logging(group: Group)
    | Inserting(group: Group, next: nat)

  /** A record of the log: a batch with its first sequence number. */
  datatype Record = Record(start: nat, ops: seq<Op>)

  function OpsOf(r: Request): seq<Op> {
    if r.batch.Some? then r.batch.value.ops else []
  }

  function BytesOf(r: Request): nat {
    if r.batch.Some? then r.batch.value.bytes else 0
  }

  function EntryOf(op: Op, sequence: nat): Entry {
    match op
    case Put(key, value) => Entry(key, sequence, Value, value)
    case Delete(key) => Entry(key, sequence, Deletion, "")
  }

  /** The first `n` operations as entries, with sequence numbers from `start` on. */
  ghost function Entries(ops: seq<Op>, start: nat, n: nat): set<Entry>
    requires n <= |ops|
  {
    if n == 0 then {} else Entries(ops, start, n - 1) + {EntryOf(ops[n - 1], start + n - 1)}
  }

  lemma {:induction false} EntriesRange(ops: seq<Op>, start: nat, n: nat, e: Entry)
    requires n <= |ops| && e in Entries(ops, start, n)
    ensures start <= e.sequence < start + n
  {
    if e !in Entries(ops, start, n - 1) {
      assert e == EntryOf(ops[n - 1], start + n - 1);
    } else {
      EntriesRange(ops, start, n - 1, e);
    }
  }

  // ----- What the operations mean to a reader -----

  /** What a read of `key` gives after the first `n` operations, if it gave `before` in front of them. */
  ghost function After(ops: seq<Op>, n: nat, key: UserKey, before: Lookup): Lookup
    requires n <= |ops|
  {
    if n == 0 then before
    else if ops[n - 1].key != key then After(ops, n - 1, key, before)
    else if ops[n - 1].Put? then Found(ops[n - 1].value)
    else NotFound
  }

  /** The same for the batches of `count` writers, one writer after another. */
  ghost function AfterWriters(requests: seq<Request>, first: Id, count: nat, key: UserKey, before: Lookup): Lookup
    requires first + count <= |requests|
  {
    if count == 0 then before
    else
      var r := requests[first + count - 1];
      var earlier := AfterWriters(requests, first, count - 1, key, before);
      if r.batch.Some? then After(r.batch.value.ops, |r.batch.value.ops|, key, earlier) else earlier
  }

  lemma {:induction false} AfterPrefix(a: seq<Op>, b: seq<Op>, n: nat, key: UserKey, before: Lookup)
    requires n <= |a|
    ensures After(a + b, n, key, before) == After(a, n, key, before)
  {
    if n > 0 {
      AfterPrefix(a, b, n - 1, key, before);
    }
  }

  lemma {:induction false} AfterConcat(a: seq<Op>, b: seq<Op>, n: nat, key: UserKey, before: Lookup)
    requires n <= |b|
    ensures After(a + b, |a| + n, key, before) == After(b, n, key, After(a, |a|, key, before))
  {
    if n == 0 {
      AfterPrefix(a, b, |a|, key, before);
    } else {
      AfterConcat(a, b, n - 1, key, before);
    }
  }

  /** The joined operations do what the writers' batches do. */
  lemma {:induction false} AfterJoined(requests: seq<Request>, first: Id, count: nat, key: UserKey, before: Lookup)
    requires first + count <= |requests|
    ensures var ops := Joined(requests, first, count);
            After(ops, |ops|, key, before) == AfterWriters(requests, first, count, key, before)
  {
    hide After;
    if count == 0 {
      NothingDone(key, before);
    } else {
      AfterJoined(requests, first, count - 1, key, before);
      var r, earlier := requests[first + count - 1], Joined(requests, first, count - 1);
      AfterConcat(earlier, OpsOf(r), |OpsOf(r)|, key, before);
      NothingDone(key, After(earlier, |earlier|, key, before));
    }
  }

  lemma {:induction false} NothingDone(key: UserKey, before: Lookup)
    ensures After([], 0, key, before) == before
  {
  }

  /** One more entry, newer than all others. */
  lemma {:induction false} ReadOneMore(es: set<Entry>, op: Op, sequence: nat, key: UserKey, s: nat, t: nat)
    requires Unique(es) && t < sequence <= s && forall e :: e in es ==> e.sequence <= t
    ensures Unique(es + {EntryOf(op, sequence)})
    ensures Read(es + {EntryOf(op, sequence)}, key, s) ==
            if op.key != key then Read(es, key, t) else if op.Put? then Found(op.value) else NotFound
  {
    var n := EntryOf(op, sequence);
    if n.key == key {
      ReadNewest(es + {n}, key, s, n);
    } else {
      SameVisible(es + {n}, es, key, s, t);
    }
  }

  /** What a reader gets depends on the entries of its key that it sees. */
  lemma {:induction false} SameVisible(a: set<Entry>, b: set<Entry>, key: UserKey, s: nat, t: nat)
    requires Unique(b)
    requires forall e: Entry :: e.key == key ==> (e in a && Visible(e, s) <==> e in b && Visible(e, t))
    ensures Read(a, key, s) == Read(b, key, t)
  {
    forall e ensures IsNewest(a, key, s, e) <==> IsNewest(b, key, t, e) {
    }
    if e :| IsNewest(b, key, t, e) {
      forall x | IsNewest(b, key, t, x) ensures x == e {
        assert x.sequence <= e.sequence <= x.sequence;
      }
    }
  }

  lemma {:induction false} EntriesBelow(es: set<Entry>, ops: seq<Op>, start: nat, n: nat)
    requires 0 < start && n <= |ops| && forall e :: e in es ==> e.sequence < start
    ensures forall e :: e in es + Entries(ops, start, n) ==> e.sequence <= start + n - 1
  {
    forall e | e in Entries(ops, start, n) ensures e.sequence <= start + n - 1 {
      EntriesRange(ops, start, n, e);
    }
  }

  lemma {:induction false} OneMoreEntry(es: set<Entry>, ops: seq<Op>, start: nat, n: nat)
    requires n < |ops|
    ensures es + Entries(ops, start, n + 1) == es + Entries(ops, start, n) + {EntryOf(ops[n], start + n)}
  {
  }

  lemma {:induction false} NoEntries(es: set<Entry>, ops: seq<Op>, start: nat)
    ensures es + Entries(ops, start, 0) == es
  {
  }

  /** The entries of operations do to a reader what the operations say. */
  lemma {:induction false} EntriesMean(es: set<Entry>, ops: seq<Op>, start: nat, n: nat, key: UserKey, s: nat)
    requires Unique(es) && 0 < start && start + n <= s + 1 && n <= |ops|
    requires forall e :: e in es ==> e.sequence < start
    ensures Unique(es + Entries(ops, start, n))
    ensures Read(es + Entries(ops, start, n), key, s) == After(ops, n, key, Read(es, key, start - 1))
  {
    hide Entries, EntryOf, Read, Unique;
    if n == 0 {
      NoEntries(es, ops, start);
      SameVisible(es, es, key, s, start - 1);
    } else {
      var t := start + n - 2;
      EntriesMean(es, ops, start, n - 1, key, t);
      EntriesBelow(es, ops, start, n - 1);
      ReadOneMore(es + Entries(ops, start, n - 1), ops[n - 1], t + 1, key, s, t);
      OneMoreEntry(es, ops, start, n - 1);
    }
  }

  /** The operations of `count` writers one after another. */
  ghost function Joined(requests: seq<Request>, first: Id, count: nat): seq<Op>
    requires first + count <= |requests|
  {
    if count == 0 then [] else Joined(requests, first, count - 1) + OpsOf(requests[first + count - 1])
  }

  ghost function Bytes(requests: seq<Request>, first: Id, count: nat): nat
    requires first + count <= |requests|
  {
    if count == 0 then 0 else Bytes(requests, first, count - 1) + BytesOf(requests[first + count - 1])
  }

  /** More writers do not change the operations of earlier ones. */
  lemma {:induction false} JoinedSame(requests: seq<Request>, more: seq<Request>, first: Id, count: nat)
    requires requests <= more && first + count <= |requests|
    ensures Joined(more, first, count) == Joined(requests, first, count)
  {
    if count > 0 {
      JoinedSame(requests, more, first, count - 1);
    }
  }

  lemma {:induction false} OneMore(requests: seq<Request>, first: Id, n: nat)
    requires first + n < |requests|
    ensures Bytes(requests, first, n + 1) == Bytes(requests, first, n) + BytesOf(requests[first + n])
    ensures Joined(requests, first, n + 1) == Joined(requests, first, n) + OpsOf(requests[first + n])
    ensures n > 0 ==>
      var r, size := requests[first + n], BytesOf(requests[first]);
      StopsAt(requests, first, n) <==>
        || (r.sync && !requests[first].sync)
        || (r.batch.Some? && Bytes(requests, first, n + 1) > if size <= 131072 then size + 131072 else 1048576)
  {
  }

  // ----- Building a group -----

  /** The next writer may not join a group of `n`: a sync writer joins no other, and a group has at most 1 MB, or 128 KB
      more than a first batch of at most 128 KB. */
  ghost predicate StopsAt(requests: seq<Request>, first: Id, n: nat)
    requires 0 < n && first + n < |requests|
  {
    var r, size := requests[first + n], BytesOf(requests[first]);
    || (r.sync && !requests[first].sync)
    || (r.batch.Some? && Bytes(requests, first, n + 1) > if size <= 131072 then size + 131072 else 1048576)
  }

  /** A group of `n` is the longest part of the queue's front that the sync flags and the size allow. */
  ghost predicate LongestFront(requests: seq<Request>, first: Id, n: nat, waiting: nat)
    requires 0 < n <= waiting && first + waiting <= |requests|
  {
    && (forall i {:trigger StopsAt(requests, first, i)} :: 0 < i < n ==> !StopsAt(requests, first, i))
    && (n < waiting ==> StopsAt(requests, first, n))
  }

  lemma {:induction false} FirstOnly(requests: seq<Request>, first: Id)
    requires first < |requests|
    ensures Bytes(requests, first, 1) == BytesOf(requests[first]) && Joined(requests, first, 1) == OpsOf(requests[first])
  {
    assert Bytes(requests, first, 0) == 0 && Joined(requests, first, 0) == [];
  }

  // ----- The queue -----

  /** The sequence number does not fall inside the group. */
  ghost predicate Apart(s: nat, x: Served) {
    s < x.group.start || x.group.End() <= s + 1
  }

  /** This entry was inserted for one of the groups. */
  ghost predicate Inserted(groups: seq<Served>, e: Entry) {
    exists s :: s in groups && e in s.Part()
  }

  lemma {:induction false} InsertedNext(groups: seq<Served>, x: Served, e: Entry)
    ensures Inserted(groups + [x], e) <==> Inserted(groups, e) || e in x.Part()
  {
    if Inserted(groups, e) {
      var s :| s in groups && e in s.Part();
      assert s in groups + [x];
    }
    assert x in groups + [x];
  }

  /** The set holds what was inserted for the groups, and the first `n` operations of `g`. */
  ghost predicate MemHas(mem: set<Entry>, groups: seq<Served>, g: Group, n: nat)
    requires n <= |g.ops|
  {
    forall e {:trigger e in mem} :: e in mem <==> Inserted(groups, e) || e in Entries(g.ops, g.start, n)
  }

  lemma {:induction false} MemNext(mem: set<Entry>, groups: seq<Served>, g: Group, n: nat)
    requires n < |g.ops| && MemHas(mem, groups, g, n)
    ensures MemHas(mem + {EntryOf(g.ops[n], g.start + n)}, groups, g, n + 1)
  {
    assert Entries(g.ops, g.start, n + 1) == Entries(g.ops, g.start, n) + {EntryOf(g.ops[n], g.start + n)};
  }

  /** The first sequence number and the first writer that the first `i` groups leave. */
  ghost function Left(groups: seq<Served>, i: nat): (nat, Id)
    requires i <= |groups|
  {
    if i == 0 then (1, 0) else (groups[i - 1].group.End(), groups[i - 1].group.Next())
  }

  /** The groups take adjacent ranges of sequence numbers and of writers. */
  ghost predicate Adjacent(groups: seq<Served>, last: nat, gone: Id) {
    && (forall i {:trigger Left(groups, i)} :: 0 <= i < |groups| ==>
          (groups[i].group.start, groups[i].group.first) == Left(groups, i))
    && (last + 1, gone) == Left(groups, |groups|)
  }

  lemma {:induction false} AdjacentNext(groups: seq<Served>, last: nat, gone: Id, x: Served)
    requires Adjacent(groups, last, gone) && x.group.start == last + 1 && x.group.first == gone
    ensures Adjacent(groups + [x], x.group.End() - 1, x.group.Next())
  {
    var more := groups + [x];
    forall i | 0 <= i < |more| ensures (more[i].group.start, more[i].group.first) == Left(more, i) {
      assert Left(more, i) == Left(groups, i);
    }
  }

  lemma {:induction false} RangeBound(groups: seq<Served>, last: nat, gone: Id, i: nat)
    requires Adjacent(groups, last, gone) && i < |groups|
    ensures groups[i].group.End() <= last + 1 && groups[i].group.Next() <= gone
    decreases |groups| - i
  {
    assert Left(groups, i + 1) == (groups[i].group.End(), groups[i].group.Next());
    if i + 1 < |groups| {
      RangeBound(groups, last, gone, i + 1);
    }
  }

  /** What a read of `key` gives after the first `i` groups, with what was inserted of those that failed. */
  ghost function AfterGroups(groups: seq<Served>, i: nat, key: UserKey): Lookup
    requires i <= |groups|
  {
    if i == 0 then NotFound
    else
      var x := groups[i - 1];
      var earlier := AfterGroups(groups, i - 1, key);
      if x.done <= |x.group.ops| then After(x.group.ops, x.done, key, earlier) else earlier
  }

  lemma {:induction false} AfterGroupsNext(groups: seq<Served>, x: Served, i: nat, key: UserKey)
    requires i <= |groups|
    ensures AfterGroups(groups + [x], i, key) == AfterGroups(groups, i, key)
  {
    if i > 0 {
      AfterGroupsNext(groups, x, i - 1, key);
    }
  }

  /** What was inserted for the first `i` groups. */
  ghost function EntriesOfGroups(groups: seq<Served>, i: nat): set<Entry>
    requires i <= |groups|
  {
    if i == 0 then {} else EntriesOfGroups(groups, i - 1) + groups[i - 1].Part()
  }

  lemma {:induction false} StartsPositive(groups: seq<Served>, last: nat, gone: Id, i: nat)
    requires Adjacent(groups, last, gone) && i <= |groups|
    ensures 0 < Left(groups, i).0
  {
    if i > 0 {
      StartsPositive(groups, last, gone, i - 1);
      assert Left(groups, i - 1).0 == groups[i - 1].group.start;
    }
  }

  lemma {:induction false} GroupsMean(groups: seq<Served>, last: nat, gone: Id, i: nat, key: UserKey, s: nat)
    requires Adjacent(groups, last, gone) && i <= |groups| && Left(groups, i).0 <= s + 1
    ensures forall e :: e in EntriesOfGroups(groups, i) ==> e.sequence < Left(groups, i).0
    ensures Unique(EntriesOfGroups(groups, i))
    ensures Read(EntriesOfGroups(groups, i), key, s) == AfterGroups(groups, i, key)
  {
    hide Adjacent, Entries, After, Read, Unique;
    if i == 0 {
      NothingWritten(key, s);
    } else {
      var x, earlier := groups[i - 1], EntriesOfGroups(groups, i - 1);
      StartsPositive(groups, last, gone, i - 1);
      assert Left(groups, i - 1) == (x.group.start, x.group.first) by {
        AdjacentAt(groups, last, gone, i - 1);
      }
      GroupsMean(groups, last, gone, i - 1, key, x.group.start - 1);
      OneGroupMeans(earlier, x, key, s);
    }
  }

  lemma {:induction false} NothingWritten(key: UserKey, s: nat)
    ensures Unique({}) && Read({}, key, s) == NotFound
  {
  }

  lemma {:induction false} AdjacentAt(groups: seq<Served>, last: nat, gone: Id, i: nat)
    requires Adjacent(groups, last, gone) && i < |groups|
    ensures Left(groups, i) == (groups[i].group.start, groups[i].group.first)
  {
  }

  lemma {:induction false} OneGroupMeans(earlier: set<Entry>, x: Served, key: UserKey, s: nat)
    requires Unique(earlier) && 0 < x.group.start && x.group.End() <= s + 1
    requires forall e :: e in earlier ==> e.sequence < x.group.start
    ensures forall e :: e in earlier + x.Part() ==> e.sequence < x.group.End()
    ensures Unique(earlier + x.Part())
    ensures Read(earlier + x.Part(), key, s) ==
            var before := Read(earlier, key, x.group.start - 1);
            if x.done <= |x.group.ops| then After(x.group.ops, x.done, key, before) else before
  {
    hide Entries, After, Read, Unique;
    if x.done <= |x.group.ops| {
      EntriesMean(earlier, x.group.ops, x.group.start, x.done, key, s);
      EntriesBelow(earlier, x.group.ops, x.group.start, x.done);
    } else {
      assert earlier + x.Part() == earlier;
      SameVisible(earlier, earlier, key, s, x.group.start - 1);
    }
  }

  lemma {:induction false} PartOfGroups(groups: seq<Served>, i: nat, e: Entry)
    requires i <= |groups|
    ensures e in EntriesOfGroups(groups, i) <==> exists j :: 0 <= j < i && e in groups[j].Part()
  {
    if i > 0 {
      PartOfGroups(groups, i - 1, e);
    }
  }

  /** The groups end in their order. */
  lemma {:induction false} EndsAscend(groups: seq<Served>, last: nat, gone: Id, i: nat, j: nat)
    requires Adjacent(groups, last, gone) && i <= j <= |groups|
    ensures Left(groups, i).0 <= Left(groups, j).0
  {
    if i < j {
      EndsAscend(groups, last, gone, i, j - 1);
      assert Left(groups, j - 1).0 == groups[j - 1].group.start;
    }
  }

  class WriteQueue {
    /** The writers that wait, front first; the requests and results of all writers. */
    var writers: seq<Id>
    var requests: seq<Request>
    var results: map<Id, Status>
    var lastSequence: nat
    var log: seq<Record>
    var mem: set<Entry>
    var phase: Phase
    ghost var groups: seq<Served>
    /** The sequence numbers that readers were given. */
    ghost var snapshots: set<nat>

    /** How many writers have left the queue. */
    ghost function Gone(): int
      reads `requests, `writers
    {
      |requests| - |writers|
    }

    /** The writers leave in the order in which they came, each of them once, with a result. */
    ghost predicate QueueOk()
      reads `requests, `writers, `results
    {
      && Gone() >= 0
      && (forall i :: 0 <= i < |writers| ==> writers[i] == Gone() + i)
      && (forall w: Id :: w in results <==> w < Gone())
    }

    ghost predicate RangesOk()
      reads `groups, `lastSequence, `requests, `writers
    {
      Gone() >= 0 && Adjacent(groups, lastSequence, Gone())
    }

    /** A group carries no sync writer unless a sync writer leads. */
    ghost predicate SyncOk(g: Group)
      reads `requests
    {
      && g.count > 0 && g.Next() <= |requests|
      && (forall w :: g.first <= w < g.Next() && requests[w].sync ==> requests[g.first].sync)
    }

    /** It has its writers' operations. */
    ghost predicate GroupOk(g: Group)
      reads `requests
    {
      SyncOk(g) && g.ops == Joined(requests, g.first, g.count)
    }

    ghost predicate ServedOk(s: Served)
      reads `requests, `results, `log
    {
      && (forall w :: s.group.first <= w < s.group.Next() ==> w in results && results[w] == s.status)
      && s.done <= |s.group.ops| && (s.status == Ok ==> s.done == |s.group.ops|)
      && SyncOk(s.group) && (s.status == Ok || s.done > 0 ==> GroupOk(s.group))
      && (s.done > 0 ==> Record(s.group.start, s.group.ops) in log)
    }

    /** The memtable has what was inserted for the groups, and what the leader has inserted by now. */
    ghost predicate MemOk()
      reads `mem, `groups, `phase
    {
      if phase.Inserting? && phase.next <= |phase.group.ops|
      then MemHas(mem, groups, phase.group, phase.next)
      else MemHas(mem, groups, Group(0, 0, [], 0), 0)
    }

    ghost predicate PhaseOk()
      reads `phase, `lastSequence, `requests, `writers, `log
    {
      phase != Open ==>
        var g := phase.group;
        && g.first == Gone() && GroupOk(g)
        && g.start == lastSequence + 1
        && (phase.Inserting? ==> phase.next <= |g.ops| && Record(g.start, g.ops) in log)
    }

    /** A reader's sequence number never falls inside a group. */
    ghost predicate SnapshotsOk()
      reads `snapshots, `groups, `lastSequence
    {
      && (forall s :: s in snapshots ==> s <= lastSequence)
      && (forall s, x {:trigger Apart(s, x)} :: s in snapshots && x in groups ==> Apart(s, x))
    }

    ghost predicate Inv()
      reads this
    {
      && QueueOk() && RangesOk() && MemOk() && PhaseOk() && SnapshotsOk()
      && (forall x {:trigger ServedOk(x)} :: x in groups ==> ServedOk(x))
    }

    constructor ()
      ensures Inv() && lastSequence == 0 && mem == {} && log == [] && requests == [] && phase == Open
    {
      writers, requests, results := [], [], map[];
      lastSequence, log, mem, phase := 0, [], {}, Open;
      groups, snapshots := [], {};
    }

    /** A thread enters the queue. */
    method Join(request: Request) returns (w: Id)
      requires Inv()
      modifies `writers, `requests
      ensures Inv() && writers == old(writers) + [w] && requests == old(requests) + [request]
      ensures w == old(|requests|)
    {
      hide Joined, Adjacent, MemHas;
      w := |requests|;
      writers := writers + [w];
      requests := requests + [request];
      if phase != Open {
        JoinedSame(old(requests), requests, phase.group.first, phase.group.count);
      }
      forall x | x in groups ensures ServedOk(x) {
        assert old(ServedOk(x));
        if x.status == Ok || x.done > 0 {
          JoinedSame(old(requests), requests, x.group.first, x.group.count);
        }
      }
    }

    /** A reader takes the last sequence number. */
    method TakeSnapshot() returns (s: nat)
      requires Inv()
      modifies `snapshots
      ensures Inv() && s == lastSequence && snapshots == old(snapshots) + {s}
    {
      s := lastSequence;
      snapshots := snapshots + {s};
      forall t, x | t in snapshots && x in groups ensures Apart(t, x) {
        if t == s {
          var i :| 0 <= i < |groups| && groups[i] == x;
          RangeBound(groups, lastSequence, Gone(), i);
        } else {
          assert t in old(snapshots) && Apart(t, x);
        }
      }
    }

    method BuildBatchGroup() returns (n: nat, ops: seq<Op>)
      requires QueueOk() && writers != [] && requests[writers[0]].batch.Some?
      ensures 0 < n <= |writers|
      ensures ops == Joined(requests, Gone(), n)
      ensures LongestFront(requests, Gone(), n, |writers|)
    {
      hide Joined, Bytes, StopsAt;
      ghost var gone := Gone();
      var first := requests[writers[0]];
      var size := first.batch.value.bytes;
      var maxSize := if size <= 0x2_0000 then size + 0x2_0000 else 0x10_0000;
      ops := first.batch.value.ops;
      n := 1;
      FirstOnly(requests, gone);
      while n < |writers|
        invariant 0 < n <= |writers|
        invariant ops == Joined(requests, gone, n) && size == Bytes(requests, gone, n)
        invariant forall i {:trigger StopsAt(requests, gone, i)} :: 0 < i < n ==> !StopsAt(requests, gone, i)
      {
        var w := requests[writers[n]];
        OneMore(requests, gone, n);
        if w.sync && !first.sync {
          break;
        }
        if w.batch.Some? {
          size := size + w.batch.value.bytes;
          if size > maxSize {
            break;
          }
          ops := ops + w.batch.value.ops;
        }
        n := n + 1;
      }
    }

    /** The front writer leads: it fails, or has no batch, or forms the longest group that it may. */
    method Lead(room: bool)
      requires Inv() && phase == Open && writers != []
      modifies `writers, `results, `lastSequence, `phase, `groups
      ensures Inv() && lastSequence == old(lastSequence) && old(groups) <= groups
      ensures var w := old(writers[0]);
              && w < |requests|
              && if room && requests[w].batch.Some?
                 then phase.Logging? && phase.group.first == w && phase.group.start == lastSequence + 1 &&
                      w + |writers| == |requests| && 0 < phase.group.count <= |writers| &&
                      LongestFront(requests, w, phase.group.count, |writers|) && writers == old(writers)
                 else phase == Open && writers == old(writers[1..]) && w in results &&
                      results[w] == if room then Ok else Failed
    {
      var w := writers[0];
      if !room || requests[w].batch.None? {
        LeaveAlone(if room then Ok else Failed);
      } else {
        var n, ops := BuildBatchGroup();
        phase := Logging(Group(w, n, ops, lastSequence + 1));
        forall x | w <= x < w + n && requests[x].sync ensures requests[w].sync {
          assert x > w ==> !StopsAt(requests, w, x - w);
        }
      }
    }

    method LeaveAlone(status: Status)
      requires Inv() && phase == Open && writers != []
      requires status == Ok ==> requests[writers[0]].batch.None?
      modifies `writers, `results, `lastSequence, `phase, `groups
      ensures Inv() && lastSequence == old(lastSequence) && phase == Open && writers == old(writers[1..])
      ensures old(groups) <= groups
      ensures old(writers[0]) in results && results[old(writers[0])] == status
    {
      var g := Group(writers[0], 1, [], lastSequence + 1);
      assert Joined(requests, g.first, 0) == [];
      Leave(g, status, 0);
      forall e ensures Inserted(groups, e) <==> Inserted(old(groups), e) {
        InsertedNext(old(groups), Served(g, status, 0), e);
      }
      forall x | x in groups ensures ServedOk(x) {
        assert x in old(groups) || x == Served(g, status, 0);
      }
    }

    /** The served writers leave the queue with the status of their group. */
    method Leave(g: Group, status: Status, ghost done: nat)
      requires Inv() && 0 < g.count <= |writers| && g.first == Gone()
      requires g.start == lastSequence + 1
      modifies `writers, `results, `lastSequence, `phase, `groups
      ensures writers == old(writers[g.count..])
      ensures lastSequence + 1 == g.End() && phase == Open && groups == old(groups) + [Served(g, status, done)]
      ensures QueueOk() && RangesOk() && SnapshotsOk()
      ensures forall x {:trigger ServedOk(x)} :: x in old(groups) ==> ServedOk(x)
      ensures forall w :: g.first <= w < g.Next() ==> w in results && results[w] == status
    {
      AdjacentNext(groups, lastSequence, Gone(), Served(g, status, done));
      PopWriters(g.count, status);
      forall x | x in groups ensures ServedOk(x) {
        assert old(ServedOk(x));
        var i :| 0 <= i < |groups| && groups[i] == x;
        RangeBound(groups, lastSequence, g.first, i);
      }
      lastSequence := g.End() - 1;
      phase := Open;
      groups := groups + [Served(g, status, done)];
      forall s, x | s in snapshots && x in groups ensures Apart(s, x) {
        assert x in old(groups) || x == Served(g, status, done);
      }
    }

    /** Pop the writers of a group, the leader with them, and give each its result. */
    method PopWriters(n: nat, status: Status)
      requires QueueOk() && n <= |writers|
      modifies `writers, `results
      ensures QueueOk() && writers == old(writers[n..])
      ensures forall w :: w in results ==> results[w] == if w < old(Gone()) then old(results)[w] else status
    {
      var i := 0;
      while i < n
        invariant 0 <= i <= n && writers == old(writers)[i..] && QueueOk()
        invariant forall w :: w in results ==> results[w] == if w < old(Gone()) then old(results)[w] else status
      {
        var ready := writers[0];
        writers := writers[1..];
        results := results[ready := status];
        i := i + 1;
      }
    }

    // ----- The leader, without the mutex -----

    /** The leader appends the group to the log, and syncs it if it asked for that.  After a failure
        nothing is inserted, but the sequence numbers are used up. */
    method AddToLog(added: bool, synced: bool)
      requires Inv() && phase.Logging?
      modifies `writers, `results, `lastSequence, `phase, `groups, `log
      ensures Inv() && old(groups) <= groups
      ensures var g := old(phase.group);
              && log == (if added then old(log) + [Record(g.start, g.ops)] else old(log))
              && g.first < |requests|
              && if added && (requests[g.first].sync ==> synced)
                 then phase == Inserting(g, 0) && lastSequence == old(lastSequence)
                 else phase == Open && lastSequence + 1 == g.End() && groups == old(groups) + [Served(g, Failed, 0)]
    {
      var leader := phase.group.first;
      if added {
        AppendRecord();
      }
      if added && (requests[leader].sync ==> synced) {
        StartInserting();
      } else {
        GiveUp();
      }
    }

    method AppendRecord()
      requires Inv() && phase.Logging?
      modifies `log
      ensures Inv() && log == old(log) + [Record(phase.group.start, phase.group.ops)]
    {
      log := log + [Record(phase.group.start, phase.group.ops)];
      forall x | x in groups ensures ServedOk(x) {
        assert old(ServedOk(x));
      }
    }

    method StartInserting()
      requires Inv() && phase.Logging? && Record(phase.group.start, phase.group.ops) in log
      modifies `phase
      ensures Inv() && phase == Inserting(old(phase.group), 0)
    {
      phase := Inserting(phase.group, 0);
    }

    method GiveUp()
      requires Inv() && phase.Logging?
      modifies `writers, `results, `lastSequence, `phase, `groups
      ensures Inv() && phase == Open && lastSequence + 1 == old(phase.group).End()
      ensures groups == old(groups) + [Served(old(phase.group), Failed, 0)]
    {
      var g := phase.group;
      Leave(g, Failed, 0);
      forall e ensures Inserted(groups, e) <==> Inserted(old(groups), e) {
        InsertedNext(old(groups), Served(g, Failed, 0), e);
      }
      forall x | x in groups ensures ServedOk(x) {
        assert x in old(groups) || x == Served(g, Failed, 0);
      }
    }

    /** The leader inserts one more operation into the memtable, where readers may be. */
    method InsertNext()
      requires Inv() && phase.Inserting? && phase.next < |phase.group.ops|
      modifies `mem, `phase
      ensures Inv() && phase == Inserting(old(phase.group), old(phase.next) + 1)
      ensures var g, n := old(phase.group), old(phase.next);
              mem == old(mem) + {EntryOf(g.ops[n], g.start + n)} && forall s :: s in snapshots ==> s < g.start + n
    {
      var g, n := phase.group, phase.next;
      var e := EntryOf(g.ops[n], g.start + n);
      MemNext(mem, groups, g, n);
      mem := mem + {e};
      phase := Inserting(g, n + 1);
    }

    /** The whole group is inserted: its sequence numbers become visible and its writers leave. */
    method Close()
      requires Inv() && phase.Inserting? && phase.next == |phase.group.ops|
      modifies `writers, `results, `lastSequence, `phase, `groups
      ensures Inv() && phase == Open && lastSequence + 1 == old(phase.group).End()
      ensures groups == old(groups) + [Served(old(phase.group), Ok, |old(phase.group).ops|)]
      ensures forall key :: Read(mem, key, lastSequence) ==
                AfterWriters(requests, old(phase.group).first, old(phase.group).count, key, Read(mem, key, old(lastSequence)))
    {
      var g := phase.group;
      forall key { LastRead(key); }
      Leave(g, Ok, |g.ops|);
      forall e ensures Inserted(groups, e) <==> Inserted(old(groups), e) || e in Entries(g.ops, g.start, |g.ops|) {
        InsertedNext(old(groups), Served(g, Ok, |g.ops|), e);
      }
      forall x | x in groups ensures ServedOk(x) {
        assert x in old(groups) || x == Served(g, Ok, |g.ops|);
      }
      forall key ensures Read(mem, key, lastSequence) == AfterWriters(requests, g.first, g.count, key, Read(mem, key, old(lastSequence))) {
        ServedRead(old(groups), Served(g, Ok, |g.ops|), key);
        AfterJoined(requests, g.first, g.count, key, Read(mem, key, old(lastSequence)));
      }
    }

    /** The memtable refuses the batch after some of its operations: its writers are told, and the sequence
        numbers are used up. */
    method InsertFails()
      requires Inv() && phase.Inserting?
      modifies `writers, `results, `lastSequence, `phase, `groups
      ensures Inv() && phase == Open && lastSequence + 1 == old(phase.group).End()
      ensures groups == old(groups) + [Served(old(phase.group), Failed, old(phase.next))]
      ensures forall key :: Read(mem, key, lastSequence) ==
                After(old(phase.group).ops, old(phase.next), key, Read(mem, key, old(lastSequence)))
    {
      var g, n := phase.group, phase.next;
      forall key { LastRead(key); }
      Leave(g, Failed, n);
      forall e ensures Inserted(groups, e) <==> Inserted(old(groups), e) || e in Entries(g.ops, g.start, n) {
        InsertedNext(old(groups), Served(g, Failed, n), e);
      }
      forall x | x in groups ensures ServedOk(x) {
        assert x in old(groups) || x == Served(g, Failed, n);
      }
      forall key ensures Read(mem, key, lastSequence) == After(g.ops, n, key, Read(mem, key, old(lastSequence))) {
        ServedRead(old(groups), Served(g, Failed, n), key);
      }
    }

    // ----- What the invariant promises -----

    /** What a reader at `s` sees is what was inserted for the groups that ended by `s`: all of every successful
        group, and nothing of the group that is being inserted. */
    lemma {:induction false} SnapshotsAtomic(s: nat)
      requires Inv() && s in snapshots
      ensures forall e :: e in mem && e.sequence <= s <==> exists x :: x in groups && x.group.End() <= s + 1 && e in x.Part()
      ensures forall x :: x in groups && x.status == Ok ==> x.Part() == Entries(x.group.ops, x.group.start, |x.group.ops|)
    {
      forall x | x in groups ensures x.done <= |x.group.ops| && (x.status == Ok ==> x.done == |x.group.ops|) {
        assert ServedOk(x);
      }
      forall e | e in mem && e.sequence <= s ensures exists x :: x in groups && x.group.End() <= s + 1 && e in x.Part() {
        if phase.Inserting? && e in Entries(phase.group.ops, phase.group.start, phase.next) {
          EntriesRange(phase.group.ops, phase.group.start, phase.next, e);
        }
        assert Inserted(groups, e);
        var x :| x in groups && e in x.Part();
        EntriesRange(x.group.ops, x.group.start, x.done, e);
        assert Apart(s, x);
      }
      forall e, x | x in groups && x.group.End() <= s + 1 && e in x.Part() ensures e in mem && e.sequence <= s {
        EntriesRange(x.group.ops, x.group.start, x.done, e);
        assert Inserted(groups, e);
      }
    }

    /** What a reader sees belongs to the groups that ended by then. */
    lemma {:induction false} SeenIsOfGroups(i: nat, s: nat, e: Entry)
      requires Inv() && i <= |groups| && s <= lastSequence && e in mem && e.sequence <= s
      requires i < |groups| ==> s < groups[i].group.start
      ensures e in EntriesOfGroups(groups, i)
    {
      if phase.Inserting? && e in Entries(phase.group.ops, phase.group.start, phase.next) {
        EntriesRange(phase.group.ops, phase.group.start, phase.next, e);
      }
      assert Inserted(groups, e);
      var x :| x in groups && e in x.Part();
      var j :| 0 <= j < |groups| && groups[j] == x;
      EntriesRange(x.group.ops, x.group.start, x.done, e);
      assert i < |groups| ==> Left(groups, i).0 == groups[i].group.start;
      if j >= i {
        assert Left(groups, j).0 == groups[j].group.start;
        EndsAscend(groups, lastSequence, Gone(), i, j);
      }
      PartOfGroups(groups, i, e);
    }

    lemma {:induction false} OfGroupsIsInserted(i: nat, e: Entry)
      requires Inv() && i <= |groups| && e in EntriesOfGroups(groups, i)
      ensures e in mem
    {
      PartOfGroups(groups, i, e);
      var j :| 0 <= j < i && e in groups[j].Part();
      assert groups[j] in groups;
      assert Inserted(groups, e);
    }

    /** A reader at the end of the first `i` groups sees exactly what was inserted for them. */
    lemma {:induction false} SeenAt(i: nat, s: nat, e: Entry)
      requires Inv() && i <= |groups| && s <= lastSequence
      requires i < |groups| ==> s < groups[i].group.start
      ensures e in mem && Visible(e, s) <==> e in EntriesOfGroups(groups, i) && Visible(e, s)
    {
      if e in mem && e.sequence <= s {
        SeenIsOfGroups(i, s, e);
      }
      if e in EntriesOfGroups(groups, i) {
        OfGroupsIsInserted(i, e);
      }
    }

    /** What a reader gets at the last sequence number: what the operations of the served groups say, one after another. */
    lemma {:induction false} LastRead(key: UserKey)
      requires Inv()
      ensures Read(mem, key, lastSequence) == AfterGroups(groups, |groups|, key)
    {
      ReadsGroups(lastSequence, |groups|, key);
    }

    /** After one more group, its operations are added to what was read before. */
    lemma {:induction false} ServedRead(before: seq<Served>, x: Served, key: UserKey)
      requires Inv() && groups == before + [x] && x.done <= |x.group.ops|
      ensures Read(mem, key, lastSequence) == After(x.group.ops, x.done, key, AfterGroups(before, |before|, key))
    {
      LastRead(key);
      AfterGroupsNext(before, x, |before|, key);
    }

    /** The groups that ended by a snapshot are the first ones. */
    lemma {:induction false} EndedBy(s: nat, i: nat) returns (n: nat)
      requires Inv() && s in snapshots && i <= |groups| && Left(groups, i).0 <= s + 1
      ensures i <= n <= |groups| && Left(groups, n).0 <= s + 1
      ensures n < |groups| ==> s < groups[n].group.start
      decreases |groups| - i
    {
      if i < |groups| && groups[i].group.End() <= s + 1 {
        assert Left(groups, i + 1).0 == groups[i].group.End();
        n := EndedBy(s, i + 1);
      } else {
        n := i;
        if i < |groups| {
          assert Apart(s, groups[i]);
        }
      }
    }

    /** The first `n` groups ended by then, and the others start later. */
    lemma {:induction false} EndedFirst(s: nat, n: nat)
      requires RangesOk() && n <= |groups| && Left(groups, n).0 <= s + 1 && (n < |groups| ==> s < groups[n].group.start)
      ensures forall i :: 0 <= i < |groups| ==> if i < n then groups[i].group.End() <= s + 1 else s < groups[i].group.start
    {
      forall i | 0 <= i < |groups| ensures if i < n then groups[i].group.End() <= s + 1 else s < groups[i].group.start {
        if i < n {
          assert Left(groups, i + 1).0 == groups[i].group.End();
          EndsAscend(groups, lastSequence, Gone(), i + 1, n);
        } else {
          EndsAscend(groups, lastSequence, Gone(), n, i);
          AdjacentAt(groups, lastSequence, Gone(), n);
          AdjacentAt(groups, lastSequence, Gone(), i);
        }
      }
    }

    /** What a reader at a snapshot gets: what the operations of the groups that ended by then say, one after another. */
    lemma {:induction false} SnapshotReads(s: nat, key: UserKey) returns (n: nat)
      requires Inv() && s in snapshots
      ensures n <= |groups| && Read(mem, key, s) == AfterGroups(groups, n, key)
      ensures forall i :: 0 <= i < |groups| ==> if i < n then groups[i].group.End() <= s + 1 else s < groups[i].group.start
    {
      n := EndedBy(s, 0);
      EndedFirst(s, n);
      ReadsGroups(s, n, key);
    }

    lemma {:induction false} ReadsGroups(s: nat, n: nat, key: UserKey)
      requires Inv() && n <= |groups| && Left(groups, n).0 <= s + 1 <= lastSequence + 1 && (n < |groups| ==> s < groups[n].group.start)
      ensures Read(mem, key, s) == AfterGroups(groups, n, key)
    {
      hide AfterGroups, EntriesOfGroups, Read, Unique;
      GroupsMean(groups, lastSequence, Gone(), n, key, s);
      forall e ensures e in mem && Visible(e, s) <==> e in EntriesOfGroups(groups, n) && Visible(e, s) {
        SeenAt(n, s, e);
      }
      SameVisible(mem, EntriesOfGroups(groups, n), key, s, s);
    }

    /** What is in the memtable was logged before: a log record of its batch exists. */
    lemma {:induction false} LoggedFirst(e: Entry)
      requires Inv() && e in mem
      ensures exists r :: r in log && e in Entries(r.ops, r.start, |r.ops|)
    {
      if s :| s in groups && e in s.Part() {
        assert ServedOk(s);
        var r := Record(s.group.start, s.group.ops);
        EntriesGrow(r.ops, r.start, s.done, |r.ops|);
        assert r in log && e in Entries(r.ops, r.start, |r.ops|);
      } else {
        var r := Record(phase.group.start, phase.group.ops);
        EntriesGrow(r.ops, r.start, phase.next, |r.ops|);
        assert r in log && e in Entries(r.ops, r.start, |r.ops|);
      }
    }

    /** One thread does one thing; nothing happens if its turn has not come. */
    method Perform(a: Action)
      requires Inv()
      modifies this
      ensures Inv() && old(lastSequence) <= lastSequence
      ensures old(groups) <= groups && old(snapshots) <= snapshots
      ensures requests == old(requests) + if a.Joins? then [a.request] else []
      ensures a.Snapshots? ==> snapshots == old(snapshots) + {lastSequence}
      ensures a.Leads? && old(phase == Open && writers != []) ==> phase.Logging? || writers == old(writers[1..])
      ensures a.Logs? && old(phase.Logging?) ==> !phase.Logging?
      ensures a.Inserts? && old(phase.Inserting?) ==>
        if old(phase.next) < |old(phase.group).ops| then phase == Inserting(old(phase.group), old(phase.next) + 1) else phase == Open
      ensures a.InsertFails? && old(phase.Inserting?) ==> phase == Open
    {
      match a {
        case Joins(request) =>
          var _ := Join(request);
        case Snapshots =>
          var _ := TakeSnapshot();
        case _ =>
          LeaderStep(a);
      }
    }

    method LeaderStep(a: Action)
      requires Inv()
      modifies `writers, `results, `lastSequence, `log, `mem, `phase, `groups
      ensures Inv() && old(lastSequence) <= lastSequence && old(groups) <= groups
      ensures a.Leads? && old(phase == Open && writers != []) ==> phase.Logging? || writers == old(writers[1..])
      ensures a.Logs? && old(phase.Logging?) ==> !phase.Logging?
      ensures a.Inserts? && old(phase.Inserting?) ==>
        if old(phase.next) < |old(phase.group).ops| then phase == Inserting(old(phase.group), old(phase.next) + 1) else phase == Open
      ensures a.InsertFails? && old(phase.Inserting?) ==> phase == Open
    {
      match a {
        case Leads(room) =>
          if phase == Open && writers != [] { Lead(room); }
        case Logs(added, synced) =>
          if phase.Logging? { AddToLog(added, synced); }
        case Inserts =>
          if phase.Inserting? {
            if phase.next < |phase.group.ops| { InsertNext(); } else { Close(); }
          }
        case InsertFails =>
          if phase.Inserting? { InsertFails(); }
        case _ =>
      }
    }
  }

  lemma {:induction false} EntriesGrow(ops: seq<Op>, start: nat, m: nat, n: nat)
    requires m <= n <= |ops|
    ensures Entries(ops, start, m) <= Entries(ops, start, n)
  {
    if m < n {
      EntriesGrow(ops, start, m, n - 1);
    }
  }

  datatype Action =
    | Joins(request: Request) | Snapshots
    | Leads(room: bool) | Logs(added: bool, synced: bool) | Inserts | InsertFails

  /** The writers that come, in their order. */
  function Arrivals(schedule: seq<Action>): seq<Request> {
    if schedule == [] then []
    else
      var last := schedule[|schedule| - 1];
      Arrivals(schedule[..|schedule| - 1]) + if last.Joins? then [last.request] else []
  }

  /** Any interleaving keeps the invariant, and with it what is shown about it above. */
  method Run(schedule: seq<Action>) returns (db: WriteQueue)
    ensures fresh(db) && db.Inv() && db.requests == Arrivals(schedule)
  {
    db := new WriteQueue();
    for i := 0 to |schedule|
      invariant fresh(db) && db.Inv() && db.requests == Arrivals(schedule[..i])
    {
      db.Perform(schedule[i]);
      assert schedule[..i + 1][..i] == schedule[..i];
    }
    assert schedule[..|schedule|] == schedule;
  }
}
