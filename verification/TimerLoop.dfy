/** The timers of an event loop. */
module TimerLoop {
  import opened Common
  import opened TimerHeap

  const UINT64_MAX: nat := 0xffff_ffff_ffff_ffff

  const INT_MAX: nat := 0x7fff_ffff

  const UV_EINVAL: int := -22

  /** The unsigned 64-bit sum of the loop time and the timeout, or the maximum if it wraps. */
  function Deadline(time: nat, timeout: nat): (r: nat)
    requires time <= UINT64_MAX && timeout <= UINT64_MAX
    ensures r == Min(time + timeout, UINT64_MAX)
  {
    var clamped := (time + timeout) % (UINT64_MAX + 1);
    if clamped < timeout then UINT64_MAX else clamped
  }

  class Loop {
    const heap: Heap
    var time: nat
    var timerCounter: nat

    /** Started timers have a callback and a start number that no other has. */
    ghost predicate Valid()
      reads this, heap, heap.slots, heap.nodes
    {
      && heap.Valid() && time <= UINT64_MAX && heap.nelts <= UINT_MAX
      && (forall x :: x in heap.nodes ==> Started(x))
      && (forall x, y :: x in heap.nodes && y in heap.nodes ==> StartedApart(x, y))
    }

    ghost predicate StartedApart(x: Timer, y: Timer)
      reads x`startId, y`startId
    {
      x.startId == y.startId ==> x == y
    }

    ghost predicate Started(x: Timer)
      reads this, x
    {
      x.active && x.hasCallback && !x.closing && x.startId < timerCounter && x.timeout <= UINT64_MAX && x.repeat <= UINT64_MAX
    }

    constructor (time: nat)
      requires time <= UINT64_MAX
      ensures Valid() && fresh(heap) && heap.nodes == {} && this.time == time
    {
      heap := new Heap();
      this.time := time;
      timerCounter := 0;
    }

    /** uv_timer_start: the timeout is counted from the loop time and saturates. */
    method Start(handle: Timer, callback: bool, timeout: nat, repeat: nat) returns (rc: int)
      requires Valid() && (handle.active <==> handle in heap.nodes)
      requires timeout <= UINT64_MAX && repeat <= UINT64_MAX && timerCounter < UINT64_MAX && heap.nelts < UINT_MAX
      modifies this`timerCounter, heap, handle, heap.nodes`left, heap.nodes`right, heap.nodes`parent
      ensures Valid() && (handle.active <==> handle in heap.nodes)
      ensures rc == if handle.closing || !callback then -22 else 0
      ensures rc != 0 ==>
        && heap.nodes == old(heap.nodes) && handle.timeout == old(handle.timeout)
        && handle.startId == old(handle.startId) && handle.repeat == old(handle.repeat) && timerCounter == old(timerCounter)
      ensures rc == 0 ==>
        && heap.nodes == old(heap.nodes) + {handle} && handle.repeat == repeat
        && handle.timeout == Min(time + timeout, 0xffff_ffff_ffff_ffff) && handle.startId == old(timerCounter)
      ensures rc == 0 ==> timerCounter == old(timerCounter) + 1
      ensures handle.closing == old(handle.closing) && handle.hasCallback == (rc == 0 || old(handle.hasCallback))
    {
      if handle.closing || !callback {
        return UV_EINVAL;
      }
      if handle.active {
        var _ := Stop(handle);
      }
      Arm(handle, timeout, repeat);
      rc := 0;
    }

    lemma {:induction false} NotInSlots(handle: Timer)
      requires Valid() && handle !in heap.nodes
      ensures handle !in heap.slots
    {
      NotListed(heap.nodes, heap.slots, handle);
    }

    /** Set the fields of an idle timer and put it in the heap. */
    method Arm(handle: Timer, timeout: nat, repeat: nat)
      requires Valid() && handle !in heap.nodes && !handle.closing
      requires timeout <= UINT64_MAX && repeat <= UINT64_MAX && timerCounter < UINT64_MAX && heap.nelts < UINT_MAX
      modifies this`timerCounter, heap, handle, heap.nodes`left, heap.nodes`right, heap.nodes`parent
      ensures Valid() && handle.active && handle.hasCallback && heap.nodes == old(heap.nodes) + {handle}
      ensures handle.timeout == Min(time + timeout, UINT64_MAX) && handle.repeat == repeat && handle.closing == old(handle.closing)
      ensures handle.startId == old(timerCounter) && timerCounter == old(timerCounter) + 1
      ensures heap.nelts == old(heap.nelts) + 1
    {
      hide Heap.Valid;
      NotInSlots(handle);
      handle.hasCallback := true;
      handle.timeout := Deadline(time, timeout);
      handle.repeat := repeat;
      handle.startId := timerCounter;
      timerCounter := timerCounter + 1;
      ghost var others := heap.nodes;
      heap.Insert(handle);
      handle.active := true;
      forall x | x in others ensures Started(x) && StartedApart(x, handle) && StartedApart(handle, x) {
        assert old(Started(x));
      }
      forall x, y | x in others && y in others ensures StartedApart(x, y) {
        assert old(StartedApart(x, y));
      }
    }

    method Stop(handle: Timer) returns (rc: int)
      requires Valid() && (handle.active <==> handle in heap.nodes)
      modifies heap, handle`active, heap.nodes`left, heap.nodes`right, heap.nodes`parent
      ensures Valid() && rc == 0 && !handle.active
      ensures heap.nodes == old(heap.nodes) - {handle}
      ensures heap.nelts == if old(handle.active) then old(heap.nelts) - 1 else old(heap.nelts)
    {
      rc := 0;
      if !handle.active {
        return;
      }
      heap.Remove(handle);
      handle.active := false;
    }

    /** uv_timer_again: restart a repeating timer with its repeat value as the timeout. */
    method Again(handle: Timer) returns (rc: int)
      requires Valid() && (handle.active <==> handle in heap.nodes) && handle.repeat <= UINT64_MAX
      requires timerCounter < UINT64_MAX && heap.nelts < UINT_MAX
      modifies this`timerCounter, heap, handle, heap.nodes`left, heap.nodes`right, heap.nodes`parent
      ensures Valid() && (handle.active <==> handle in heap.nodes)
      ensures rc == if handle.hasCallback then 0 else UV_EINVAL
      ensures handle.repeat == old(handle.repeat) && handle.hasCallback == old(handle.hasCallback)
      ensures var restarts := old(handle.hasCallback && handle.repeat > 0 && !handle.closing);
        && (restarts ==>
              && heap.nodes == old(heap.nodes) + {handle} && handle.startId == old(timerCounter)
              && handle.timeout == Min(time + handle.repeat, UINT64_MAX))
        && (!restarts ==> handle.timeout == old(handle.timeout) && handle.startId == old(handle.startId))
        && (old(handle.repeat == 0) ==> heap.nodes == old(heap.nodes))
      ensures old(timerCounter) <= timerCounter <= old(timerCounter) + 1
    {
      if !handle.hasCallback {
        return UV_EINVAL;
      }
      if handle.repeat > 0 {
        var _ := Stop(handle);
        var _ := Start(handle, handle.hasCallback, handle.repeat, handle.repeat);
      }
      rc := 0;
    }

    /** The time to the next timeout: -1 for never, 0 for overdue. */
    method NextTimeout() returns (r: int)
      requires Valid()
      ensures -1 <= r <= 0x7fff_ffff
      ensures r == -1 <==> heap.nodes == {}
      ensures r == 0 <==> exists x :: x in heap.nodes && x.timeout <= time
      ensures r == 0x7fff_ffff ==> forall x :: x in heap.nodes ==> time + 0x7fff_ffff <= x.timeout
      ensures 0 < r < 0x7fff_ffff ==>
        && (exists x :: x in heap.nodes && x.timeout == time + r)
        && (forall x :: x in heap.nodes ==> time + r <= x.timeout)
    {
      if heap.min == null {
        NoRoot();
        return -1;
      }
      RootIsMin();
      if heap.min.timeout <= time {
        return 0;
      }
      var diff := heap.min.timeout - time;
      r := if diff > INT_MAX then INT_MAX else diff;
    }

    lemma {:induction false} NoRoot()
      requires Valid() && heap.min == null
      ensures heap.nodes == {}
    {
      forall x | x in heap.nodes ensures x in heap.slots {
      }
    }

    lemma {:induction false} RootIsMin()
      requires Valid() && heap.min != null
      ensures heap.min in heap.nodes
      ensures forall x :: x in heap.nodes ==>
        heap.min.timeout < x.timeout || (heap.min.timeout == x.timeout && heap.min.startId <= x.startId)
    {
      assert Member(heap.nodes, heap.slots, 0);
      forall x | x in heap.nodes
        ensures heap.min.timeout < x.timeout || (heap.min.timeout == x.timeout && heap.min.startId <= x.startId)
      {
        assert x in heap.slots;
        var i :| 0 <= i < |heap.slots| && heap.slots[i] == x;
        RootIsLeast(heap.slots, i);
      }
    }

    // ----- uv__run_timers -----

    /** Due at the loop time. */
    ghost predicate IsDue(x: Timer)
      reads x`timeout, this`time
    {
      x.timeout <= time
    }

    /** Still in the heap with the key it had. */
    ghost predicate Untouched(keys: map<Timer, Key>, x: Timer)
      reads this, heap, x`timeout, x`startId
    {
      x in keys && x in heap.nodes && Key(x.timeout, x.startId) == keys[x]
    }

    /** Fired: restarted if it repeats, gone if it does not. */
    ghost predicate Restarted(x: Timer)
      reads this, heap, x`timeout, x`repeat
    {
      if x.repeat > 0 then x in heap.nodes && x.timeout == Min(time + x.repeat, UINT64_MAX) else x !in heap.nodes
    }

    /** Stop the root timer, and start it over if it repeats. */
    method Expire(handle: Timer)
      requires Valid() && handle in heap.nodes && timerCounter < UINT64_MAX
      modifies this`timerCounter, heap, handle, heap.nodes`left, heap.nodes`right, heap.nodes`parent
      ensures Valid() && handle.repeat == old(handle.repeat)
      ensures old(timerCounter) <= timerCounter <= old(timerCounter) + 1
      ensures handle.repeat > 0 ==>
        heap.nodes == old(heap.nodes) && handle.timeout == Min(time + handle.repeat, UINT64_MAX)
      ensures handle.repeat == 0 ==> heap.nodes == old(heap.nodes) - {handle}
    {
      var _ := Stop(handle);
      var _ := Again(handle);
    }

    /** Part-way through a run: `pending` of the `due` timers have not fired yet. */
    ghost predicate Progress(all: set<Timer>, due: set<Timer>, pending: set<Timer>, keys: map<Timer, Key>)
      reads this, heap, all`timeout, all`startId, all`repeat
    {
      && pending <= due <= all && heap.nodes <= all
      && (forall x :: x in all && (x in pending || x !in due) ==> Untouched(keys, x))
      && (forall x :: x in due - pending ==> Restarted(x))
    }

    /** One turn of the loop. */
    method Turn(handle: Timer, ghost all: set<Timer>, ghost due: set<Timer>, ghost pending: set<Timer>, ghost keys: map<Timer, Key>)
      requires Valid() && Progress(all, due, pending, keys) && handle in pending && handle.timeout <= time
      requires timerCounter + |pending| < UINT64_MAX
      modifies this`timerCounter, heap, handle, heap.nodes`left, heap.nodes`right, heap.nodes`parent
      ensures Valid() && Progress(all, due, pending - {handle}, keys)
      ensures handle.repeat == old(handle.repeat)
      ensures timerCounter + |pending - {handle}| < UINT64_MAX
    {
      assert Untouched(keys, handle);
      ghost var nodes := heap.nodes;
      Expire(handle);
      assert nodes - {handle} <= heap.nodes <= nodes;
      forall x | x in all && x != handle && (x in pending || x !in due) ensures Untouched(keys, x) {
        assert old(Untouched(keys, x));
      }
      forall x | x in due - pending ensures Restarted(x) {
        assert old(Restarted(x));
      }
      assert Restarted(handle);
    }

    /** The root is pending, and fires before whatever else is. */
    lemma {:induction false} RootFiresNext(all: set<Timer>, due: set<Timer>, pending: set<Timer>, keys: map<Timer, Key>)
      requires Valid() && Progress(all, due, pending, keys) && heap.min != null && heap.min.timeout <= time < UINT64_MAX
      requires forall x :: x in due <==> x in all && x in keys && keys[x].timeout <= time
      ensures heap.min in pending
      ensures forall y :: y in pending && y != heap.min ==> FiresBefore(keys, heap.min, y)
    {
      RootIsMin();
      var handle := heap.min;
      assert handle in due - pending ==> Restarted(handle);
      assert handle in pending || handle !in due ==> Untouched(keys, handle);
      forall y | y in pending && y != handle ensures FiresBefore(keys, handle, y) {
        assert Untouched(keys, y) && StartedApart(handle, y);
      }
    }

    /** Once the root is not due, nothing is pending. */
    lemma {:induction false} NothingPending(all: set<Timer>, due: set<Timer>, pending: set<Timer>, keys: map<Timer, Key>)
      requires Valid() && Progress(all, due, pending, keys) && (heap.min != null ==> time < heap.min.timeout)
      requires forall x :: x in due <==> x in all && x in keys && keys[x].timeout <= time
      ensures pending == {} && forall x :: x in heap.nodes ==> time < x.timeout
    {
      if heap.min == null {
        NoRoot();
      } else {
        RootIsMin();
      }
      forall x | x in all && (x in pending || x !in due) ensures time < keys[x].timeout {
        assert Untouched(keys, x);
      }
    }

    /** Every timer due, once, by timeout and then by start order; callbacks touch no timers.
        The repeating ones start over, the others leave the heap. */
    method RunTimers() returns (fired: seq<Timer>)
      requires Valid() && time < UINT64_MAX && timerCounter + |heap.nodes| < UINT64_MAX
      modifies this`timerCounter, heap, heap.nodes
      ensures Valid() && time == old(time)
      ensures forall x :: x in fired <==> x in old(heap.nodes) && old(x.timeout) <= time
      ensures forall i, j :: 0 <= i < j < |fired| && fired[i] in old(heap.nodes) && fired[j] in old(heap.nodes) ==>
        || old(fired[i].timeout) < old(fired[j].timeout)
        || (old(fired[i].timeout) == old(fired[j].timeout) && old(fired[i].startId) < old(fired[j].startId))
      ensures forall x :: x in heap.nodes <==> x in old(heap.nodes) && (x in fired ==> old(x.repeat) > 0)
      ensures forall x :: x in heap.nodes ==> time < x.timeout
      ensures forall x :: x in heap.nodes ==>
        x.timeout == if x in fired then Min(time + old(x.repeat), UINT64_MAX) else old(x.timeout)
      ensures forall x :: x in heap.nodes && x !in fired ==> x.startId == old(x.startId)
    {
      hide Heap.Valid, InOrder;
      ghost var all := heap.nodes;
      ghost var due := set x | x in all && IsDue(x);
      ghost var keys := map x | x in all :: Key(x.timeout, x.startId);
      SubsetSize(due, all);
      fired := FireDue(all, due, keys);
      assert due - {} == due;
      forall x | x in all ensures if x in fired then Restarted(x) else Untouched(keys, x) {
      }
      KeysInOrder(fired, keys, due);
    }

    method FireDue(ghost all: set<Timer>, ghost due: set<Timer>, ghost keys: map<Timer, Key>) returns (fired: seq<Timer>)
      requires Valid() && time < UINT64_MAX && timerCounter + |due| < UINT64_MAX
      requires Progress(all, due, due, keys) && all == heap.nodes && keys.Keys == all
      requires forall x :: x in due <==> x in all && x in keys && keys[x].timeout <= time
      modifies this`timerCounter, heap, all
      ensures Valid() && Progress(all, due, {}, keys) && InOrder(fired, keys, due - {}, {})
      ensures forall x :: x in all ==> x.repeat == old(x.repeat)
      ensures forall x :: x in heap.nodes ==> time < x.timeout
    {
      fired := [];
      ghost var pending := due;
      while heap.min != null && heap.min.timeout <= time
        invariant Valid() && Progress(all, due, pending, keys)
        invariant timerCounter + |pending| < UINT64_MAX
        invariant forall x :: x in all ==> x.repeat == old(x.repeat)
        invariant InOrder(fired, keys, due - pending, pending)
        decreases pending
      {
        fired, pending := FireRoot(fired, all, due, pending, keys);
      }
      NothingPending(all, due, pending, keys);
    }

    method FireRoot(fired0: seq<Timer>, ghost all: set<Timer>, ghost due: set<Timer>, ghost pending0: set<Timer>, ghost keys: map<Timer, Key>)
      returns (fired: seq<Timer>, ghost pending: set<Timer>)
      requires Valid() && Progress(all, due, pending0, keys) && InOrder(fired0, keys, due - pending0, pending0)
      requires heap.min != null && heap.min.timeout <= time < UINT64_MAX && timerCounter + |pending0| < UINT64_MAX
      requires forall x :: x in due <==> x in all && x in keys && keys[x].timeout <= time
      modifies this`timerCounter, heap, all
      ensures Valid() && Progress(all, due, pending, keys) && InOrder(fired, keys, due - pending, pending)
      ensures pending < pending0 && timerCounter + |pending| < UINT64_MAX
      ensures forall x :: x in all ==> x.repeat == old(x.repeat)
    {
      var handle: Timer := heap.min;
      RootFiresNext(all, due, pending0, keys);
      NextInOrder(fired0, keys, due, pending0, handle);
      Turn(handle, all, due, pending0, keys);
      pending := pending0 - {handle};
      fired := fired0 + [handle];
    }
  }

  /** The order in which timers fire. */
  datatype Key = Key(timeout: nat, startId: nat) {
    predicate Precedes(k: Key) {
      timeout < k.timeout || (timeout == k.timeout && startId < k.startId)
    }
  }

  /** `fired` lists the timers of `done`, in order, and all before those of `pending`. */
  ghost predicate InOrder(fired: seq<Timer>, keys: map<Timer, Key>, done: set<Timer>, pending: set<Timer>) {
    && done + pending <= keys.Keys
    && (forall x :: x in fired ==> x in done) && (forall x :: x in done ==> x in fired)
    && (forall i, j :: 0 <= i < j < |fired| ==> FiresBefore(keys, fired[i], fired[j]))
    && (forall x, y {:trigger FiresBefore(keys, x, y)} :: x in done && y in pending ==> FiresBefore(keys, x, y))
  }

  ghost predicate FiresBefore(keys: map<Timer, Key>, x: Timer, y: Timer) {
    x in keys && y in keys && keys[x].Precedes(keys[y])
  }

  lemma {:induction false} KeysInOrder(fired: seq<Timer>, keys: map<Timer, Key>, due: set<Timer>)
    requires InOrder(fired, keys, due, {})
    ensures forall x :: x in fired <==> x in due
    ensures forall i, j :: 0 <= i < j < |fired| ==>
      && fired[i] in keys && fired[j] in keys
      && var a, b := keys[fired[i]], keys[fired[j]]; a.timeout < b.timeout || (a.timeout == b.timeout && a.startId < b.startId)
  {
    forall i, j | 0 <= i < j < |fired| ensures FiresBefore(keys, fired[i], fired[j]) {
    }
  }

  lemma {:induction false} NextInOrder(fired: seq<Timer>, keys: map<Timer, Key>, due: set<Timer>, pending: set<Timer>, x: Timer)
    requires pending <= due && InOrder(fired, keys, due - pending, pending) && x in pending
    requires forall y :: y in pending && y != x ==> FiresBefore(keys, x, y)
    ensures InOrder(fired + [x], keys, due - (pending - {x}), pending - {x})
  {
    assert due - (pending - {x}) == due - pending + {x};
  }
}
