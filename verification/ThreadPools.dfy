/** The worker pool: its queues, the slow-I/O cap, sleeping workers and cancellation. A method is one
    critical section, so a run is any interleaving of the threads. */
module ThreadPools {
  import opened Common

  type Id = nat

  /** What the shared queue holds: a request, the message to run slow work, or the exit message. */
  datatype Item = Work(id: Id) | SlowMessage | ExitMessage

  /** The work pointer of a request. */
  datatype Callback = Function | Null | Cancelled

  /** A worker at the top of its loop, waiting for the condition (and perhaps signalled already), with
      a request before or after its work function ran, past the hand-over to the loop, or gone. */
  datatype Thread = Top | Waiting(signalled: bool) | Busy(id: Id, slow: bool, ran: bool) | HandedOver(slow: bool) | Exited

  /** Where a request is. */
  datatype Stage = Queued | Pending | OnThread(t: nat) | InLoop | InBatch | BeingCancelled | Completed(cancelled: bool)

  /** What users see: a work function runs; a done callback is called. */
  datatype Event = Ran(id: Id) | Done(id: Id, cancelled: bool)

  function Without<T(==)>(s: seq<T>, x: T): seq<T> {
    if |s| == 0 then []
    else if s[0] == x then Without(s[1..], x)
    else [s[0]] + Without(s[1..], x)
  }

  lemma {:induction false} WithoutMembers<T>(s: seq<T>, x: T, y: T)
    ensures y in Without(s, x) <==> y in s && y != x
  {
    if |s| > 0 {
      WithoutMembers(s[1..], x, y);
      assert y in s <==> y == s[0] || y in s[1..];
    }
  }

  lemma {:induction false} WithoutDistinct<T>(s: seq<T>, x: T)
    requires Distinct(s)
    ensures Distinct(Without(s, x)) && |Without(s, x)| <= |s|
  {
    if |s| > 0 {
      RemoveHead(s);
      WithoutDistinct(s[1..], x);
      WithoutMembers(s[1..], x, s[0]);
      if s[0] != x {
        Prepend(s[0], Without(s[1..], x));
      }
    }
  }

  predicate IsSlow(t: Thread) {
    (t.Busy? && t.slow) || (t.HandedOver? && t.slow)
  }

  predicate IsIdle(t: Thread) {
    t.Waiting?
  }

  /** The worker is going to look at the queue. */
  predicate IsAwake(t: Thread) {
    t == Top || t == Waiting(true)
  }

  ghost function Those(threads: seq<Thread>, p: Thread -> bool): set<nat> {
    set t: nat | t < |threads| && p(threads[t])
  }

  lemma {:induction false} ThoseUpdate(threads: seq<Thread>, t: nat, x: Thread, p: Thread -> bool)
    requires t < |threads|
    ensures |Those(threads[t := x], p)| == |Those(threads, p)| + (if p(x) then 1 else 0) - (if p(threads[t]) then 1 else 0)
  {
    var others := Those(threads, p) - {t};
    assert Those(threads, p) == if p(threads[t]) then others + {t} else others;
    assert Those(threads[t := x], p) == if p(x) then others + {t} else others;
  }

  /** The workers that slow requests occupy. */
  ghost function SlowThreads(threads: seq<Thread>): set<nat> {
    Those(threads, IsSlow)
  }

  /** The workers that will look at the queue. */
  ghost function AwakeThreads(threads: seq<Thread>): set<nat> {
    Those(threads, IsAwake)
  }

  lemma {:induction false} ThreadsUpdate(threads: seq<Thread>, t: nat, x: Thread)
    requires t < |threads|
    ensures |SlowThreads(threads[t := x])| ==
            |SlowThreads(threads)| + (if IsSlow(x) then 1 else 0) - (if IsSlow(threads[t]) then 1 else 0)
    ensures |AwakeThreads(threads[t := x])| ==
            |AwakeThreads(threads)| + (if IsAwake(x) then 1 else 0) - (if IsAwake(threads[t]) then 1 else 0)
    ensures |Those(threads[t := x], IsIdle)| ==
            |Those(threads, IsIdle)| + (if IsIdle(x) then 1 else 0) - (if IsIdle(threads[t]) then 1 else 0)
  {
    ThoseUpdate(threads, t, x, IsSlow);
    ThoseUpdate(threads, t, x, IsAwake);
    ThoseUpdate(threads, t, x, IsIdle);
  }

  /** Some worker waits and has not been signalled. */
  ghost predicate SomeAsleep(threads: seq<Thread>) {
    exists t :: 0 <= t < |threads| && threads[t] == Waiting(false)
  }

  /** Nothing but that workers may have been signalled. */
  ghost predicate OnlySignals(before: seq<Thread>, after: seq<Thread>) {
    && |before| == |after|
    && forall t :: 0 <= t < |before| ==> after[t] == before[t] || (before[t] == Waiting(false) && after[t] == Waiting(true))
  }

  /** What the queues, links, work pointer and log say of one request. */
  datatype Facts = Facts(stage: Option<Stage>,
                         queued: bool, pending: bool, inLoop: bool, inBatch: bool, beingCancelled: bool,
                         holding: Option<bool>,
                         linked: bool, work: Option<Callback>,
                         ran: bool, doneCancelled: bool, doneOk: bool) {

    /** The request is in the one place that its stage names, nowhere else, with the links, work
        pointer and events of that stage. */
    ghost predicate Ok() {
      && (work.Some? <==> stage.Some?)
      && (queued <==> stage == Some(Queued))
      && (pending <==> stage == Some(Pending))
      && (inLoop <==> stage == Some(InLoop))
      && (inBatch <==> stage == Some(InBatch))
      && (beingCancelled <==> stage == Some(BeingCancelled))
      && (doneCancelled <==> stage == Some(Completed(true)))
      && (doneOk <==> stage == Some(Completed(false)))
      && match stage
         case None => !ran
         case Some(Queued) => linked && work == Some(Function) && !ran
         case Some(Pending) => linked && work == Some(Function) && !ran
         case Some(OnThread(_)) => !linked && work == Some(Function) && holding == Some(ran)
         case Some(InLoop) => linked && work == Some(if ran then Null else Cancelled)
         case Some(InBatch) => linked && work == Some(if ran then Null else Cancelled)
         case Some(BeingCancelled) => work.Some? && work != Some(Null) && !ran
         case Some(Completed(cancelled)) => cancelled <==> !ran
    }

    // What each step makes of the facts.

    lemma {:induction false} Submitted(slow: bool)
      requires Ok() && stage.None?
      ensures !queued && !pending
      ensures this.(stage := Some(if slow then Pending else Queued), queued := !slow, pending := slow, holding := None,
                    linked := true, work := Some(Function)).Ok()
    {
    }

    lemma {:induction false} Taken(t: nat)
      requires Ok() && (queued || pending)
      ensures stage == Some(Queued) || stage == Some(Pending)
      ensures queued <==> !pending
      ensures this.(stage := Some(OnThread(t)), queued := false, pending := false, holding := Some(false), linked := false).Ok()
    {
    }

    lemma {:induction false} Executed(t: nat)
      requires Ok() && stage == Some(OnThread(t)) && holding == Some(false)
      ensures !ran && work == Some(Function)
      ensures this.(holding := Some(true), ran := true).Ok()
    {
    }

    lemma {:induction false} HandedBack(t: nat)
      requires Ok() && stage == Some(OnThread(t)) && holding == Some(true)
      ensures !inLoop
      ensures this.(stage := Some(InLoop), holding := None, inLoop := true, linked := true, work := Some(Null)).Ok()
    {
    }

    /** A request can be taken back just when no worker has started it. */
    lemma {:induction false} TakenBack()
      requires Ok() && stage.Some? && !stage.value.Completed? && !beingCancelled
      ensures linked && work.Some? && work != Some(Null) <==>
        stage.value.Queued? || stage.value.Pending? || ((stage.value.InLoop? || stage.value.InBatch?) && !ran)
      ensures linked && work.Some? && work != Some(Null) ==>
        this.(stage := Some(BeingCancelled), queued := false, pending := false, inLoop := false, inBatch := false,
              beingCancelled := true, holding := None).Ok()
    {
    }

    lemma {:induction false} SentBack()
      requires Ok() && beingCancelled
      ensures stage == Some(BeingCancelled) && !inLoop
      ensures this.(stage := Some(InLoop), beingCancelled := false, inLoop := true, linked := true, holding := None,
                    work := Some(Cancelled)).Ok()
    {
    }

    lemma {:induction false} CalledBack()
      requires Ok() && inBatch
      ensures stage == Some(InBatch) && work == Some(if ran then Null else Cancelled) && !doneOk && !doneCancelled
      ensures this.(stage := Some(Completed(!ran)), inBatch := false, holding := None,
                    doneCancelled := !ran, doneOk := ran).Ok()
    {
    }
  }

  class ThreadPool {
    const nthreads: nat
    var wq: seq<Item>
    var slowPending: seq<Id>
    /** Whether the slow-work message is linked into a queue, as its own links tell. */
    var messageLinked: bool
    var slowIoWorkRunning: nat
    /** The workers that wait, signalled or not. */
    var idleThreads: nat
    var threads: seq<Thread>
    /** The requests whose queue links do not point to themselves. */
    var linked: set<Id>
    var work: map<Id, Callback>
    var loopWq: seq<Id>
    /** The local queue of the loop's current uv__work_done. */
    var batch: seq<Id>
    /** The loop thread is between the two critical sections of a cancellation. */
    var cancelling: Option<Id>
    ghost var stage: map<Id, Stage>
    ghost var log: seq<Event>

    predicate Threshold()
      reads `slowIoWorkRunning
    {
      slowIoWorkRunning >= (nthreads + 1) / 2
    }

    ghost predicate At(w: Id, s: Stage)
      reads `stage
    {
      w in stage && stage[w] == s
    }

    /** Everything that the fields say of a request. */
    ghost function About(w: Id): Facts
      reads `stage, `wq, `slowPending, `loopWq, `batch, `cancelling, `threads, `work, `linked, `log
    {
      Facts(if w in stage then Some(stage[w]) else None,
            Work(w) in wq, w in slowPending, w in loopWq, w in batch, cancelling == Some(w),
            if w in stage && stage[w].OnThread? then Holding(w, stage[w].t) else None,
            w in linked, if w in work then Some(work[w]) else None,
            Ran(w) in log, Done(w, true) in log, Done(w, false) in log)
    }

    /** Whether thread `t` has the request, and then whether the work function ran. */
    ghost function Holding(w: Id, t: nat): Option<bool>
      reads `threads
    {
      if t < |threads| && threads[t].Busy? && threads[t].id == w then Some(threads[t].ran) else None
    }

    ghost predicate RequestOk(w: Id)
      reads `stage, `wq, `slowPending, `loopWq, `batch, `cancelling, `threads, `work, `linked, `log
    {
      About(w).Ok()
    }

    ghost predicate WorkerOk(t: nat)
      requires t < |threads|
      reads `threads, `stage
    {
      threads[t].Busy? ==> At(threads[t].id, OnThread(t))
    }

    /** The cap on slow work holds, and slow work that waits has its message in the queue. */
    ghost predicate SlowOk()
      reads `slowIoWorkRunning, `threads, `messageLinked, `wq, `slowPending
    {
      && slowIoWorkRunning == |SlowThreads(threads)| <= (nthreads + 1) / 2
      && messageLinked == (SlowMessage in wq)
      && (slowPending != [] ==> SlowMessage in wq)
    }

    /** The items of the queue that a worker may handle now. */
    ghost function Runnable(): int
      reads `wq, `slowIoWorkRunning
    {
      |wq| - if SlowMessage in wq && Threshold() then 1 else 0
    }

    /** No wake-up is lost: while a worker sleeps, there are as many workers on their way to the queue as it
        has items for them, and `spare` more. */
    ghost predicate WakeOk(spare: nat)
      reads `wq, `slowIoWorkRunning, `threads, `idleThreads
    {
      && idleThreads == |Those(threads, IsIdle)|
      && (SomeAsleep(threads) ==> Runnable() + spare <= |AwakeThreads(threads)|)
    }

    ghost predicate DistinctOk()
      reads `wq, `slowPending, `loopWq, `batch
    {
      Distinct(wq) && Distinct(slowPending) && Distinct(loopWq) && Distinct(batch)
    }

    /** No event repeats, and a callback without an error follows its work function. */
    ghost predicate LogOk()
      reads `log
    {
      && Distinct(log)
      && (forall i :: 0 <= i < |log| && log[i].Done? && !log[i].cancelled ==> Ran(log[i].id) in log[..i])
    }

    ghost predicate Inv()
      reads this
    {
      && |threads| == nthreads && DistinctOk() && SlowOk() && WakeOk(0) && LogOk()
      && (forall w: Id {:trigger RequestOk(w)} :: RequestOk(w))
      && (forall t: nat {:trigger WorkerOk(t)} :: t < nthreads ==> WorkerOk(t))
    }

    constructor (nthreads: nat)
      requires nthreads > 0
      ensures Inv() && this.nthreads == nthreads && stage == map[] && log == []
    {
      this.nthreads := nthreads;
      wq, slowPending, messageLinked, slowIoWorkRunning, idleThreads := [], [], false, 0, 0;
      threads := seq(nthreads, _ => Top);
      linked, work, loopWq, batch, cancelling := {}, map[], [], [], None;
      stage, log := map[], [];
      new;
      assert SlowThreads(threads) == {} == Those(threads, IsIdle);
    }

    method Enqueue(w: Id, slow: bool)
      requires DistinctOk() && SlowOk() && WakeOk(0) && !About(w).queued && !About(w).pending
      modifies `wq, `slowPending, `messageLinked, `work, `linked, `threads
      ensures DistinctOk() && SlowOk() && WakeOk(0) && OnlySignals(old(threads), threads)
      ensures forall v: Id {:trigger About(v)} :: v != w ==> About(v) == old(About(v))
      ensures About(w) == old(About(w)).(queued := !slow, pending := slow, linked := true, work := Some(Function))
    {
      hide ThreadPool.SlowOk, ThreadPool.DistinctOk, ThreadPool.WakeOk;
      work := work[w := Function];
      linked := linked + {w};
      Post(w, slow);
    }

    /** The loop submits a new request. */
    method Submit(w: Id, slow: bool)
      requires Inv() && w !in stage
      modifies this
      ensures Inv() && stage == old(stage)[w := if slow then Pending else Queued] && log == old(log)
    {
      assert RequestOk(w);
      About(w).Submitted(slow);
      hide Facts.Ok, ThreadPool.About, ThreadPool.SlowOk, ThreadPool.WakeOk, ThreadPool.DistinctOk, ThreadPool.LogOk;
      Enqueue(w, slow);
      forall v: Id | v != w ensures RequestOk(v) { assert old(RequestOk(v)); assert About(v) == old(About(v)); }
      Settle(w, if slow then Pending else Queued);
      forall t: nat | t < nthreads ensures WorkerOk(t) { assert old(WorkerOk(t)); }
    }

    method Post(w: Id, slow: bool)
      requires DistinctOk() && SlowOk() && WakeOk(0) && Work(w) !in wq && w !in slowPending
      modifies `wq, `slowPending, `messageLinked, `threads
      ensures DistinctOk() && SlowOk() && WakeOk(0) && OnlySignals(old(threads), threads)
      ensures forall v :: v in slowPending <==> v in old(slowPending) || (slow && v == w)
      ensures forall v :: Work(v) in wq <==> Work(v) in old(wq) || (!slow && v == w)
    {
      if slow {
        Append(slowPending, w);
        slowPending := slowPending + [w];
        if messageLinked {
          // the worker that takes the message schedules this request as well
          return;
        }
        Insert(SlowMessage, 0);
        messageLinked := true;
      } else {
        Insert(Work(w), 0);
      }
    }

    /** One more item in the queue, and a signal if anyone waits. */
    method Insert(item: Item, ghost spare: nat)
      requires Distinct(wq) && item !in wq && WakeOk(spare)
      modifies `wq, `threads
      ensures Distinct(wq) && wq == old(wq) + [item] && WakeOk(spare)
      ensures (forall x :: x in wq <==> x in old(wq) || x == item)
      ensures OnlySignals(old(threads), threads) && |SlowThreads(threads)| == old(|SlowThreads(threads)|)
    {
      Append(wq, item);
      wq := wq + [item];
      if idleThreads > 0 {
        Signal();
      } else if SomeAsleep(threads) {
        SleeperIsIdle();
      }
    }

    lemma {:induction false} SleeperIsIdle()
      requires SomeAsleep(threads)
      ensures |Those(threads, IsIdle)| > 0
    {
      var t :| 0 <= t < |threads| && threads[t] == Waiting(false);
      assert t in Those(threads, IsIdle);
    }

    /** One of the workers that sleep is signalled, whichever it is. */
    method Signal()
      modifies `threads
      ensures OnlySignals(old(threads), threads)
      ensures |SlowThreads(threads)| == old(|SlowThreads(threads)|)
      ensures |Those(threads, IsIdle)| == old(|Those(threads, IsIdle)|)
      ensures |AwakeThreads(threads)| == old(|AwakeThreads(threads)| + if SomeAsleep(threads) then 1 else 0)
    {
      if exists t :: 0 <= t < |threads| && threads[t] == Waiting(false) {
        var t :| 0 <= t < |threads| && threads[t] == Waiting(false);
        ThreadsUpdate(threads, t, Waiting(true));
        threads := threads[t := Waiting(true)];
      }
    }

    /** No work, or only slow work while the cap is reached. */
    predicate MustWait()
      reads `wq, `slowIoWorkRunning
    {
      wq == [] || (wq[0] == SlowMessage && |wq| == 1 && Threshold())
    }

    /** A worker that has nothing to do waits for the condition. */
    method Wait(t: nat)
      requires Inv() && t < nthreads && threads[t] == Top && MustWait()
      modifies `threads, `idleThreads
      ensures Inv() && threads == old(threads)[t := Waiting(false)]
    {
      hide Facts.Ok, ThreadPool.LogOk, ThreadPool.DistinctOk;
      ThreadsUpdate(threads, t, Waiting(false));
      idleThreads := idleThreads + 1;
      threads := threads[t := Waiting(false)];
      forall v: Id ensures RequestOk(v) { assert old(RequestOk(v)); assert About(v) == old(About(v)); }
      forall u: nat | u < nthreads ensures WorkerOk(u) { assert old(WorkerOk(u)); }
    }

    /** A worker comes back from waiting, with a signal or without. */
    method Wake(t: nat)
      requires Inv() && t < nthreads && threads[t].Waiting?
      modifies `threads, `idleThreads
      ensures Inv() && threads == old(threads)[t := Top]
    {
      hide Facts.Ok, ThreadPool.LogOk, ThreadPool.DistinctOk;
      ThreadsUpdate(threads, t, Top);
      assert t in Those(threads, IsIdle);
      ghost var was := threads;
      idleThreads := idleThreads - 1;
      threads := threads[t := Top];
      assert forall u :: 0 <= u < |threads| && threads[u] == Waiting(false) ==> was[u] == Waiting(false);
      forall v: Id ensures RequestOk(v) { assert old(RequestOk(v)); assert About(v) == old(About(v)); }
      forall u: nat | u < nthreads ensures WorkerOk(u) { assert old(WorkerOk(u)); }
    }

    /** A worker takes the head of the queue. */
    method Take(t: nat)
      requires Inv() && t < nthreads && threads[t] == Top && !MustWait()
      modifies this
      ensures Inv() && log == old(log)
      ensures old(wq[0]) == ExitMessage ==>
        stage == old(stage) && wq == old(wq) && OnlySignals(old(threads)[t := Exited], threads)
      ensures old(wq[0]).Work? ==>
        && stage == old(stage)[old(wq[0]).id := OnThread(t)] && wq == old(wq[1..])
        && OnlySignals(old(threads)[t := Busy(old(wq[0]).id, false, false)], threads)
      // at the cap the message waits until after all other work
      ensures old(wq[0] == SlowMessage && slowIoWorkRunning >= (nthreads + 1) / 2) ==>
        stage == old(stage) && wq == old(wq[1..]) + [SlowMessage]
      // all slow work was cancelled
      ensures old(wq[0] == SlowMessage && slowIoWorkRunning < (nthreads + 1) / 2 && slowPending == []) ==>
        stage == old(stage) && wq == old(wq[1..])
      ensures old(wq[0] == SlowMessage && slowIoWorkRunning < (nthreads + 1) / 2 && slowPending != []) ==>
        && stage == old(stage)[old(slowPending[0]) := OnThread(t)] && slowPending == old(slowPending[1..])
        && OnlySignals(old(threads)[t := Busy(old(slowPending[0]), true, false)], threads)
        && wq == old(wq[1..]) + (if slowPending == [] then [] else [SlowMessage])
    {
      if wq[0] == ExitMessage {
        Exit(t);
      } else if wq[0] == SlowMessage {
        if Threshold() {
          Reschedule();
        } else if slowPending == [] {
          DropMessage();
        } else {
          TakeSlow(t);
        }
      } else {
        TakeWork(t);
      }
    }

    /** A worker goes on without any change in what it does for slow work. */
    method SetThread(t: nat, x: Thread, ghost spare: nat)
      requires t < |threads| && SlowOk() && (IsSlow(x) <==> IsSlow(threads[t])) && !IsIdle(x) && !IsIdle(threads[t])
      requires WakeOk(if IsAwake(threads[t]) && !IsAwake(x) then spare + 1 else spare)
      modifies `threads
      ensures SlowOk() && WakeOk(spare) && threads == old(threads)[t := x]
    {
      ThreadsUpdate(threads, t, x);
      SleepersStay(threads, t, x);
      threads := threads[t := x];
    }

    lemma {:induction false} SleepersStay(before: seq<Thread>, t: nat, x: Thread)
      requires t < |before| && x != Waiting(false)
      ensures SomeAsleep(before[t := x]) ==> SomeAsleep(before)
    {
      var after := before[t := x];
      if SomeAsleep(after) {
        var u :| 0 <= u < |after| && after[u] == Waiting(false);
        assert before[u] == Waiting(false);
      }
    }

    method Exit(t: nat)
      requires Inv() && t < nthreads && threads[t] == Top
      modifies `threads
      ensures Inv() && OnlySignals(old(threads)[t := Exited], threads)
    {
      hide Facts.Ok, ThreadPool.LogOk, ThreadPool.DistinctOk;
      Signal();
      assert SomeAsleep(threads) ==> SomeAsleep(old(threads));
      SetThread(t, Exited, 0);
      forall v: Id ensures RequestOk(v) { assert old(RequestOk(v)); assert About(v) == old(About(v)); }
      forall u: nat | u < nthreads ensures WorkerOk(u) { assert old(WorkerOk(u)); }
    }

    /** Take a request from the head of the queue. */
    method PopWork() returns (w: Id)
      requires DistinctOk() && SlowOk() && WakeOk(0) && wq != [] && wq[0].Work?
      modifies `wq
      ensures DistinctOk() && SlowOk() && WakeOk(1) && w == old(wq[0].id) && wq == old(wq[1..])
      ensures forall v :: Work(v) in wq <==> Work(v) in old(wq) && v != w
    {
      w := wq[0].id;
      RemoveHead(wq);
      wq := wq[1..];
    }

    method StartWork(t: nat) returns (w: Id)
      requires DistinctOk() && SlowOk() && WakeOk(0) && wq != [] && wq[0].Work? && t < |threads| && threads[t] == Top
      modifies `wq, `linked, `threads
      ensures DistinctOk() && SlowOk() && WakeOk(0) && w == old(wq[0].id) && wq == old(wq[1..])
      ensures threads == old(threads)[t := Busy(w, false, false)]
      ensures forall v: Id {:trigger About(v)} :: v != w ==> About(v) == old(About(v))
      ensures !old(About(w)).pending ==>
        About(w).(holding := Holding(w, t)) == old(About(w)).(queued := false, linked := false, holding := Some(false))
    {
      hide ThreadPool.SlowOk, ThreadPool.DistinctOk, ThreadPool.WakeOk;
      w := PopWork();
      linked := linked - {w};  // no longer cancellable
      SetThread(t, Busy(w, false, false), 0);
    }

    method TakeWork(t: nat)
      requires Inv() && t < nthreads && threads[t] == Top && wq != [] && wq[0].Work?
      modifies `wq, `linked, `threads, `stage
      ensures Inv() && wq == old(wq[1..]) && stage == old(stage)[old(wq[0]).id := OnThread(t)]
      ensures threads == old(threads)[t := Busy(old(wq[0]).id, false, false)]
    {
      assert RequestOk(wq[0].id);
      About(wq[0].id).Taken(t);
      hide Facts.Ok, ThreadPool.About, ThreadPool.SlowOk, ThreadPool.WakeOk, ThreadPool.DistinctOk, ThreadPool.LogOk;
      var w := StartWork(t);
      forall v: Id | v != w ensures RequestOk(v) { assert old(RequestOk(v)); assert About(v) == old(About(v)); }
      Settle(w, OnThread(t));
      forall u: nat | u < nthreads ensures WorkerOk(u) { assert old(WorkerOk(u)); }
    }

    /** The cap is reached: the message goes behind all other work. */
    method Reschedule()
      requires Inv() && wq != [] && wq[0] == SlowMessage
      modifies `wq, `messageLinked
      ensures Inv() && wq == old(wq[1..]) + [SlowMessage]
    {
      RemoveHead(wq);
      wq, messageLinked := wq[1..], false;
      Append(wq, SlowMessage);
      wq, messageLinked := wq + [SlowMessage], true;
      forall v: Id ensures RequestOk(v) { assert old(RequestOk(v)); assert About(v) == old(About(v)); }
      forall u: nat | u < nthreads ensures WorkerOk(u) { assert old(WorkerOk(u)); }
    }

    /** All slow work was cancelled: the message is dropped. */
    method DropMessage()
      requires Inv() && wq != [] && wq[0] == SlowMessage && slowPending == []
      modifies `wq, `messageLinked
      ensures Inv() && wq == old(wq[1..])
    {
      RemoveHead(wq);
      wq, messageLinked := wq[1..], false;
      forall v: Id ensures RequestOk(v) { assert old(RequestOk(v)); assert About(v) == old(About(v)); }
      forall u: nat | u < nthreads ensures WorkerOk(u) { assert old(WorkerOk(u)); }
    }

    /** Take the message and the first slow request, and put the message back if there are more. */
    method PopSlow() returns (w: Id)
      requires DistinctOk() && WakeOk(0) && wq != [] && wq[0] == SlowMessage && slowPending != [] && !Threshold()
      modifies `wq, `messageLinked, `slowPending, `slowIoWorkRunning, `threads
      ensures DistinctOk() && messageLinked == (SlowMessage in wq) && (slowPending != [] ==> messageLinked)
      ensures WakeOk(1) && slowIoWorkRunning == old(slowIoWorkRunning) + 1
      ensures OnlySignals(old(threads), threads) && |SlowThreads(threads)| == old(|SlowThreads(threads)|)
      ensures w == old(slowPending[0]) && slowPending == old(slowPending[1..])
      ensures wq == old(wq[1..]) + (if slowPending == [] then [] else [SlowMessage])
      ensures forall v :: Work(v) in wq <==> Work(v) in old(wq)
      ensures forall v :: v in slowPending <==> v in old(slowPending) && v != w
    {
      RemoveHead(wq);
      RemoveHead(slowPending);
      wq, messageLinked := wq[1..], false;
      slowIoWorkRunning := slowIoWorkRunning + 1;
      w := slowPending[0];
      slowPending := slowPending[1..];
      if slowPending != [] {
        Insert(SlowMessage, 1);
        messageLinked := true;
      }
    }

    /** The slow request takes up a worker. */
    method StartSlow(w: Id, t: nat)
      requires t < |threads| && threads[t] == Top && WakeOk(1)
      requires slowIoWorkRunning == |SlowThreads(threads)| + 1 <= (nthreads + 1) / 2
      requires messageLinked == (SlowMessage in wq) && (slowPending != [] ==> messageLinked)
      modifies `linked, `threads
      ensures SlowOk() && WakeOk(0) && linked == old(linked) - {w} && threads == old(threads)[t := Busy(w, true, false)]
    {
      ThreadsUpdate(threads, t, Busy(w, true, false));
      SleepersStay(threads, t, Busy(w, true, false));
      linked := linked - {w};  // no longer cancellable
      threads := threads[t := Busy(w, true, false)];
    }

    method StartSlowWork(t: nat) returns (w: Id)
      requires DistinctOk() && WakeOk(0) && t < |threads| && threads[t] == Top
      requires wq != [] && wq[0] == SlowMessage && slowPending != [] && !Threshold()
      requires slowIoWorkRunning == |SlowThreads(threads)|
      modifies `wq, `messageLinked, `slowPending, `slowIoWorkRunning, `linked, `threads
      ensures DistinctOk() && SlowOk() && WakeOk(0)
      ensures w == old(slowPending[0]) && slowPending == old(slowPending[1..])
      ensures wq == old(wq[1..]) + (if slowPending == [] then [] else [SlowMessage])
      ensures OnlySignals(old(threads)[t := Busy(w, true, false)], threads)
      ensures forall v: Id {:trigger About(v)} :: v != w ==> About(v) == old(About(v))
      ensures !old(About(w)).queued ==>
        About(w).(holding := Holding(w, t)) == old(About(w)).(pending := false, linked := false, holding := Some(false))
    {
      hide ThreadPool.SlowOk, ThreadPool.DistinctOk, ThreadPool.WakeOk, SlowThreads;
      w := PopSlow();
      StartSlow(w, t);
    }

    method TakeSlow(t: nat)
      requires Inv() && t < nthreads && threads[t] == Top && wq != [] && wq[0] == SlowMessage
      requires !Threshold() && slowPending != []
      modifies `wq, `messageLinked, `slowPending, `slowIoWorkRunning, `linked, `threads, `stage
      ensures Inv()
      ensures stage == old(stage)[old(slowPending[0]) := OnThread(t)] && slowPending == old(slowPending[1..])
      ensures wq == old(wq[1..]) + (if slowPending == [] then [] else [SlowMessage])
      ensures OnlySignals(old(threads)[t := Busy(old(slowPending[0]), true, false)], threads)
    {
      assert RequestOk(slowPending[0]) && slowIoWorkRunning == |SlowThreads(threads)|;
      About(slowPending[0]).Taken(t);
      hide Facts.Ok, ThreadPool.About, ThreadPool.SlowOk, ThreadPool.WakeOk, ThreadPool.DistinctOk, ThreadPool.LogOk;
      var w := StartSlowWork(t);
      forall v: Id | v != w ensures RequestOk(v) { assert old(RequestOk(v)); assert About(v) == old(About(v)); }
      Settle(w, OnThread(t));
      forall u: nat | u < nthreads ensures WorkerOk(u) { assert old(WorkerOk(u)); }
    }

    method CallWork(t: nat)
      requires SlowOk() && WakeOk(0) && LogOk() && t < |threads| && threads[t].Busy? && Ran(threads[t].id) !in log
      modifies `threads, `log
      ensures SlowOk() && WakeOk(0) && LogOk()
      ensures log == old(log) + [Ran(old(threads[t].id))] && threads == old(threads)[t := old(threads[t]).(ran := true)]
      ensures forall v: Id {:trigger About(v)} :: v != old(threads[t].id) ==> About(v) == old(About(v))
      ensures var w := old(threads[t].id);
              At(w, OnThread(t)) ==> About(w) == old(About(threads[t].id)).(holding := Some(true), ran := true)
    {
      hide ThreadPool.SlowOk, ThreadPool.WakeOk, ThreadPool.LogOk;
      var w := threads[t].id;
      SetThread(t, threads[t].(ran := true), 0);
      Record(Ran(w));
    }

    /** The work function runs, outside all locks; it is neither gone nor the one that aborts. */
    method Execute(t: nat)
      requires Inv() && t < nthreads && threads[t].Busy? && !threads[t].ran
      modifies `threads, `log
      ensures Inv() && log == old(log) + [Ran(old(threads[t].id))]
      ensures old(threads[t].id in work && work[threads[t].id] == Function)
    {
      var w := threads[t].id;
      assert WorkerOk(t) && RequestOk(w);
      About(w).Executed(t);
      hide Facts.Ok, ThreadPool.About, ThreadPool.SlowOk, ThreadPool.WakeOk, ThreadPool.DistinctOk, ThreadPool.LogOk;
      CallWork(t);
      forall v: Id | v != w ensures RequestOk(v) { assert old(RequestOk(v)); assert About(v) == old(About(v)); }
      forall u: nat | u < nthreads ensures WorkerOk(u) { assert old(WorkerOk(u)); }
    }

    lemma {:induction false} LogNext(before: seq<Event>, e: Event)
      requires Distinct(before) && e !in before
      requires forall i :: 0 <= i < |before| && before[i].Done? && !before[i].cancelled ==> Ran(before[i].id) in before[..i]
      requires e.Done? && !e.cancelled ==> Ran(e.id) in before
      ensures Distinct(before + [e])
      ensures forall x :: x in before + [e] <==> x in before || x == e
      ensures forall i :: 0 <= i < |before| + 1 && (before + [e])[i].Done? && !(before + [e])[i].cancelled ==>
                Ran((before + [e])[i].id) in (before + [e])[..i]
    {
      var after := before + [e];
      Append(before, e);
      forall i | 0 <= i < |after| && after[i].Done? && !after[i].cancelled
        ensures Ran(after[i].id) in after[..i]
      {
        assert after[..i] == before[..i];
        assert i == |before| ==> before[..i] == before;
      }
    }

    ghost method Record(e: Event)
      requires LogOk() && e !in log && (e.Done? && !e.cancelled ==> Ran(e.id) in log)
      modifies `log
      ensures LogOk() && log == old(log) + [e]
      ensures forall x :: x in log <==> x in old(log) || x == e
    {
      LogNext(log, e);
      log := log + [e];
    }

    /** Give a request its new stage; all else is in place for it. */
    ghost method Settle(w: Id, s: Stage)
      requires forall v: Id {:trigger RequestOk(v)} :: v != w ==> RequestOk(v)
      requires About(w).(stage := Some(s), holding := if s.OnThread? then Holding(w, s.t) else None).Ok()
      modifies `stage
      ensures stage == old(stage)[w := s]
      ensures forall v: Id {:trigger RequestOk(v)} :: RequestOk(v)
    {
      stage := stage[w := s];
      forall v: Id ensures RequestOk(v) {
        if v != w {
          assert old(RequestOk(v));
          assert About(v) == old(About(v));
        }
      }
    }

    /** Insert a request into the loop's queue with a new work pointer. */
    method ToLoop(w: Id, callback: Callback)
      requires DistinctOk() && w !in loopWq
      modifies `work, `linked, `loopWq
      ensures work == old(work)[w := callback] && linked == old(linked) + {w}
      ensures DistinctOk() && forall v :: v in loopWq <==> v in old(loopWq) || v == w
    {
      work := work[w := callback];
      Append(loopWq, w);
      loopWq := loopWq + [w];
      linked := linked + {w};
    }

    method Return(t: nat)
      requires DistinctOk() && SlowOk() && WakeOk(0) && t < |threads| && threads[t].Busy? && threads[t].id !in loopWq
      modifies `work, `linked, `loopWq, `threads
      ensures DistinctOk() && SlowOk() && WakeOk(0) && threads == old(threads)[t := HandedOver(old(threads[t].slow))]
      ensures forall v: Id {:trigger About(v)} :: v != old(threads[t].id) ==> About(v) == old(About(v))
      ensures var w := old(threads[t].id);
              About(w).(holding := None) ==
              old(About(threads[t].id)).(inLoop := true, linked := true, work := Some(Null), holding := None)
    {
      hide ThreadPool.SlowOk, ThreadPool.DistinctOk, ThreadPool.WakeOk;
      ToLoop(threads[t].id, Null);  // no longer cancellable
      SetThread(t, HandedOver(threads[t].slow), 0);
    }

    /** Hand the finished request over to the loop. */
    method HandOver(t: nat)
      requires Inv() && t < nthreads && threads[t].Busy? && threads[t].ran
      modifies `threads, `work, `linked, `loopWq, `stage
      ensures Inv() && stage == old(stage)[old(threads[t].id) := InLoop]
    {
      var w := threads[t].id;
      assert WorkerOk(t) && RequestOk(w);
      About(w).HandedBack(t);
      hide Facts.Ok, ThreadPool.About, ThreadPool.SlowOk, ThreadPool.WakeOk, ThreadPool.DistinctOk, ThreadPool.LogOk;
      Return(t);
      forall v: Id | v != w ensures RequestOk(v) { assert old(RequestOk(v)); assert About(v) == old(About(v)); }
      Settle(w, InLoop);
      forall u: nat | u < nthreads ensures WorkerOk(u) { assert old(WorkerOk(u)); }
    }

    /** Back to the top of the loop, with the mutex. */
    method Resume(t: nat)
      requires Inv() && t < nthreads && threads[t].HandedOver?
      modifies `threads, `slowIoWorkRunning
      ensures Inv() && threads == old(threads)[t := Top]
    {
      hide Facts.Ok, ThreadPool.LogOk, ThreadPool.DistinctOk;
      ThreadsUpdate(threads, t, Top);
      SleepersStay(threads, t, Top);
      if threads[t].slow {
        slowIoWorkRunning := slowIoWorkRunning - 1;
      }
      threads := threads[t := Top];
      forall v: Id ensures RequestOk(v) { assert old(RequestOk(v)); assert About(v) == old(About(v)); }
      forall u: nat | u < nthreads ensures WorkerOk(u) { assert old(WorkerOk(u)); }
    }

    // ----- The loop thread -----

    /** Whether a request can still be cancelled, as its links and its work pointer tell. */
    predicate Cancellable(w: Id)
      reads `linked, `work
    {
      w in linked && w in work && work[w] != Null
    }

    /** The first half of uv__work_cancel: take the request out of its queue, if no worker has
        started it. */
    method CancelBegin(w: Id) returns (cancelled: bool)
      requires Inv() && cancelling == None
      requires w in stage && !stage[w].Completed?
      modifies `wq, `slowPending, `loopWq, `batch, `cancelling, `stage
      ensures Inv()
      ensures cancelled <==> old(stage[w].Queued? || stage[w].Pending? ||
                                 ((stage[w].InLoop? || stage[w].InBatch?) && Ran(w) !in log))
      ensures stage == if cancelled then old(stage)[w := BeingCancelled] else old(stage)
    {
      assert RequestOk(w);
      assert !About(w).beingCancelled;
      About(w).TakenBack();
      cancelled := Cancellable(w);
      hide Facts.Ok, ThreadPool.About, ThreadPool.SlowOk, ThreadPool.WakeOk, ThreadPool.DistinctOk, ThreadPool.LogOk;
      if cancelled {
        TakeBack(w);
        forall v: Id | v != w ensures RequestOk(v) { assert old(RequestOk(v)); assert About(v) == old(About(v)); }
        Settle(w, BeingCancelled);
        forall u: nat | u < nthreads ensures WorkerOk(u) { assert old(WorkerOk(u)); }
      }
    }

    method TakeBack(w: Id)
      requires DistinctOk() && SlowOk() && WakeOk(0) && cancelling == None
      modifies `wq, `slowPending, `loopWq, `batch, `cancelling
      ensures DistinctOk() && SlowOk() && WakeOk(0)
      ensures forall v: Id {:trigger About(v)} :: v != w ==> About(v) == old(About(v))
      ensures About(w) == old(About(w)).(queued := false, pending := false, inLoop := false, inBatch := false,
                                         beingCancelled := true)
    {
      hide ThreadPool.SlowOk, ThreadPool.DistinctOk, ThreadPool.WakeOk;
      Unlink(w);
      cancelling := Some(w);
    }

    /** Remove a request from the one queue that it is in. */
    method Unlink(w: Id)
      requires DistinctOk() && SlowOk() && WakeOk(0)
      modifies `wq, `slowPending, `loopWq, `batch
      ensures DistinctOk() && SlowOk() && WakeOk(0)
      ensures forall x :: x in wq <==> x in old(wq) && x != Work(w)
      ensures forall v :: v in slowPending <==> v in old(slowPending) && v != w
      ensures forall v :: v in loopWq <==> v in old(loopWq) && v != w
      ensures forall v :: v in batch <==> v in old(batch) && v != w
    {
      wq := Remove(wq, Work(w));
      slowPending := Remove(slowPending, w);
      assert slowPending != [] ==> slowPending[0] in old(slowPending);
      loopWq := Remove(loopWq, w);
      batch := Remove(batch, w);
    }

    method SendBack(w: Id)
      requires DistinctOk() && w !in loopWq && cancelling == Some(w)
      modifies `work, `linked, `loopWq, `cancelling
      ensures DistinctOk() && cancelling == None
      ensures forall v: Id {:trigger About(v)} :: v != w ==> About(v) == old(About(v))
      ensures About(w) == old(About(w)).(inLoop := true, beingCancelled := false, linked := true, work := Some(Cancelled))
    {
      hide ThreadPool.DistinctOk;
      ToLoop(w, Cancelled);
      cancelling := None;
    }

    /** The second half: send the request to the loop, marked as cancelled. */
    method CancelEnd()
      requires Inv() && cancelling.Some?
      modifies `work, `linked, `loopWq, `cancelling, `stage
      ensures Inv() && stage == old(stage)[old(cancelling.value) := InLoop]
    {
      var w := cancelling.value;
      assert RequestOk(w);
      About(w).SentBack();
      hide Facts.Ok, ThreadPool.About, ThreadPool.SlowOk, ThreadPool.WakeOk, ThreadPool.DistinctOk, ThreadPool.LogOk;
      SendBack(w);
      forall v: Id | v != w ensures RequestOk(v) { assert old(RequestOk(v)); assert About(v) == old(About(v)); }
      Settle(w, InLoop);
      forall u: nat | u < nthreads ensures WorkerOk(u) { assert old(WorkerOk(u)); }
    }

    /** uv__work_done starts: it takes all that is in the loop's queue. */
    method DoneBegin()
      requires Inv() && cancelling == None && batch == []
      modifies `batch, `loopWq, `stage
      ensures Inv() && batch == old(loopWq) && loopWq == []
      ensures stage == map v | v in old(stage) :: if old(stage)[v] == InLoop then InBatch else old(stage)[v]
    {
      hide ThreadPool.SlowOk, ThreadPool.WakeOk, ThreadPool.LogOk;
      batch, loopWq := loopWq, [];
      stage := map v | v in stage :: if stage[v] == InLoop then InBatch else stage[v];
      forall v: Id ensures RequestOk(v) { assert old(RequestOk(v)); }
      forall u: nat | u < nthreads ensures WorkerOk(u) { assert old(WorkerOk(u)); }
    }

    method PopBatch()
      requires DistinctOk() && batch != []
      modifies `batch
      ensures DistinctOk() && batch == old(batch[1..])
      ensures forall v :: v in batch <==> v in old(batch) && v != old(batch[0])
    {
      RemoveHead(batch);
      batch := batch[1..];
    }

    method CallBack(w: Id, cancelled: bool)
      requires DistinctOk() && LogOk() && batch != [] && batch[0] == w
      requires Done(w, cancelled) !in log && (!cancelled ==> Ran(w) in log)
      modifies `batch, `log
      ensures DistinctOk() && LogOk() && batch == old(batch[1..]) && log == old(log) + [Done(w, cancelled)]
      ensures forall v: Id {:trigger About(v)} :: v != w ==> About(v) == old(About(v))
      ensures About(w) == if cancelled then old(About(w)).(inBatch := false, doneCancelled := true)
                          else old(About(w)).(inBatch := false, doneOk := true)
    {
      hide ThreadPool.LogOk, ThreadPool.DistinctOk;
      PopBatch();
      Record(Done(w, cancelled));
    }

    /** It calls back the next request. */
    method DoneNext() returns (w: Id, cancelled: bool)
      requires Inv() && cancelling == None && batch != []
      modifies `batch, `stage, `log
      ensures Inv() && w == old(batch[0]) && batch == old(batch[1..])
      ensures log == old(log) + [Done(w, cancelled)] && stage == old(stage)[w := Completed(cancelled)]
      ensures cancelled <==> Ran(w) !in old(log)
    {
      w := batch[0];
      assert RequestOk(w);
      About(w).CalledBack();
      hide Facts.Ok, ThreadPool.About, ThreadPool.SlowOk, ThreadPool.WakeOk, ThreadPool.DistinctOk, ThreadPool.LogOk;
      cancelled := work[w] == Cancelled;
      CallBack(w, cancelled);
      forall v: Id | v != w ensures RequestOk(v) { assert old(RequestOk(v)); assert About(v) == old(About(v)); }
      Settle(w, Completed(cancelled));
      forall u: nat | u < nthreads ensures WorkerOk(u) { assert old(WorkerOk(u)); }
    }

    /** The exit message, posted once. */
    method PostExit()
      requires Inv() && ExitMessage !in wq
      modifies `wq, `threads
      ensures Inv() && wq == old(wq) + [ExitMessage]
    {
      Insert(ExitMessage, 0);
      forall v: Id ensures RequestOk(v) { assert old(RequestOk(v)); assert About(v) == old(About(v)); }
      forall u: nat | u < nthreads ensures WorkerOk(u) { assert old(WorkerOk(u)); }
    }

    // ----- What the invariant promises -----

    ghost predicate SlowPromises()
      reads `threads, `slowPending, `wq, `slowIoWorkRunning
    {
      var cap, slow := (nthreads + 1) / 2, |SlowThreads(threads)|;
      // the cap on slow work, whatever the interleaving
      && slow <= cap
      // slow work that waits has its message in the queue, once
      && (slowPending != [] ==> exists i :: 0 <= i < |wq| && wq[i] == SlowMessage)
      && (forall i, j :: 0 <= i < j < |wq| && wq[i] == SlowMessage ==> wq[j] != SlowMessage)
      // a worker waits exactly when nothing in the queue may run
      && (MustWait() <==> wq == [] || (slow == cap && forall i :: 0 <= i < |wq| ==> wq[i] == SlowMessage))
      // slow work waits for a worker that may take it only at the cap
      && (MustWait() && slowPending != [] ==> slow == cap)
    }

    /** Every request runs at most once and is called back at most once; it is called back as
        cancelled only if it never runs, and without an error only after it ran. */
    ghost predicate Promises()
      reads this
    {
      && (forall i, j :: 0 <= i < j < |log| && log[i].Ran? && log[j].Ran? ==> log[i].id != log[j].id)
      && (forall i, j :: 0 <= i < j < |log| && log[i].Done? && log[j].Done? ==> log[i].id != log[j].id)
      && (forall w :: Done(w, true) in log ==> Ran(w) !in log)
      && (forall i :: 0 <= i < |log| && log[i].Done? && !log[i].cancelled ==> Ran(log[i].id) in log[..i])
      && SlowPromises()
      // no wake-up is lost: while one sleeps, as many are on their way to the queue as it has items to run
      && (SomeAsleep(threads) && !MustWait() ==> 0 < Runnable() <= |AwakeThreads(threads)|)
    }

    lemma {:induction false} Kept()
      requires Inv()
      ensures Promises()
    {
      forall i, j | 0 <= i < j < |log| && log[i].Done? && log[j].Done? ensures log[i].id != log[j].id {
        assert Differ(log, i, j) && RequestOk(log[i].id);
        assert log[i] in log && log[j] in log;
      }
      forall i, j | 0 <= i < j < |log| && log[i].Ran? && log[j].Ran? ensures log[i].id != log[j].id {
        assert Differ(log, i, j);
      }
      forall w | Done(w, true) in log ensures Ran(w) !in log {
        assert RequestOk(w);
      }
      forall i, j | 0 <= i < j < |wq| && wq[i] == SlowMessage ensures wq[j] != SlowMessage {
        assert Differ(wq, i, j);
      }
      assert |wq| > 1 ==> Differ(wq, 0, 1);
    }

    ghost predicate KnownFinished(finished: set<Id>)
      reads `stage
    {
      forall w :: w in finished <==> w in stage && stage[w].Completed?
    }

    /** One critical section of one thread; nothing happens if the thread is not there. The caller
        knows the requests that were called back, and does not cancel those. */
    method Perform(a: Action, finished: set<Id>) returns (finished': set<Id>)
      requires Inv() && KnownFinished(finished)
      modifies this
      ensures Inv() && KnownFinished(finished')
      ensures old(log) <= log && old(stage).Keys <= stage.Keys
      ensures a.Submits? ==>
        a.w in stage && (a.w !in old(stage) ==> stage == old(stage)[a.w := if a.slow then Pending else Queued])
      ensures a.FinishesCancel? && old(cancelling).Some? ==> stage == old(stage)[old(cancelling).value := InLoop]
      ensures a.StartsDone? && old(cancelling == None && batch == []) ==> batch == old(loopWq)
      ensures a.CallsBack? && old(cancelling == None && batch != []) ==> finished' == finished + {old(batch)[0]}
      ensures a.Executes? && a.t < old(|threads|) && old(threads)[a.t].Busy? && !old(threads)[a.t].ran ==>
        log == old(log) + [Ran(old(threads)[a.t].id)]
      ensures a.HandsOver? && a.t < old(|threads|) && old(threads)[a.t].Busy? && old(threads)[a.t].ran ==>
        stage == old(stage)[old(threads)[a.t].id := InLoop]
    {
      finished' := finished;
      match a {
        case Submits(w, slow) =>
          assert RequestOk(w);
          if w !in work { Submit(w, slow); }
        case Cancels(w) =>
          assert RequestOk(w);
          if cancelling == None && w in work && w !in finished { var _ := CancelBegin(w); }
        case FinishesCancel =>
          if cancelling.Some? {
            assert RequestOk(cancelling.value);
            CancelEnd();
          }
        case StartsDone =>
          if cancelling == None && batch == [] { DoneBegin(); }
        case CallsBack =>
          if cancelling == None && batch != [] {
            var w, _ := DoneNext();
            finished' := finished + {w};
          }
        case _ => WorkerStep(a);
      }
    }

    method WorkerStep(a: Action)
      requires Inv()
      modifies this
      ensures Inv() && old(log) <= log && old(stage).Keys <= stage.Keys
      ensures a.Executes? && a.t < old(|threads|) && old(threads)[a.t].Busy? && !old(threads)[a.t].ran ==>
        log == old(log) + [Ran(old(threads)[a.t].id)]
      ensures a.HandsOver? && a.t < old(|threads|) && old(threads)[a.t].Busy? && old(threads)[a.t].ran ==>
        stage == old(stage)[old(threads)[a.t].id := InLoop]
      ensures forall w :: w in stage && stage[w].Completed? <==> w in old(stage) && old(stage)[w].Completed?
    {
      match a {
        case Takes(t) =>
          if t < |threads| && threads[t] == Top && !MustWait() {
            assert wq[0].Work? ==> RequestOk(wq[0].id);
            assert slowPending != [] ==> RequestOk(slowPending[0]);
            Take(t);
          }
        case Waits(t) =>
          if t < |threads| && threads[t] == Top && MustWait() { Wait(t); }
        case Wakes(t) =>
          if t < |threads| && threads[t].Waiting? { Wake(t); }
        case Executes(t) =>
          if t < |threads| && threads[t].Busy? && !threads[t].ran { Execute(t); }
        case HandsOver(t) =>
          if t < |threads| && threads[t].Busy? && threads[t].ran {
            assert WorkerOk(t);
            HandOver(t);
          }
        case Resumes(t) =>
          if t < |threads| && threads[t].HandedOver? { Resume(t); }
        case PostsExit =>
          if ExitMessage !in wq { PostExit(); }
        case _ =>
      }
    }
  }

  /** A critical section of a thread. */
  datatype Action =
    | Submits(w: Id, slow: bool) | Cancels(w: Id) | FinishesCancel | StartsDone | CallsBack
    | Takes(t: nat) | Waits(t: nat) | Wakes(t: nat) | Executes(t: nat) | HandsOver(t: nat) | Resumes(t: nat) | PostsExit

  /** Any interleaving of any threads keeps the promises, at its end and so at every moment. */
  method Run(nthreads: nat, schedule: seq<Action>) returns (pool: ThreadPool)
    requires nthreads > 0
    ensures fresh(pool) && pool.nthreads == nthreads && pool.Inv() && pool.Promises()
    ensures forall i :: 0 <= i < |schedule| && schedule[i].Submits? ==> schedule[i].w in pool.stage
  {
    pool := new ThreadPool(nthreads);
    var finished: set<Id> := {};
    for i := 0 to |schedule|
      invariant fresh(pool) && pool.nthreads == nthreads && pool.Inv() && pool.KnownFinished(finished)
      invariant forall j :: 0 <= j < i && schedule[j].Submits? ==> schedule[j].w in pool.stage
    {
      finished := pool.Perform(schedule[i], finished);
    }
    pool.Kept();
  }

  method Remove<T(==)>(s: seq<T>, x: T) returns (r: seq<T>)
    requires Distinct(s)
    ensures Distinct(r) && r == Without(s, x) && |r| <= |s|
    ensures forall y :: y in r <==> y in s && y != x
  {
    WithoutDistinct(s, x);
    forall y ensures y in Without(s, x) <==> y in s && y != x {
      WithoutMembers(s, x, y);
    }
    r := Without(s, x);
  }
}
