/** What every run of the job queue keeps, and how it shuts down. */
module BlockingTheorems {
  import opened Runs
  import opened Conditions
  import opened BlockingQueues

  lemma {:induction false} Safe(ls: seq<Label>)
    requires Legal(Enabled, Apply, INIT, ls)
    ensures Inv(Run(Apply, INIT, ls))
  {
    InitInv();
    hide Inv, Enabled, Apply;
    forall s, l | Inv(s) && Enabled(s, l) ensures Inv(Apply(s, l)) {
      KeepsInv(s, l);
    }
    Invariant(Enabled, Apply, Inv, INIT, ls);
  }

  // ---- What each call does to the queue and to the other threads ----

  /** addJob puts the job last and takes at least one sleeper, if any, out of its wait. */
  lemma AddOutcome(s: State, job: Job, woken: set<nat>)
    requires Inv(s) && Enabled(s, AddJob(job, woken))
    ensures var s' := Apply(s, AddJob(job, woken));
            && s'.queue == s.queue + [job] && s'.added == s.added + [job] && s'.running == s.running
            && (if s.waiting == {} then s'.waiting == {} else s'.waiting < s.waiting)
            && s'.signalled == s.signalled + (s.waiting - s'.waiting)
            && s'.ready == s.ready && s'.busy == s.busy && s'.exited == s.exited
  {
    hide Apart, Once, WorkConserving;
    WokenLeave(s.waiting, woken);
  }

  /** Of a pass through takeJob that does not dequeue: on an empty running queue the worker goes to
      sleep, on a stopped one it leaves, and nobody else is concerned. */
  lemma TakeNothing(s: State, w: nat, woken: set<nat>)
    requires Inv(s) && Enabled(s, Take(w, woken)) && (s.queue == [] || !s.running)
    ensures var s' := Apply(s, Take(w, woken));
            && s'.queue == s.queue && s'.busy == s.busy && s'.running == s.running
            && w !in s'.ready + s'.signalled
            && s'.waiting == (if s.running then s.waiting + {w} else s.waiting)
            && s'.exited == (if s.running then s.exited else s.exited + {w})
            && s'.ready + s'.signalled + {w} == s.ready + s.signalled
  {
    hide Inv, Apply, Wakes;
    TakeIs(s, w, woken);
    MovesAway(s.ready, s.signalled, w);
  }

  lemma MovesAway(ready: set<nat>, signalled: set<nat>, w: nat)
    requires w in ready + signalled
    ensures (ready - {w}) + (signalled - {w}) + {w} == ready + signalled
  {
  }

  /** Of one that does: the worker has the front job, and if more are queued it takes at least one
      sleeper, if any, out of its wait. */
  lemma TakeFront(s: State, w: nat, woken: set<nat>)
    requires Inv(s) && Enabled(s, Take(w, woken)) && s.queue != [] && s.running
    ensures var s' := Apply(s, Take(w, woken));
            && [s.added[Taken(s)]] + s'.queue == s.queue && s'.running
            && s'.busy.Keys == s.busy.Keys + {w} && s'.busy[w] == Taken(s) && s'.exited == s.exited
            && (if |s.queue| == 1 || s.waiting == {} then s'.waiting == s.waiting else s'.waiting < s.waiting)
            && s'.signalled == s.signalled - {w} + (s.waiting - s'.waiting)
            && s'.ready == s.ready - {w}
  {
    hide Inv, Apply;
    TakeIs(s, w, woken);
    FrontIs(s);
    WokenLeave(s.waiting, woken);
    assert woken == {} <==> |s.queue| == 1 || s.waiting == {};
    hide Wakes, Enabled;
    NowBusy(s.busy, w, Taken(s));
  }

  lemma NowBusy(busy: map<nat, nat>, w: nat, k: nat)
    ensures busy[w := k].Keys == busy.Keys + {w}
  {
  }

  lemma FrontIs(s: State)
    requires Inv(s) && s.queue != []
    ensures Taken(s) >= 0 && [s.added[Taken(s)]] + s.queue[1..] == s.queue
  {
    hide Apart, Once, WorkConserving;
    assert s.added[Taken(s)..][0] == s.queue[0];
  }

  lemma WokenLeave(waiting: set<nat>, woken: set<nat>)
    requires woken <= waiting
    ensures waiting - (waiting - woken) == woken
    ensures if woken == {} then waiting - woken == waiting else waiting - woken < waiting
  {
    if w :| w in woken {
      assert w in waiting && w !in waiting - woken;
    }
  }

  /** stop: the pool is down, everybody who slept is out of the wait, nothing else has changed; on a
      pool that is down already it does nothing. */
  lemma StopOutcome(s: State)
    requires Inv(s)
    ensures var s' := Apply(s, Stop);
            && Down(s') && s'.waiting == {} && s'.signalled == s.signalled + s.waiting
            && s'.ready == s.ready && s'.queue == s.queue && s'.busy == s.busy && s'.exited == s.exited
            && s'.added == s.added && s'.finished == s.finished && s'.threads == s.threads && s'.joined == s.joined
            && (!s.running ==> s' == s)
  {
    assert !s.running ==> s.waiting == {} by {
      hide Apart, Once;
    }
    KeepsInv(s, Stop);
    hide Apart, Once;
  }

  /** A job that returns has finished once more and its worker is ready for the next; the pool stops,
      and sleepers are woken, exactly if the job is the one that calls stop. */
  lemma FinishOutcome(s: State, w: nat)
    requires Inv(s) && Enabled(s, Finish(w))
    ensures var s' := Apply(s, Finish(w));
            && s'.busy.Keys == s.busy.Keys - {w} && s'.ready == s.ready + {w}
            && s'.finished == s.finished + multiset{s.busy[w]}
            && s'.queue == s.queue && s'.exited == s.exited
            && if s.added[s.busy[w]] == StopQueue
               then !s'.running && s'.waiting == {} && s'.signalled == s.signalled + s.waiting
               else s'.running == s.running && s'.waiting == s.waiting && s'.signalled == s.signalled
  {
    assert !s.running ==> s.waiting == {} by {
      hide Apart, Once;
    }
    hide Apart, Once, WorkConserving;
    assert (s.busy - {w}).Keys == s.busy.Keys - {w};
  }

  /** commence starts n new threads on a pool that does not run, and none on one that does. */
  lemma CommenceOutcome(s: State, n: nat)
    requires Inv(s)
    ensures var s' := Apply(s, Commence(n));
            && s'.running && (s.running ==> s' == s)
            && (!s.running ==>
                  && |s'.ready| == |s.ready| + n && s.ready <= s'.ready && s'.threads == s.threads + n
                  && (forall w :: w in s'.ready - s.ready ==> s.threads <= w)
                  && s'.queue == s.queue && s'.busy == s.busy && s'.waiting == s.waiting
                  && s'.signalled == s.signalled && s'.exited == s.exited)
  {
    CommenceIs(s, n);
    if !s.running {
      var started := Threads(s.threads, n);
      assert s.ready <= Threads(0, s.threads);
      hide Inv, Apply;
      assert s.ready !! started;
      ThreadCount(s.threads, n);
      assert |s.ready + started| == |s.ready| + |started|;
    }
  }

  // ---- No lost wakeup ----

  lemma AwakeCanTake(s: State)
    requires Awake(s) != {} && Dequeues(s) && Taken(s) >= 0
    ensures exists w, woken ::
              Enabled(s, Take(w, woken)) && Apply(s, Take(w, woken)).queue == s.queue[1..]
  {
    var w :| w in Awake(s);
    var woken := if |s.queue| > 1 then s.waiting else {};
    assert Enabled(s, Take(w, woken));
    assert Apply(s, Take(w, woken)).queue == s.queue[1..];
  }

  /** Whenever a worker sleeps, the pool is running and at least as many workers are on their
      way into takeJob as there are jobs queued; so with a job queued, some worker can take one now. */
  lemma {:induction false} NoLostWakeup(ls: seq<Label>)
    requires Legal(Enabled, Apply, INIT, ls)
    ensures var s := Run(Apply, INIT, ls);
            s.waiting != {} ==>
              && s.running && |s.queue| <= |Awake(s)|
              && (|s.queue| > 0 ==> exists w, woken ::
                    Enabled(s, Take(w, woken)) && Apply(s, Take(w, woken)).queue == s.queue[1..])
  {
    Safe(ls);
    var s := Run(Apply, INIT, ls);
    assert Taken(s) >= 0 && WorkConserving(s);
    hide Apart, Once, Run, Legal, Enabled, Apply;
    if s.waiting != {} && |s.queue| > 0 {
      AwakeCanTake(s);
    }
  }

  /** A queued job never waits on a sleeping pool: as long as the pool runs, either some worker
      can take the front job now, or every worker still there is running a job. */
  lemma {:induction false} NoIdleWithWork(ls: seq<Label>)
    requires Legal(Enabled, Apply, INIT, ls)
    ensures var s := Run(Apply, INIT, ls);
            Dequeues(s) && Awake(s) == {} ==> s.busy.Keys + s.exited == Threads(0, s.threads)
  {
    Safe(ls);
  }

  // ---- First in, first out, exactly once ----

  /** The dequeued jobs are a prefix of the added ones and the queue is the rest; each dequeued
      job is at exactly one busy worker or has finished exactly once, and a queued one has neither. */
  lemma {:induction false} ExactlyOnce(ls: seq<Label>, i: nat)
    requires Legal(Enabled, Apply, INIT, ls)
    requires i < |Run(Apply, INIT, ls).added|
    ensures var s := Run(Apply, INIT, ls);
            && Fifo(s)
            && (i < Taken(s) <==> s.finished[i] == 1 || exists w :: w in s.busy && s.busy[w] == i)
            && s.finished[i] <= 1
            && (s.finished[i] == 1 ==> i !in s.busy.Values)
  {
    Safe(ls);
  }

  /** Each Take that returns a job returns the oldest one not yet returned. */
  lemma {:induction false} TakesOldest(ls: seq<Label>, w: nat, woken: set<nat>)
    requires Legal(Enabled, Apply, INIT, ls)
    requires Enabled(Run(Apply, INIT, ls), Take(w, woken)) && Dequeues(Run(Apply, INIT, ls))
    ensures var s := Run(Apply, INIT, ls);
            var s' := Apply(s, Take(w, woken));
            && Taken(s') == Taken(s) + 1 && s'.busy[w] == Taken(s)
            && s.queue[0] == s.added[s'.busy[w]]
  {
    Safe(ls);
  }

  // ---- The destructor ----

  /** When the destructor has joined every thread, whatever stopped the pool: every dequeued job
      has finished exactly once, and the others never ran and are still queued, in order. */
  lemma {:induction false} JoinedIsSettled(ls: seq<Label>)
    requires Legal(Enabled, Apply, INIT, ls)
    ensures var s := Run(Apply, INIT, ls);
            s.joined == s.threads ==>
              && s.exited == Threads(0, s.threads) && s.busy == map[]
              && (forall i: nat :: s.finished[i] == if i < Taken(s) then 1 else 0)
              && Fifo(s)
  {
    Safe(ls);
    var s := Run(Apply, INIT, ls);
    if s.joined == s.threads {
      hide Run, Legal;
      assert s.busy.Keys == {};
      assert s.busy == map[];
      assert s.busy.Values == {};
    }
  }

  /** The pool is started once, nobody but a job stops it, and nothing is added after that job. */
  predicate Poisoned(s: State, l: Label) {
    && Enabled(s, l)
    && !l.Stop?
    && (l.Commence? ==> s.threads == 0)
    && (l.AddJob? ==> forall i :: 0 <= i < |s.added| ==> s.added[i].Work?)
  }

  /** Only the last job may be the stopping one, and once started the pool runs until that job has. */
  predicate StopIsLast(s: State) {
    && (forall i :: 0 <= i < |s.added| - 1 ==> s.added[i].Work?)
    && (s.running ==> s.exited == {})
    && (s.threads > 0 && !s.running ==> StopHasRun(s))
    && (StopHasRun(s) ==> !s.running)
    && (s.threads == 0 ==> Taken(s) == 0 && s.exited == {})
  }

  predicate StopHasRun(s: State) {
    |s.added| > 0 && s.added[|s.added| - 1].StopQueue? && s.finished[|s.added| - 1] > 0
  }

  ghost predicate PoisonInv(s: State) {
    Inv(s) && StopIsLast(s)
  }

  lemma NoThreads(s: State)
    requires Partition(s) && s.threads == 0
    ensures Awake(s) == {} && s.busy.Keys == {} && s.exited == {}
  {
    assert Threads(0, 0) == {};
  }

  /** A job with a number not yet dequeued has not finished. */
  lemma QueuedHasNotRun(s: State, i: nat)
    requires Once(s.finished, s.busy, Taken(s)) && i >= Taken(s)
    ensures s.finished[i] == 0
  {
  }

  lemma FinishKeepsStopIsLast(s: State, w: nat)
    requires StopIsLast(s) && Enabled(s, Finish(w)) && Taken(s) >= 0 && s.threads > 0
    ensures StopIsLast(Apply(s, Finish(w)))
  {
    var i := s.busy[w];
    assert i < |s.added| - 1 ==> s.added[i].Work?;
  }

  lemma AddKeepsStopIsLast(s: State, job: Job, woken: set<nat>)
    requires StopIsLast(s) && Poisoned(s, AddJob(job, woken)) && Taken(s) >= 0
    requires s.finished[|s.added|] == 0
    ensures StopIsLast(Apply(s, AddJob(job, woken)))
  {
    hide Wakes;
  }

  lemma KeepsStopIsLast(s: State, l: Label)
    requires StopIsLast(s) && Partition(s) && Once(s.finished, s.busy, Taken(s)) && Fifo(s)
    requires Poisoned(s, l)
    ensures StopIsLast(Apply(s, l))
  {
    QueuedHasNotRun(s, |s.added|);
    if |s.added| > 0 && Taken(s) == 0 {
      QueuedHasNotRun(s, |s.added| - 1);
    }
    if s.threads == 0 {
      NoThreads(s);
    }
    hide Apart, Once, Wakes;
    match l
    case Finish(w) => FinishKeepsStopIsLast(s, w);
    case AddJob(job, woken) => AddKeepsStopIsLast(s, job, woken);
    case _ =>
  }

  lemma KeepsPoisonInv(s: State, l: Label)
    requires PoisonInv(s) && Poisoned(s, l)
    ensures PoisonInv(Apply(s, l))
  {
    hide Apart, Once, WorkConserving, StopIsLast, Apply, Enabled;
    KeepsInv(s, l);
    KeepsStopIsLast(s, l);
  }

  /** With stop enqueued as the last job, when the destructor's joins have returned every job
      added has run exactly once and the queue is empty. */
  lemma {:induction false} PoisonRunsEverything(ls: seq<Label>)
    requires Legal(Poisoned, Apply, INIT, ls)
    ensures var s := Run(Apply, INIT, ls);
            s.threads > 0 && s.joined == s.threads ==>
              && |s.added| > 0 && s.added[|s.added| - 1].StopQueue?
              && s.queue == [] && s.busy == map[]
              && (forall i: nat :: s.finished[i] == if i < |s.added| then 1 else 0)
  {
    hide PoisonInv, Poisoned, Enabled, Apply, Apart, Once, WorkConserving;
    var s := Run(Apply, INIT, ls);
    PoisonSafe(ls);
    assert Legal(Enabled, Apply, INIT, ls) by { PoisonedIsLegal(ls); }
    JoinedIsSettled(ls);
    if s.threads > 0 && s.joined == s.threads {
      LastHasRun(s);
    }
  }

  lemma LastHasRun(s: State)
    requires PoisonInv(s) && s.threads > 0 && s.exited == Threads(0, s.threads)
    requires forall i: nat :: s.finished[i] == if i < Taken(s) then 1 else 0
    ensures |s.added| > 0 && s.added[|s.added| - 1].StopQueue? && s.queue == [] && Taken(s) == |s.added|
  {
    hide Apart, Once, WorkConserving;
    assert 0 in s.exited;
    assert !s.running;
    assert s.finished[|s.added| - 1] > 0;
  }

  lemma {:induction false} PoisonedIsLegal(ls: seq<Label>)
    requires Legal(Poisoned, Apply, INIT, ls)
    ensures Legal(Enabled, Apply, INIT, ls)
  {
    hide Enabled, Apply;
    Weaken(Poisoned, Enabled, Apply, INIT, ls);
  }

  lemma {:induction false} PoisonSafe(ls: seq<Label>)
    requires Legal(Poisoned, Apply, INIT, ls)
    ensures PoisonInv(Run(Apply, INIT, ls))
  {
    InitPoison();
    hide PoisonInv, Poisoned, Apply;
    forall s, l | PoisonInv(s) && Poisoned(s, l) ensures PoisonInv(Apply(s, l)) {
      KeepsPoisonInv(s, l);
    }
    Invariant(Poisoned, Apply, PoisonInv, INIT, ls);
  }

  lemma InitPoison()
    ensures PoisonInv(INIT)
  {
  }

  /** How much is left until the destructor returns, once the stopping job is enqueued. */
  function ToGo(s: State): nat {
    3 * |s.queue| + |s.busy| + |Threads(0, s.threads) - s.exited|
    + (if s.joined < s.threads then s.threads - s.joined else 0)
  }

  lemma ExitCounts(threads: set<nat>, exited: set<nat>, w: nat)
    requires w in threads && w !in exited
    ensures |threads - (exited + {w})| == |threads - exited| - 1
  {
    assert threads - (exited + {w}) == (threads - exited) - {w};
  }

  lemma TakeGoesOn(s: State, w: nat, woken: set<nat>)
    requires Inv(s) && Enabled(s, Take(w, woken)) && (Dequeues(s) || !s.running)
    ensures ToGo(Apply(s, Take(w, woken))) < ToGo(s)
  {
    AwakeApart(s);
    assert Taken(s) >= 0 && w in Threads(0, s.threads);
    hide Inv, Threads, Wakes;
    if Dequeues(s) {
      var k: nat := Taken(s);
      assert |s.busy[w := k]| == |s.busy| + 1;
    } else {
      ExitCounts(Threads(0, s.threads), s.exited, w);
    }
  }

  lemma FinishGoesOn(s: State, w: nat)
    requires Enabled(s, Finish(w)) && Taken(s) >= 0
    ensures ToGo(Apply(s, Finish(w))) < ToGo(s)
  {
    hide Threads;
    BusyLess(s.busy, w);
  }

  lemma BusyLess(busy: map<nat, nat>, w: nat)
    requires w in busy
    ensures |busy - {w}| == |busy| - 1
  {
    assert (busy - {w}).Keys == busy.Keys - {w};
    assert |busy - {w}| == |(busy - {w}).Keys|;
  }

  lemma JoinGoesOn(s: State)
    requires Enabled(s, JoinNext) && Taken(s) >= 0
    ensures ToGo(Apply(s, JoinNext)) < ToGo(s)
  {
    hide Threads;
  }

  lemma ProgressByTake(s: State) returns (l: Label)
    requires Inv(s) && Awake(s) != {} && (Dequeues(s) || !s.running)
    ensures Poisoned(s, l) && ToGo(Apply(s, l)) < ToGo(s) && !l.AddJob?
  {
    hide Inv, ToGo, Apply;
    var w :| w in Awake(s);
    l := Take(w, if Dequeues(s) && |s.queue| > 1 then s.waiting else {});
    TakeGoesOn(s, w, l.woken);
  }

  lemma ProgressByFinish(s: State) returns (l: Label)
    requires Inv(s) && s.busy.Keys != {}
    ensures Poisoned(s, l) && ToGo(Apply(s, l)) < ToGo(s) && !l.AddJob?
  {
    hide Partition, WorkConserving, ToGo, Apply;
    var w :| w in s.busy.Keys;
    assert s.busy[w] in s.busy.Values;
    assert s.busy[w] < Taken(s);
    l := Finish(w);
    FinishGoesOn(s, w);
  }

  lemma ProgressByJoin(s: State)
    requires Taken(s) >= 0 && s.joined < s.threads && s.joined in s.exited
    ensures Poisoned(s, JoinNext) && ToGo(Apply(s, JoinNext)) < ToGo(s)
  {
    JoinGoesOn(s);
  }

  /** Until the destructor returns, some step brings it closer, whatever has happened so far. */
  lemma PoisonProgress(s: State) returns (l: Label)
    requires PoisonInv(s) && s.joined < s.threads
    requires |s.added| > 0 && s.added[|s.added| - 1].StopQueue?
    ensures Poisoned(s, l) && ToGo(Apply(s, l)) < ToGo(s) && !l.AddJob?
  {
    assert Taken(s) >= 0;
    hide Inv, StopIsLast, Poisoned, ToGo, Apply;
    if Awake(s) != {} && (Dequeues(s) || !s.running) {
      l := ProgressByTake(s);
    } else if s.busy.Keys != {} {
      l := ProgressByFinish(s);
    } else {
      NobodyLeft(s);
      l := JoinNext;
      ProgressByJoin(s);
    }
  }

  /** With no worker busy and none that could take or leave, all have exited. */
  lemma NobodyLeft(s: State)
    requires PoisonInv(s) && s.joined < s.threads && s.busy.Keys == {}
    requires |s.added| > 0 && s.added[|s.added| - 1].StopQueue?
    requires Awake(s) == {} || (s.running && |s.queue| == 0)
    ensures s.joined in s.exited
  {
    assert s.busy.Values == {};
    if s.running {
      if |s.queue| == 0 {
        QueueEmptyRan(s);
      } else {
        assert s.exited == {} && s.waiting == {};
        SomeThread(s);
      }
      assert false;
    }
    hide Once, StopIsLast;
    assert s.joined in Threads(0, s.threads);
  }

  /** If all jobs have been dequeued and none is being run, the last one has finished. */
  lemma QueueEmptyRan(s: State)
    requires PoisonInv(s) && s.busy.Values == {} && |s.queue| == 0
    requires |s.added| > 0 && s.added[|s.added| - 1].StopQueue?
    ensures !s.running
  {
    hide Apart, WorkConserving;
    var last: nat := |s.added| - 1;
    assert last < Taken(s);
    assert s.finished[last] + (if last in s.busy.Values then 1 else 0) == 1;
  }

  lemma SomeThread(s: State)
    requires Partition(s) && s.threads > 0
    ensures !(Awake(s) == {} && s.waiting == {} && s.busy.Keys == {} && s.exited == {})
  {
    assert 0 in Threads(0, s.threads);
  }

  /** Whatever has happened, once the stopping job is enqueued some continuation of the run takes
      the destructor to its end; nothing can have got stuck. */
  lemma {:induction false} PoisonCanFinish(s: State) returns (ls: seq<Label>)
    requires PoisonInv(s) && s.threads > 0
    requires |s.added| > 0 && s.added[|s.added| - 1].StopQueue?
    ensures Legal(Poisoned, Apply, s, ls)
    ensures Run(Apply, s, ls).joined == Run(Apply, s, ls).threads == s.threads
    decreases ToGo(s)
  {
    ls := [];
    if s.joined < s.threads {
      var l := PoisonProgress(s);
      hide PoisonInv, Poisoned, ToGo, Apply;
      KeepsPoisonInv(s, l);
      SameThreads(s, l);
      var more := PoisonCanFinish(Apply(s, l));
      Prepend(Poisoned, Apply, s, l, more);
      ls := [l] + more;
    }
  }

  lemma SameThreads(s: State, l: Label)
    requires Poisoned(s, l) && s.threads > 0 && !l.AddJob?
    ensures Apply(s, l).threads == s.threads && Apply(s, l).added == s.added
  {
  }

  // ---- Shutdown terminates ----

  predicate NoRestart(s: State, l: Label) {
    Enabled(s, l) && !l.Commence?
  }

  /** Take and Finish steps that are left once the pool has stopped. */
  function Remaining(s: State): nat {
    2 * |s.busy| + |Awake(s)|
  }

  function WorkerSteps(ls: seq<Label>): nat {
    if |ls| == 0 then 0
    else WorkerSteps(ls[..|ls| - 1]) + (if ls[|ls| - 1].Take? || ls[|ls| - 1].Finish? then 1 else 0)
  }

  ghost predicate Down(s: State) {
    Inv(s) && !s.running
  }

  ghost predicate StaysDown(s: State, s': State, spent: nat) {
    !s'.running && s'.waiting == {} && Taken(s') == Taken(s) && Remaining(s') + spent == Remaining(s)
  }

  lemma DownTake(s: State, w: nat, woken: set<nat>)
    requires Down(s) && Enabled(s, Take(w, woken))
    ensures StaysDown(s, Apply(s, Take(w, woken)), 1)
  {
    hide Apart, Once;
    AwakeExchange(s.ready, s.signalled, w, {});
    assert s.signalled - {w} + {} == s.signalled - {w};
  }

  lemma FinishGain(ready: set<nat>, signalled: set<nat>, busy: map<nat, nat>, w: nat)
    requires w in busy && w !in ready + signalled
    ensures |(ready + {w}) + signalled| == |ready + signalled| + 1
    ensures |busy - {w}| == |busy| - 1
  {
    assert (ready + {w}) + signalled == (ready + signalled) + {w};
    assert (busy - {w}).Keys == busy.Keys - {w};
    assert |busy - {w}| == |(busy - {w}).Keys|;
  }

  lemma DownFinish(s: State, w: nat)
    requires Down(s) && Enabled(s, Finish(w))
    ensures StaysDown(s, Apply(s, Finish(w)), 1)
  {
    AwakeApart(s);
    assert s.waiting == {} && Taken(s) >= 0;
    hide Inv, Once;
    assert Apply(s, Finish(w)) == s.(busy := s.busy - {w}, ready := s.ready + {w},
                                     finished := s.finished + multiset{s.busy[w]});
    hide Apply, Enabled;
    FinishGain(s.ready, s.signalled, s.busy, w);
  }

  lemma DownOther(s: State, l: Label)
    requires Down(s) && NoRestart(s, l) && !l.Take? && !l.Finish?
    ensures StaysDown(s, Apply(s, l), 0)
  {
    assert s.waiting == {} && Taken(s) >= 0;
    assert l.AddJob? ==> l.woken == {};
    hide Inv, Threads, Wakes, Remaining;
    NobodyToWake(s);
    hide Wake;
    SameRemaining(s, Apply(s, l));
  }

  lemma NobodyToWake(s: State)
    requires s.waiting == {}
    ensures Wake(s, {}) == s
  {
    assert s.signalled + {} == s.signalled && s.waiting - {} == s.waiting;
  }

  lemma SameRemaining(s: State, s': State)
    requires s'.busy == s.busy && s'.ready == s.ready && s'.signalled == s.signalled
    ensures Remaining(s') == Remaining(s)
  {
  }

  /** A stopped pool stays stopped: no worker sleeps, nothing more is dequeued, and every step
      of a worker uses up one of the remaining ones. */
  lemma DownStep(s: State, l: Label)
    requires Down(s) && NoRestart(s, l)
    ensures Down(Apply(s, l)) && StaysDown(s, Apply(s, l), if l.Take? || l.Finish? then 1 else 0)
  {
    hide Apart, Once, Apply, Remaining, Enabled;
    KeepsInv(s, l);
    match l
    case Take(w, woken) => DownTake(s, w, woken);
    case Finish(w) => DownFinish(s, w);
    case _ => DownOther(s, l);
  }

  /** From any stopped state on, whatever runs: at most Remaining worker steps happen, no worker
      ever sleeps again, and no job is dequeued any more. */
  lemma {:induction false} ShutdownBound(s: State, ls: seq<Label>)
    requires Down(s) && Legal(NoRestart, Apply, s, ls)
    ensures var t := Run(Apply, s, ls);
            Down(t) && StaysDown(s, t, WorkerSteps(ls))
  {
    hide Apart, Once, Apply, Enabled, Remaining;
    if |ls| > 0 {
      var n := |ls| - 1;
      ShutdownBound(s, ls[..n]);
      DownStep(Run(Apply, s, ls[..n]), ls[n]);
    }
  }

  /** From a call of stop on, in whatever state it comes: the pool stays down, no worker sleeps, no
      job is dequeued, and the workers take at most two more steps for each busy one and one for
      each other that has not exited. */
  lemma {:induction false} StopShutsDown(s: State, ls: seq<Label>)
    requires Inv(s) && Legal(NoRestart, Apply, Apply(s, Stop), ls)
    ensures var t := Run(Apply, Apply(s, Stop), ls);
            && Inv(t) && !t.running && t.waiting == {} && Taken(t) == Taken(s)
            && WorkerSteps(ls) + Remaining(t) == 2 * |s.busy| + |s.ready + s.signalled + s.waiting|
  {
    hide Inv, Apply, Enabled;
    StopOutcome(s);
    var s' := Apply(s, Stop);
    ShutdownBound(s', ls);
    assert Awake(s') == s.ready + s.signalled + s.waiting;
  }

  /** While worker steps remain, one is possible; when none remain, every worker has exited. */
  lemma ShutdownProgress(s: State)
    requires Down(s)
    ensures Remaining(s) == 0 <==> s.exited == Threads(0, s.threads)
    ensures Remaining(s) > 0 ==> exists l: Label :: (l.Take? || l.Finish?) && NoRestart(s, l)
  {
    if w :| w in Awake(s) {
      assert NoRestart(s, Take(w, {}));
    } else if w :| w in s.busy {
      assert s.busy[w] in s.busy.Values;
      assert NoRestart(s, Finish(w));
    } else {
      assert s.busy.Keys == {};
      assert Awake(s) == {};
    }
  }
}
