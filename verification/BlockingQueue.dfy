/** The job queue served by a pool of worker threads (codechiev/base/BlockingQueue.hpp). */
module BlockingQueues {
  import opened Conditions
  import opened Runs

  /** StopQueue is a job that calls stop on its own queue. */
  datatype Job = Work(id: nat) | StopQueue

  /** A worker is ready to enter takeJob, waiting or signalled inside it, busy with the job
      of the given number, or has left through QueueBreak.  Jobs are numbered in the order added. */
  datatype State = State(queue: seq<Job>, running: bool, threads: nat,
                         ready: set<nat>, waiting: set<nat>, signalled: set<nat>,
                         busy: map<nat, nat>, exited: set<nat>, joined: nat,
                         added: seq<Job>, finished: multiset<nat>)

  datatype Label =
    | AddJob(job: Job, woken: set<nat>)
    | Take(w: nat, woken: set<nat>)     // one pass through takeJob, up to its wait, throw or return
    | Finish(w: nat)                    // the job returns or throws, having done its work
    | Stop                              // a call from outside the pool
    | Spurious(w: nat)
    | Commence(n: nat)
    | JoinNext                          // the destructor joins the next thread

  const INIT := State([], false, 0, {}, {}, {}, map[], {}, 0, [], multiset{})

  /** How many jobs have been dequeued. */
  function Taken(s: State): int {
    |s.added| - |s.queue|
  }

  function Awake(s: State): set<nat> {
    s.ready + s.signalled
  }

  predicate Dequeues(s: State) {
    s.running && |s.queue| > 0
  }

  predicate Enabled(s: State, l: Label) {
    match l
    case AddJob(job, woken) => Wakes(s.waiting, woken)
    case Take(w, woken) =>
      w in Awake(s) && if Dequeues(s) && |s.queue| > 1 then Wakes(s.waiting, woken) else woken == {}
    case Finish(w) => w in s.busy && 0 <= s.busy[w] < |s.added|
    case Stop => true
    case Spurious(w) => w in s.waiting
    case Commence(n) => true
    case JoinNext => s.joined < s.threads && s.joined in s.exited
  }

  function Wake(s: State, woken: set<nat>): State {
    s.(waiting := s.waiting - woken, signalled := s.signalled + woken)
  }

  function Stopped(s: State): State {
    if s.running then Wake(s, s.waiting).(running := false) else s
  }

  function Dequeue(s: State, w: nat, woken: set<nat>): State
    requires |s.queue| > 0 && Taken(s) >= 0
  {
    Wake(s, woken).(queue := s.queue[1..], busy := s.busy[w := Taken(s)])
  }

  function Apply(s: State, l: Label): State {
    if !Enabled(s, l) || Taken(s) < 0 then s else
    match l
    case AddJob(job, woken) => Wake(s, woken).(queue := s.queue + [job], added := s.added + [job])
    case Take(w, woken) =>
      var s' := s.(ready := s.ready - {w}, signalled := s.signalled - {w});
      if |s.queue| == 0 && s.running then s'.(waiting := s'.waiting + {w})
      else if !s.running then s'.(exited := s'.exited + {w})
      else Dequeue(s', w, woken)
    case Finish(w) =>
      var s' := s.(busy := s.busy - {w}, ready := s.ready + {w},
                   finished := s.finished + multiset{s.busy[w]});
      if s.added[s.busy[w]].StopQueue? then Stopped(s') else s'
    case Stop => Stopped(s)
    case Spurious(w) => Wake(s, {w})
    case Commence(n) =>
      if s.running then s
      else s.(running := true, threads := s.threads + n, ready := s.ready + Threads(s.threads, n))
    case JoinNext => s.(joined := s.joined + 1)
  }

  // ---- The invariant ----

  /** Every thread is in exactly one of the five conditions; joined threads have exited. */
  ghost predicate Apart(ready: set<nat>, waiting: set<nat>, signalled: set<nat>, busy: set<nat>,
                        exited: set<nat>, threads: nat, joined: nat)
  {
    && ready !! waiting !! signalled !! busy !! exited
    && ready + waiting + signalled + busy + exited == Threads(0, threads)
    && joined <= threads && Threads(0, joined) <= exited
  }

  ghost predicate Partition(s: State) {
    Apart(s.ready, s.waiting, s.signalled, s.busy.Keys, s.exited, s.threads, s.joined)
  }

  predicate Fifo(s: State) {
    Taken(s) >= 0 && s.queue == s.added[Taken(s)..]
  }

  /** Each of the first taken jobs is at one busy worker or has finished once, the others neither. */
  ghost predicate Once(finished: multiset<nat>, busy: map<nat, nat>, taken: int) {
    && (forall i: nat :: finished[i] + (if i in busy.Values then 1 else 0) == (if i < taken then 1 else 0))
    && (forall v, w :: v in busy && w in busy && v != w ==> busy[v] != busy[w])
  }

  /** Workers sleep only while the pool runs and no more jobs are queued than workers are awake. */
  predicate WorkConserving(s: State) {
    s.waiting != {} ==> s.running && |s.queue| <= |Awake(s)|
  }

  ghost predicate Inv(s: State) {
    Partition(s) && Fifo(s) && Once(s.finished, s.busy, Taken(s)) && WorkConserving(s)
  }

  lemma AwakeApart(s: State)
    requires Partition(s)
    ensures Awake(s) !! s.waiting && Awake(s) !! s.busy.Keys && Awake(s) !! s.exited
  {
  }

  lemma WakeApart(r: set<nat>, wa: set<nat>, si: set<nat>, b: set<nat>, e: set<nat>, n: nat, j: nat,
                  woken: set<nat>)
    requires Apart(r, wa, si, b, e, n, j) && woken <= wa
    ensures Apart(r, wa - woken, si + woken, b, e, n, j)
  {
  }

  lemma TakeApart(r: set<nat>, wa: set<nat>, si: set<nat>, b: set<nat>, e: set<nat>, n: nat, j: nat, w: nat)
    requires Apart(r, wa, si, b, e, n, j) && w in r + si
    ensures Apart(r - {w}, wa + {w}, si - {w}, b, e, n, j)
    ensures Apart(r - {w}, wa, si - {w}, b + {w}, e, n, j)
    ensures Apart(r - {w}, wa, si - {w}, b, e + {w}, n, j)
  {
  }

  lemma FinishApart(r: set<nat>, wa: set<nat>, si: set<nat>, b: set<nat>, e: set<nat>, n: nat, j: nat, w: nat)
    requires Apart(r, wa, si, b, e, n, j) && w in b
    ensures Apart(r + {w}, wa, si, b - {w}, e, n, j)
  {
  }

  lemma CommenceApart(r: set<nat>, wa: set<nat>, si: set<nat>, b: set<nat>, e: set<nat>, n: nat, j: nat, m: nat)
    requires Apart(r, wa, si, b, e, n, j)
    ensures Apart(r + Threads(n, m), wa, si, b, e, n + m, j)
  {
    assert Threads(0, n + m) == Threads(0, n) + Threads(n, m);
  }

  lemma JoinApart(r: set<nat>, wa: set<nat>, si: set<nat>, b: set<nat>, e: set<nat>, n: nat, j: nat)
    requires Apart(r, wa, si, b, e, n, j) && j < n && j in e
    ensures Apart(r, wa, si, b, e, n, j + 1)
  {
    assert Threads(0, j + 1) == Threads(0, j) + {j};
  }

  lemma TakeKeepsPartition(s: State, w: nat, woken: set<nat>)
    requires Partition(s) && Enabled(s, Take(w, woken))
    ensures Partition(Apply(s, Take(w, woken)))
  {
    hide Apart;
    TakeApart(s.ready, s.waiting, s.signalled, s.busy.Keys, s.exited, s.threads, s.joined, w);
    if Taken(s) >= 0 && Dequeues(s) {
      var taken: nat := Taken(s);
      assert (s.busy[w := taken]).Keys == s.busy.Keys + {w};
      WakeApart(s.ready - {w}, s.waiting, s.signalled - {w}, s.busy.Keys + {w}, s.exited, s.threads, s.joined, woken);
    }
  }

  lemma FinishKeepsPartition(s: State, w: nat)
    requires Partition(s) && Enabled(s, Finish(w))
    ensures Partition(Apply(s, Finish(w)))
  {
    hide Apart;
    assert (s.busy - {w}).Keys == s.busy.Keys - {w};
    FinishApart(s.ready, s.waiting, s.signalled, s.busy.Keys, s.exited, s.threads, s.joined, w);
    WakeApart(s.ready + {w}, s.waiting, s.signalled, s.busy.Keys - {w}, s.exited, s.threads, s.joined, s.waiting);
  }

  lemma KeepsPartition(s: State, l: Label)
    requires Partition(s) && Enabled(s, l)
    ensures Partition(Apply(s, l))
  {
    hide Apart;
    var r, wa, si, b, e, n, j := s.ready, s.waiting, s.signalled, s.busy.Keys, s.exited, s.threads, s.joined;
    match l
    case AddJob(job, woken) => WakeApart(r, wa, si, b, e, n, j, woken);
    case Take(w, woken) => TakeKeepsPartition(s, w, woken);
    case Finish(w) => FinishKeepsPartition(s, w);
    case Stop => WakeApart(r, wa, si, b, e, n, j, wa);
    case Spurious(w) => WakeApart(r, wa, si, b, e, n, j, {w});
    case Commence(m) => CommenceApart(r, wa, si, b, e, n, j, m);
    case JoinNext => JoinApart(r, wa, si, b, e, n, j);
  }

  lemma KeepsFifo(s: State, l: Label)
    requires Fifo(s) && Enabled(s, l)
    ensures Fifo(Apply(s, l))
  {
  }

  lemma TakeKeepsOnce(finished: multiset<nat>, busy: map<nat, nat>, taken: nat, w: nat)
    requires Once(finished, busy, taken) && w !in busy
    ensures Once(finished, busy[w := taken], taken + 1)
  {
    assert taken !in busy.Values;
    var b := busy[w := taken];
    assert b[w] == taken;
    forall i: nat ensures i in b.Values <==> i in busy.Values || i == taken {
      if i in busy.Values {
        var v :| v in busy && busy[v] == i;
        assert b[v] == i;
      }
    }
  }

  lemma FinishKeepsOnce(finished: multiset<nat>, busy: map<nat, nat>, taken: int, w: nat)
    requires Once(finished, busy, taken) && w in busy
    ensures Once(finished + multiset{busy[w]}, busy - {w}, taken)
  {
    var b := busy - {w};
    forall i: nat ensures i in b.Values <==> i in busy.Values && i != busy[w] {
      if i in busy.Values && i != busy[w] {
        var v :| v in busy && busy[v] == i;
        assert v in b && b[v] == i;
      }
    }
    assert busy[w] in busy.Values;
  }

  /** Only a Take that dequeues and a Finish change where a job is. */
  lemma JobsStay(s: State, l: Label)
    requires Enabled(s, l) && Taken(s) >= 0 && !l.Finish? && !(l.Take? && Dequeues(s))
    ensures var s' := Apply(s, l);
            s'.finished == s.finished && s'.busy == s.busy && Taken(s') == Taken(s)
  {
    hide Wakes;
  }

  lemma KeepsOnce(s: State, l: Label)
    requires Partition(s) && Once(s.finished, s.busy, Taken(s)) && Taken(s) >= 0 && Enabled(s, l)
    ensures Once(Apply(s, l).finished, Apply(s, l).busy, Taken(Apply(s, l)))
  {
    AwakeApart(s);
    hide Once, Partition, Wakes;
    if l.Take? && Dequeues(s) {
      TakeKeepsOnce(s.finished, s.busy, Taken(s), l.w);
    } else if l.Finish? {
      FinishKeepsOnce(s.finished, s.busy, Taken(s), l.w);
    } else {
      JobsStay(s, l);
    }
  }

  /** Worker w leaves the awake ones, the woken ones join them. */
  lemma AwakeExchange(ready: set<nat>, signalled: set<nat>, w: nat, woken: set<nat>)
    requires w in ready + signalled && woken !! ready + signalled
    ensures |(ready - {w}) + ((signalled - {w}) + woken)| == |ready + signalled| - 1 + |woken|
  {
    var stay := ready + signalled - {w};
    assert (ready - {w}) + ((signalled - {w}) + woken) == stay + woken;
    assert |stay + woken| == |stay| + |woken|;
  }

  lemma AwakeGain(ready: set<nat>, signalled: set<nat>, woken: set<nat>)
    requires woken !! ready + signalled
    ensures |ready + (signalled + woken)| == |ready + signalled| + |woken|
  {
    assert ready + (signalled + woken) == (ready + signalled) + woken;
    assert |(ready + signalled) + woken| == |ready + signalled| + |woken|;
  }

  /** A worker that takes a job uses up one job and one awake worker.  This needs nothing of
      the signal takeJob sends afterwards: any set of waiters may be woken, even none. */
  lemma DequeueKeepsWorkConserving(s: State, w: nat, woken: set<nat>)
    requires Awake(s) !! s.waiting && WorkConserving(s)
    requires w in Awake(s) && Dequeues(s) && Taken(s) >= 0 && woken <= s.waiting
    ensures WorkConserving(Dequeue(s.(ready := s.ready - {w}, signalled := s.signalled - {w}), w, woken))
  {
    AwakeExchange(s.ready, s.signalled, w, woken);
  }

  lemma AddKeepsWorkConserving(s: State, job: Job, woken: set<nat>)
    requires Partition(s) && WorkConserving(s) && Wakes(s.waiting, woken) && Taken(s) >= 0
    ensures WorkConserving(Apply(s, AddJob(job, woken)))
  {
    AwakeApart(s);
    hide Apart;
    AwakeGain(s.ready, s.signalled, woken);
    if s.waiting - woken != {} {
      assert woken != {};
      assert |woken| >= 1;
    }
  }

  lemma TakeKeepsWorkConserving(s: State, w: nat, woken: set<nat>)
    requires Partition(s) && WorkConserving(s) && Enabled(s, Take(w, woken)) && Taken(s) >= 0
    ensures WorkConserving(Apply(s, Take(w, woken)))
  {
    if Dequeues(s) {
      hide Apart;
      DequeueKeepsWorkConserving(s, w, woken);
    }
  }

  lemma OthersKeepWorkConserving(s: State, l: Label)
    requires Partition(s) && WorkConserving(s) && Enabled(s, l) && Taken(s) >= 0
    requires l.Stop? || l.Commence? || l.JoinNext?
    ensures WorkConserving(Apply(s, l))
  {
    hide Apart;
  }

  lemma FinishKeepsWorkConserving(s: State, w: nat)
    requires WorkConserving(s) && Enabled(s, Finish(w)) && Taken(s) >= 0
    ensures WorkConserving(Apply(s, Finish(w)))
  {
    Grows(Awake(s), s.ready + {w} + s.signalled);
  }

  /** Waking anybody, for whatever reason, only adds to the awake workers. */
  lemma WakeKeepsWorkConserving(s: State, woken: set<nat>)
    requires WorkConserving(s) && woken <= s.waiting
    ensures WorkConserving(Wake(s, woken))
  {
    Grows(Awake(s), s.ready + (s.signalled + woken));
  }

  lemma SpuriousWakes(s: State, w: nat)
    requires Enabled(s, Spurious(w)) && Taken(s) >= 0
    ensures Apply(s, Spurious(w)) == Wake(s, {w})
  {
  }

  lemma KeepsWorkConserving(s: State, l: Label)
    requires Partition(s) && WorkConserving(s) && Enabled(s, l) && Taken(s) >= 0
    ensures WorkConserving(Apply(s, l))
  {
    hide Partition, WorkConserving, Apply;
    match l
    case AddJob(job, woken) => AddKeepsWorkConserving(s, job, woken);
    case Take(w, woken) => TakeKeepsWorkConserving(s, w, woken);
    case Finish(w) => FinishKeepsWorkConserving(s, w);
    case Spurious(w) =>
      WakeKeepsWorkConserving(s, {w});
      SpuriousWakes(s, w);
    case _ => OthersKeepWorkConserving(s, l);
  }

  lemma KeepsInv(s: State, l: Label)
    requires Inv(s) && Enabled(s, l)
    ensures Inv(Apply(s, l))
  {
    KeepsOnce(s, l);
    hide Once, Apply;
    KeepsPartition(s, l);
    KeepsFifo(s, l);
    KeepsWorkConserving(s, l);
  }

  // ---- The class ----

  lemma CommenceIs(s: State, n: nat)
    requires Inv(s)
    ensures Enabled(s, Commence(n))
    ensures Apply(s, Commence(n)) ==
              if s.running then s
              else s.(running := true, threads := s.threads + n, ready := s.ready + Threads(s.threads, n))
  {
    hide Apart, Once, WorkConserving;
  }

  lemma AddIs(s: State, job: Job, woken: set<nat>)
    requires Inv(s) && Wakes(s.waiting, woken)
    ensures Enabled(s, AddJob(job, woken))
    ensures Apply(s, AddJob(job, woken))
         == Wake(s, woken).(queue := s.queue + [job], added := s.added + [job])
  {
    hide Apart, Once, WorkConserving, Wakes;
  }

  lemma TakeIs(s: State, w: nat, woken: set<nat>)
    requires Inv(s) && Enabled(s, Take(w, woken))
    ensures var s' := s.(ready := s.ready - {w}, signalled := s.signalled - {w});
            Apply(s, Take(w, woken)) ==
              if |s.queue| == 0 && s.running then s'.(waiting := s'.waiting + {w})
              else if !s.running then s'.(exited := s'.exited + {w})
              else Dequeue(s', w, woken)
  {
    hide Apart, Once, WorkConserving, Wakes;
  }

  lemma JoinIs(s: State)
    requires Inv(s) && s.joined < s.threads && s.joined in s.exited
    ensures Enabled(s, JoinNext) && Apply(s, JoinNext) == s.(joined := s.joined + 1)
  {
    hide Apart, Once, WorkConserving;
  }

  datatype Outcome = Waits | Breaks | Gets(job: Job)

  /** queue, running and cond are the source's; the other fields record where the worker
      threads stand, and the history of jobs.  Each method is one section under the mutex. */
  class BlockingQueue {
    const threadNum: nat
    const cond: Condition
    var queue: seq<Job>
    var running: bool
    var threads: nat
    var ready: set<nat>
    var busy: map<nat, nat>
    var exited: set<nat>
    var joined: nat
    var added: seq<Job>
    var finished: multiset<nat>

    function View(): State
      reads this, cond
    {
      State(queue, running, threads, ready, cond.waiting, cond.signalled, busy, exited, joined, added, finished)
    }

    ghost predicate Valid()
      reads this, cond
    {
      Inv(View())
    }

    constructor (n: nat)
      ensures Valid() && fresh(cond) && threadNum == n && View() == INIT
    {
      cond := new Condition();
      threadNum := n;
      queue, running, threads, ready, busy := [], false, 0, {}, map[];
      exited, joined, added, finished := {}, 0, [], multiset{};
      new;
      InitInv();
    }

    method AddJob(job: Job, woken: set<nat>)
      requires Valid() && Wakes(cond.waiting, woken)
      modifies this, cond
      ensures Valid() && Enabled(old(View()), Label.AddJob(job, woken))
      ensures View() == Apply(old(View()), Label.AddJob(job, woken))
    {
      hide Inv, Apply, Enabled, Wakes;
      ghost var before := View();
      queue, added := queue + [job], added + [job];
      cond.Notify(woken);
      AddIs(before, job, woken);
      KeepsInv(before, Label.AddJob(job, woken));
    }

    /** The part of takeJob after its loop and its check of running. */
    method PopFront(w: nat, woken: set<nat>) returns (job: Job)
      requires |queue| > 0 && Taken(View()) >= 0
      requires if |queue| > 1 then Wakes(cond.waiting, woken) else woken == {}
      modifies this`queue, this`busy, cond
      ensures job == old(queue)[0]
      ensures View() == Dequeue(old(View()), w, woken)
    {
      job := queue[0];
      busy := busy[w := |added| - |queue|];
      queue := queue[1..];
      if |queue| > 0 {
        cond.Notify(woken);
      }
    }

    /** One pass of worker w through takeJob, from acquiring the mutex to releasing it. */
    method TakeJob(w: nat, woken: set<nat>) returns (outcome: Outcome)
      requires Valid() && Enabled(View(), Take(w, woken))
      modifies this, cond
      ensures Valid() && View() == Apply(old(View()), Take(w, woken))
      ensures outcome == if old(!running) then Breaks
                         else if old(|queue|) == 0 then Waits
                         else Gets(old(queue)[0])
    {
      ghost var before := View();
      assert Taken(before) >= 0;
      hide Inv, Wakes, Apply;
      ghost var s := before.(ready := before.ready - {w}, signalled := before.signalled - {w});
      ready := ready - {w};
      cond.Resume(w);
      assert View() == s;
      if |queue| == 0 && running {
        cond.Wait(w);
        outcome := Waits;
        assert View() == s.(waiting := s.waiting + {w});
      } else if !running {
        exited := exited + {w};
        outcome := Breaks;
        assert View() == s.(exited := s.exited + {w});
      } else {
        var job := PopFront(w, woken);
        outcome := Gets(job);
      }
      TakeIs(before, w, woken);
      KeepsInv(before, Take(w, woken));
    }

    /** The job of worker w has run; one that calls stop has called it. */
    method FinishJob(w: nat)
      requires Valid() && w in busy
      modifies this, cond
      ensures Valid() && Enabled(old(View()), Finish(w))
      ensures View() == Apply(old(View()), Finish(w))
    {
      ghost var before := View();
      assert busy[w] in busy.Values;
      assert 0 <= busy[w] < Taken(before);
      hide Inv;
      var job := added[busy[w]];
      finished := finished + multiset{busy[w]};
      busy, ready := busy - {w}, ready + {w};
      if job.StopQueue? {
        StopSection();
      }
      KeepsInv(before, Finish(w));
    }

    method StopSection()
      modifies this`running, cond
      ensures View() == Stopped(old(View()))
    {
      if running {
        running := false;
        cond.NotifyAll();
      }
    }

    method Stop()
      requires Valid()
      modifies this, cond
      ensures Valid() && View() == Apply(old(View()), Label.Stop)
    {
      ghost var before := View();
      StopSection();
      KeepsInv(before, Label.Stop);
    }

    /** A thread that has been created but has not run yet counts as ready. */
    method Commence()
      requires Valid()
      modifies this
      ensures Valid() && View() == Apply(old(View()), Label.Commence(threadNum))
    {
      ghost var before := View();
      CommenceIs(before, threadNum);
      KeepsInv(before, Label.Commence(threadNum));
      hide Inv, Apply, Threads;
      if running {
        return;
      }
      running := true;
      StartThreads();
    }

    method StartThreads()
      modifies this`threads, this`ready
      ensures threads == old(threads) + threadNum
      ensures ready == old(ready) + Threads(old(threads), threadNum)
    {
      var i := 0;
      while i < threadNum
        invariant 0 <= i <= threadNum && threads == old(threads) + i
        invariant ready == old(ready) + Threads(old(threads), i)
      {
        ready := ready + {threads};
        threads := threads + 1;
        i := i + 1;
      }
    }

    /** One turn of the destructor's loop, once the thread to be joined has exited. */
    method JoinNext()
      requires Valid() && joined < threads && joined in exited
      modifies this`joined
      ensures Valid() && View() == Apply(old(View()), Label.JoinNext)
    {
      hide Inv, Apply, Enabled;
      ghost var before := View();
      JoinIs(before);
      joined := joined + 1;
      KeepsInv(before, Label.JoinNext);
    }
  }

  lemma InitInv()
    ensures Inv(INIT)
  {
  }
}
