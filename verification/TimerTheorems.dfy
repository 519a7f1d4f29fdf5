/** What every run of the timer queue keeps. */
module TimerTheorems {
  import opened Runs
  import opened TimerQueues

  lemma {:induction false} Safe(es: seq<Event>)
    requires Legal(Enabled, Apply, INIT, es)
    ensures Inv(Run(Apply, INIT, es))
  {
    hide Inv, Enabled, Apply;
    forall s, e | Inv(s) && Enabled(s, e) ensures Inv(Apply(s, e)) {
      KeepsInv(s, e);
    }
    assert Inv(INIT) by { InitInv(); }
    Invariant(Enabled, Apply, Inv, INIT, es);
  }

  lemma InitInv()
    ensures Inv(INIT)
  {
  }

  // ---- Armed exactly when there is something to wait for ----

  /** In every reachable state an expiry is due exactly when a task is queued, its time is a
      queued deadline, and none of the queued deadlines lies further before it than its slack. */
  lemma {:induction false} ArmedIffQueued(es: seq<Event>)
    requires Legal(Enabled, Apply, INIT, es)
    ensures var s := Run(Apply, INIT, es);
            && (Due(s).Some? <==> |s.tasks| > 0)
            && (Due(s).Some? ==>
                  && Holds(s.tasks, Due(s).value)
                  && forall i :: 0 <= i < |s.tasks| ==>
                       Due(s).value - s.tasks[i].deadline <= Slack(s.tasks, Due(s).value, i))
  {
    Safe(es);
  }

  /** How late a task may be when expire drains it: the time since the expiry that brought
      expire, plus 29 ms for each queued deadline from its own on that lay before that expiry. */
  lemma {:induction false} Lateness(es: seq<Event>, k: nat, readings: seq<int>, i: nat)
    requires Legal(Enabled, Apply, INIT, es)
    requires Enabled(Run(Apply, INIT, es), Drain(k, readings)) && i < k
    ensures var s := Run(Apply, INIT, es);
            var a := s.loop.at;
            readings[i] - s.tasks[i].deadline
            <= (readings[i] - a) + Slack(s.tasks, a, i)
  {
    Safe(es);
  }

  /** Every fire makes progress: expire takes at least all tasks due by 29 ms after the armed
      time, which are one or more, and re-arms for the earliest of the others. */
  lemma {:induction false} DrainTakesDue(es: seq<Event>, k: nat, readings: seq<int>)
    requires Legal(Enabled, Apply, INIT, es)
    requires Enabled(Run(Apply, INIT, es), Drain(k, readings))
    ensures var s := Run(Apply, INIT, es);
            var s' := Apply(s, Drain(k, readings));
            && k > 0
            && (forall i :: k <= i < |s.tasks| ==> s.tasks[i].deadline >= s.loop.at + ACCURACY)
            && s'.timer == (if k < |s.tasks| then Armed(s.tasks[k].deadline) else Disarmed)
  {
    hide Legal, Run, Inv;
    Safe(es);
    DrainTakes(Run(Apply, INIT, es), k, readings);
  }

  lemma DrainTakes(s: State, k: nat, readings: seq<int>)
    requires Inv(s) && Enabled(s, Drain(k, readings))
    ensures k > 0
    ensures forall i :: k <= i < |s.tasks| ==> s.tasks[i].deadline >= s.loop.at + ACCURACY
    ensures Apply(s, Drain(k, readings)).timer
         == if k < |s.tasks| then Armed(s.tasks[k].deadline) else Disarmed
  {
    hide Conserved, NotEarly;
    DrainKeepsCoupled(s, k, readings);
    if k < |s.tasks| {
      ExpireAtArms(s.timer, s.tasks[k].deadline);
      assert forall i :: k <= i < |s.tasks| ==> s.tasks[k].deadline <= s.tasks[i].deadline;
    }
  }

  /** Re-arming never throws away an expiry that has fired. */
  lemma {:induction false} NoExpiryLost(es: seq<Event>, deadline: int, pos: nat)
    requires Legal(Enabled, Apply, INIT, es)
    requires Enabled(Run(Apply, INIT, es), Add(deadline, pos))
    ensures var s := Run(Apply, INIT, es);
            var s' := Apply(s, Add(deadline, pos));
            (s.timer.Fired? ==> s'.timer == s.timer) && (s.loop.Delivered? ==> s'.timer == s.timer)
  {
    Safe(es);
    var s := Run(Apply, INIT, es);
    if Decide(s, deadline) == Arm {
      ArmIsEarliest(s, deadline, pos);
    }
  }

  // ---- The 29 ms per queued task can add up ----

  /** Arm far ahead, then join n tasks, each 29 ms before the earliest so far. */
  function Descending(n: nat, top: int): seq<Event> {
    if n == 0 then [Add(top, 0)] else Descending(n - 1, top) + [Add(top - 29 * n, 0)]
  }

  ghost predicate Descended(s: State, n: nat, top: int) {
    && s.now == 0 && s.loop == Polling && s.timer == Armed(top) && CountBelow(s.tasks, top) == n
    && |s.tasks| == n + 1 && forall i :: 0 <= i <= n ==> s.tasks[i].deadline == top - 29 * (n - i)
  }

  lemma DescendOnce(s: State, n: nat, top: int)
    requires Descended(s, n, top)
    ensures Enabled(s, Add(top - 29 * (n + 1), 0))
    ensures Descended(Apply(s, Add(top - 29 * (n + 1), 0)), n + 1, top)
  {
    var deadline := top - 29 * (n + 1);
    CountInsert(s.tasks, 0, Task(deadline, |s.added|), top);
    hide CountBelow;
    assert s.tasks[0].deadline == top - 29 * n;
    assert SlotFor(s.tasks, deadline, 0);
  }

  lemma {:induction false} DescendingRuns(n: nat, top: int)
    requires top >= ACCURACY
    ensures Legal(Enabled, Apply, INIT, Descending(n, top))
    ensures Descended(Run(Apply, INIT, Descending(n, top)), n, top)
  {
    hide Descended, Enabled, Apply, Run, Legal;
    if n == 0 {
      DescendFirst(top);
    } else {
      DescendingRuns(n - 1, top);
      DescendOnce(Run(Apply, INIT, Descending(n - 1, top)), n - 1, top);
      Extend(Enabled, Apply, INIT, Descending(n - 1, top), Add(top - 29 * n, 0));
    }
  }

  /** One task queued on an idle queue, and the timer armed for it. */
  function First(top: int): State {
    State(0, [Task(top, 0)], Armed(top), Polling, [Task(top, 0)], [], [])
  }

  lemma ReachesFirst(top: int)
    requires top >= ACCURACY
    ensures Decide(INIT, top) == Arm && Reachable(First(top), [Add(top, 0)])
  {
    hide Reachable;
    ExpireAtArms(Disarmed, top);
    assert Apply(INIT, Add(top, 0)) == First(top);
    Start();
    assert [] + [Add(top, 0)] == [Add(top, 0)];
    Step([], INIT, Add(top, 0), First(top));
  }

  lemma DescendFirst(top: int)
    requires top >= ACCURACY
    ensures Legal(Enabled, Apply, INIT, [Add(top, 0)])
    ensures Descended(Run(Apply, INIT, [Add(top, 0)]), 0, top)
  {
    hide Legal, Run, Enabled, Apply;
    ReachesFirst(top);
    assert First(top).tasks[1..] == [];
    assert CountBelow(First(top).tasks, top) == 0;
  }

  lemma Start()
    ensures Reachable(INIT, [])
  {
  }

  lemma {:induction false} Step(es: seq<Event>, s: State, e: Event, s': State)
    requires Reachable(s, es) && Enabled(s, e) && Apply(s, e) == s'
    ensures Reachable(s', es + [e])
  {
    Extend(Enabled, Apply, INIT, es, e);
  }

  lemma {:induction false} DescendingLength(n: nat, top: int)
    ensures |Descending(n, top)| == n + 1
  {
    if n > 0 {
      DescendingLength(n - 1, top);
    }
  }

  /** The bound is reached by every task at once, for every number of tasks: each of n + 1 is added
      30 ms or more before it is due, joining the armed time or one before it, and when that time
      comes and expire reads the clock without delay, each is late by its whole slack, the first by
      29 n ms.  So no fixed bound such as 30 ms holds. */
  lemma LatenessIsTight(n: nat) returns (es: seq<Event>, readings: seq<int>)
    ensures |es| > n && Legal(Enabled, Apply, INIT, es) && Legal(Enabled, Apply, INIT, es[..n + 1])
    ensures var added := Run(Apply, INIT, es[..n + 1]);
            var s := Run(Apply, INIT, es);
            && added.tasks == s.tasks && |s.tasks| == n + 1 && added.now == 0
            && (forall i :: 0 <= i <= n ==> s.tasks[i].deadline >= ACCURACY)
            && Enabled(s, Drain(n + 1, readings))
            && forall i :: 0 <= i <= n ==>
                 && readings[i] == s.loop.at
                 && readings[i] - s.tasks[i].deadline == Slack(s.tasks, s.loop.at, i) == 29 * (n - i)
  {
    var top := 29 * n + ACCURACY;
    var adds := Descending(n, top);
    DescendingRuns(n, top);
    DescendingLength(n, top);
    var s := Run(Apply, INIT, adds);
    var s' := s.(now := top, timer := Disarmed, loop := Delivered(top));
    es := adds + [Tick(top)] + [Fire] + [Deliver];
    assert es[..n + 1] == adds;
    readings := seq(n + 1, i => top);
    DrainsTight(s', n, readings);
    hide Legal, Run, CountBelow;
    assert Reachable(s', es) by {
      Step(adds, s, Tick(top), s.(now := top));
      Step(adds + [Tick(top)], s.(now := top), Fire, s.(now := top, timer := Fired(top)));
      Step(adds + [Tick(top)] + [Fire], s.(now := top, timer := Fired(top)), Deliver, s');
    }
  }

  lemma DrainsTight(s: State, n: nat, readings: seq<int>)
    requires s.loop.Delivered? && s.now == s.loop.at && CountBelow(s.tasks, s.loop.at) == n
    requires |s.tasks| == n + 1 == |readings|
    requires forall i :: 0 <= i <= n ==> s.tasks[i].deadline == s.loop.at - 29 * (n - i) && readings[i] == s.loop.at
    ensures Enabled(s, Drain(n + 1, readings))
    ensures forall i :: 0 <= i <= n ==> Slack(s.tasks, s.loop.at, i) == 29 * (n - i)
  {
    hide CountBelow;
  }

  // ---- Conservation, order, earliness ----

  lemma NthOnce(ts: seq<Task>, added: seq<Task>, i: nat)
    requires multiset(ts) == multiset(added)
    requires forall j :: 0 <= j < |added| ==> added[j].serial == j
    requires i < |added|
    ensures multiset(ts)[added[i]] == 1
  {
    assert added == added[..i] + [added[i]] + added[i + 1..];
    assert added[i] !in added[..i] && added[i] !in added[i + 1..];
  }

  /** Each task ever added is at exactly one place, once: already run, drained, or queued. */
  lemma {:induction false} EachTaskOnce(es: seq<Event>, i: nat)
    requires Legal(Enabled, Apply, INIT, es)
    requires i < |Run(Apply, INIT, es).added|
    ensures var s := Run(Apply, INIT, es);
            var t := s.added[i];
            multiset(s.ran)[t] + multiset(Batch(s))[t] + multiset(s.tasks)[t] == 1
  {
    Safe(es);
    var s := Run(Apply, INIT, es);
    NthOnce(Schedule(s), s.added, i);
  }

  /** No callback runs 30 ms or more before its deadline. */
  lemma {:induction false} NeverEarly(es: seq<Event>, i: nat)
    requires Legal(Enabled, Apply, INIT, es)
    requires i < |Run(Apply, INIT, es).ran|
    ensures var s := Run(Apply, INIT, es);
            |s.ranAt| == |s.ran| && s.ranAt[i] >= s.ran[i].deadline - (ACCURACY - 1)
  {
    Safe(es);
  }

  ghost predicate Before<T>(ts: seq<T>, x: T, y: T) {
    exists i, j :: 0 <= i < j < |ts| && ts[i] == x && ts[j] == y
  }

  lemma BeforeInsert<T>(ts: seq<T>, pos: nat, t: T, x: T, y: T)
    requires pos <= |ts| && Before(ts, x, y)
    ensures Before(Insert(ts, pos, t), x, y)
  {
    var i, j :| 0 <= i < j < |ts| && ts[i] == x && ts[j] == y;
    var ts' := Insert(ts, pos, t);
    var i', j' := if i < pos then i else i + 1, if j < pos then j else j + 1;
    assert ts'[i'] == x && ts'[j'] == y;
  }

  /** The relative order of two tasks in the schedule never changes. */
  lemma KeepsOrder(s: State, e: Event, x: Task, y: Task)
    requires Enabled(s, e) && Before(Schedule(s), x, y)
    ensures Before(Schedule(Apply(s, e)), x, y)
  {
    hide Enabled, Apply, Schedule;
    var at := ScheduleStep(s, e);
    if e.Add? {
      BeforeInsert(Schedule(s), at, Task(e.deadline, |s.added|), x, y);
    }
  }

  lemma {:induction false} KeepsOrderThroughout(s: State, es: seq<Event>, x: Task, y: Task)
    requires Legal(Enabled, Apply, s, es) && Before(Schedule(s), x, y)
    ensures Before(Schedule(Run(Apply, s, es)), x, y)
  {
    hide Enabled, Apply, Schedule;
    if |es| > 0 {
      var n := |es| - 1;
      KeepsOrderThroughout(s, es[..n], x, y);
      KeepsOrder(Run(Apply, s, es[..n]), es[n], x, y);
    }
  }

  /** The schedule holds no task twice. */
  ghost predicate Distinct<T>(ts: seq<T>) {
    forall i, j :: 0 <= i < j < |ts| ==> ts[i] != ts[j]
  }

  lemma TwiceCounts<T>(ts: seq<T>, i: nat, j: nat)
    requires i < j < |ts| && ts[i] == ts[j]
    ensures multiset(ts)[ts[i]] >= 2
  {
    assert ts == ts[..j] + ts[j..];
    assert ts[..j][i] == ts[i] && ts[j..][0] == ts[i];
  }

  lemma OnceIsDistinct(ts: seq<Task>, added: seq<Task>)
    requires multiset(ts) == multiset(added)
    requires forall j :: 0 <= j < |added| ==> added[j].serial == j
    ensures Distinct(ts)
  {
    forall i, j | 0 <= i < j < |ts| ensures ts[i] != ts[j] {
      if ts[i] == ts[j] {
        assert ts[i] in multiset(added);
        var k :| 0 <= k < |added| && added[k] == ts[i];
        TwiceCounts(ts, i, j);
        NthOnce(ts, added, k);
      }
    }
  }

  lemma QueuedBefore(s: State, p: nat, q: nat)
    requires Sorted(s.tasks) && p < |s.tasks| && q < |s.tasks|
    requires s.tasks[p].deadline < s.tasks[q].deadline
    ensures Before(Schedule(s), s.tasks[p], s.tasks[q])
  {
    var base := |s.ran| + |Batch(s)|;
    assert p < q;
    assert Schedule(s)[base + p] == s.tasks[p] && Schedule(s)[base + q] == s.tasks[q];
  }

  lemma RanBefore<T>(ran: seq<T>, rest: seq<T>, x: T, y: T)
    requires Distinct(ran + rest) && Before(ran + rest, x, y) && y in ran
    ensures Before(ran, x, y)
  {
    var all := ran + rest;
    var i, j :| 0 <= i < j < |all| && all[i] == x && all[j] == y;
    var j' :| 0 <= j' < |ran| && ran[j'] == y;
    assert all[j'] == y;
    assert j == j' && ran[i] == x;
  }

  /** Two tasks queued together run in deadline order: whatever happens afterwards, when the
      later one has run, the earlier one ran before it. */
  lemma {:induction false} DeadlineOrder(es: seq<Event>, more: seq<Event>, p: nat, q: nat)
    requires Legal(Enabled, Apply, INIT, es)
    requires Legal(Enabled, Apply, Run(Apply, INIT, es), more)
    requires p < |Run(Apply, INIT, es).tasks| && q < |Run(Apply, INIT, es).tasks|
    requires Run(Apply, INIT, es).tasks[p].deadline < Run(Apply, INIT, es).tasks[q].deadline
    ensures var s := Run(Apply, INIT, es);
            var t := Run(Apply, s, more);
            s.tasks[q] in t.ran ==> Before(t.ran, s.tasks[p], s.tasks[q])
  {
    hide Before, Distinct, Enabled, Apply, Run, Legal, Coupled, NotEarly;
    var s := Run(Apply, INIT, es);
    var t := Run(Apply, s, more);
    var x, y := s.tasks[p], s.tasks[q];
    Safe(es);
    QueuedBefore(s, p, q);
    KeepsOrderThroughout(s, more, x, y);
    SafeFrom(s, more);
    OnceIsDistinct(Schedule(t), t.added);
    if y in t.ran {
      assert Schedule(t) == t.ran + (Batch(t) + t.tasks);
      RanBefore(t.ran, Batch(t) + t.tasks, x, y);
    }
  }

  lemma {:induction false} SafeFrom(s: State, es: seq<Event>)
    requires Inv(s) && Legal(Enabled, Apply, s, es)
    ensures Inv(Run(Apply, s, es))
  {
    hide Inv, Enabled, Apply;
    forall t, e | Inv(t) && Enabled(t, e) ensures Inv(Apply(t, e)) {
      KeepsInv(t, e);
    }
    Invariant(Enabled, Apply, Inv, s, es);
  }

  // ---- Progress without further adds ----

  /** Fire, Deliver, Drain and RunNext steps still to come if nothing is added. */
  function ToDo(s: State): nat {
    4 * |s.tasks| + |Batch(s)|
    + (match s.timer case Armed(_) => 2 case Fired(_) => 1 case Disarmed => 0)
  }

  /** Once nothing is added and the clock only ticks on, every other step brings the queue
      closer to empty, and as long as a task waits, one of them can happen. */
  lemma QuietProgress(s: State, e: Event)
    requires Inv(s) && Enabled(s, e)
    ensures e.Tick? ==> ToDo(Apply(s, e)) == ToDo(s)
    ensures !e.Tick? && !e.Add? ==> ToDo(Apply(s, e)) < ToDo(s)
  {
    if e.Drain? {
      DrainKeepsCoupled(s, e.k, e.readings);
    }
  }

  lemma DrainExists(s: State) returns (k: nat, readings: seq<int>)
    ensures DrainsAs(s, k, readings)
  {
    k, readings := 0, [];
    while k < |s.tasks| && s.tasks[k].deadline - s.now < ACCURACY
      invariant k <= |s.tasks| && |readings| == k
      invariant forall i :: 0 <= i < k ==> readings[i] == s.now && s.tasks[i].deadline - s.now < ACCURACY
    {
      k, readings := k + 1, readings + [s.now];
    }
    if k < |s.tasks| {
      readings := readings + [s.now];
    }
  }

  /** No queued or drained task is stranded: some step other than Add can happen,
      at the latest when the clock has reached the due time. */
  lemma NeverStuck(s: State)
    requires Inv(s) && (|s.tasks| > 0 || s.loop.Running?)
    requires Due(s).Some? ==> Due(s).value <= s.now
    ensures exists e: Event :: !e.Add? && !e.Tick? && Enabled(s, e)
  {
    if s.loop.Running? {
      assert Enabled(s, RunNext);
    } else if s.loop.Delivered? {
      var k, readings := DrainExists(s);
      assert Enabled(s, Drain(k, readings));
    } else if s.timer.Fired? {
      assert Enabled(s, Deliver);
    } else {
      assert Enabled(s, Fire);
    }
  }

  // ---- Why the check and the insertion of addTask must be one step ----

  /** The task is inserted, whatever was decided, and the timer set as given. */
  function Queued(s: State, deadline: int, pos: nat, timer: Timer): State
    requires pos <= |s.tasks|
  {
    var task := Task(deadline, |s.added|);
    s.(added := s.added + [task], tasks := Insert(s.tasks, pos, task), timer := timer)
  }

  /** addTask inserting on a decision to join that it took from an earlier state. */
  function StaleJoin(s: State, deadline: int, pos: nat): State
    requires pos <= |s.tasks|
  {
    Queued(s, deadline, pos, s.timer)
  }

  lemma QueuedSchedule(s: State, deadline: int, pos: nat, timer: Timer) returns (at: nat)
    requires pos <= |s.tasks|
    ensures at <= |Schedule(s)|
    ensures Schedule(Queued(s, deadline, pos, timer)) == Insert(Schedule(s), at, Task(deadline, |s.added|))
  {
    at := |s.ran + Batch(s)| + pos;
    InsertLater(s.ran + Batch(s), s.tasks, pos, Task(deadline, |s.added|));
  }

  lemma QueuedConserves(s: State, deadline: int, pos: nat, timer: Timer)
    requires Conserved(s) && pos <= |s.tasks|
    ensures Conserved(Queued(s, deadline, pos, timer))
  {
    hide Schedule, Insert;
    var at := QueuedSchedule(s, deadline, pos, timer);
    OneMore(Schedule(s), at, s.added, Task(deadline, |s.added|));
  }

  lemma OneMore(ts: seq<Task>, pos: nat, added: seq<Task>, t: Task)
    requires pos <= |ts| && multiset(ts) == multiset(added)
    ensures multiset(Insert(ts, pos, t)) == multiset(added + [t])
  {
    InsertMultiset(ts, pos, t);
  }

  /** Only the coupling of timer and queue is at stake. */
  lemma QueuedKeepsRest(s: State, deadline: int, pos: nat, timer: Timer)
    requires Inv(s) && SlotFor(s.tasks, deadline, pos)
    ensures Inv(Queued(s, deadline, pos, timer)) <==> Coupled(Queued(s, deadline, pos, timer))
  {
    QueuedConserves(s, deadline, pos, timer);
    InsertSorted(s.tasks, pos, Task(deadline, |s.added|));
    hide Coupled, Conserved, Sorted, Insert;
  }

  /** Exactly when inserting on a join decided earlier does no harm: the queue must not be empty
      and the new task must be due no more than 29 ms per queued deadline below the armed time, its
      own included, before that time.  Deciding again at the insertion makes sure of it. */
  lemma StaleJoinIff(s: State, deadline: int, pos: nat)
    requires Inv(s) && SlotFor(s.tasks, deadline, pos)
    ensures Inv(StaleJoin(s, deadline, pos)) <==>
              && |s.tasks| > 0
              && Due(s).value - deadline <= 29 * (CountBelow(s.tasks, Due(s).value) + 1)
    ensures Decide(s, deadline) == Join ==> Inv(StaleJoin(s, deadline, pos))
  {
    QueuedKeepsRest(s, deadline, pos, s.timer);
    hide Staggered, Conserved, NotEarly, CountBelow;
    if |s.tasks| > 0 {
      var t := Task(deadline, |s.added|);
      StaggerInsertIff(s.tasks, pos, t, Due(s).value);
      HoldsInsert(s.tasks, pos, t, Due(s).value);
      if Decide(s, deadline) == Join {
        JoinStaggers(s, deadline);
      }
      hide Sorted, Holds, SlotFor;
    }
  }

  /** A run in which addTask decides to join, expire empties the queue, and the insertion
      follows: after the first three steps the decision is to join, after the last two it strands. */
  lemma StaleJoinWitness()
    ensures var es := [Add(100, 0), Tick(100), Fire];
            exists s, t ::
              && Reachable(s, es) && Decide(s, 100) == Join
              && Reachable(t, es + [Deliver] + [Drain(1, [100])])
              && |StaleJoin(t, 100, 0).tasks| == 1 && Due(StaleJoin(t, 100, 0)) == None
  {
    hide Reachable;
    var ts := [Task(100, 0)];
    var fired := State(100, ts, Fired(100), Polling, ts, [], []);
    var es := [Add(100, 0), Tick(100), Fire];
    FiredAt100(ts, fired);
    var t1 := fired.(timer := Disarmed, loop := Delivered(100));
    var t2 := t1.(tasks := [], loop := Running(ts));
    Step(es, fired, Deliver, t1);
    Drained(t1, t2);
    Step(es + [Deliver], t1, Drain(1, [100]), t2);
  }

  lemma FiredAt100(ts: seq<Task>, fired: State)
    requires ts == [Task(100, 0)] && fired == State(100, ts, Fired(100), Polling, ts, [], [])
    ensures Reachable(fired, [Add(100, 0), Tick(100), Fire])
  {
    hide Reachable, Decide, ExpireAt;
    var s2 := First(100).(now := 100);
    ReachesFirst(100);
    assert [Add(100, 0)] + [Tick(100)] == [Add(100, 0), Tick(100)];
    assert [Add(100, 0), Tick(100)] + [Fire] == [Add(100, 0), Tick(100), Fire];
    Step([Add(100, 0)], First(100), Tick(100), s2);
    Step([Add(100, 0), Tick(100)], s2, Fire, fired);
  }

  lemma Drained(t1: State, t2: State)
    requires |t1.tasks| == 1 && t1.tasks[0].deadline == 100 && t1.now == 100 && t1.loop.Delivered?
    requires t2 == t1.(tasks := [], loop := Running(t1.tasks))
    ensures Enabled(t1, Drain(1, [100])) && Apply(t1, Drain(1, [100])) == t2
  {
    assert t1.tasks[1..] == [] && t1.tasks[..1] == t1.tasks;
  }

  /** A queue that is never emptied is not enough: a second task at any time far ahead keeps it
      filled, and a task for 90 whose join was decided before the drain waits until then. */
  lemma StaleJoinLate(far: int) returns (s: State, t: State)
    requires far >= 130
    ensures var es := [Add(100, 0), Add(far, 1), Tick(100), Fire];
            && Reachable(s, es) && Decide(s, 90) == Join
            && Reachable(t, es + [Deliver] + [Drain(1, [100, 100])]) && |t.tasks| == 1
    ensures var s' := StaleJoin(t, 90, 0);
            Due(s') == Some(far) && s'.tasks[0].deadline == 90 && !Inv(s')
  {
    hide Reachable;
    var es := [Add(100, 0), Add(far, 1), Tick(100), Fire];
    var t0, t1 := Task(100, 0), Task(far, 1);
    s := State(100, [t0, t1], Fired(100), Polling, [t0, t1], [], []);
    var u := s.(timer := Disarmed, loop := Delivered(100));
    t := s.(tasks := [t1], timer := Armed(far), loop := Running([t0]));
    FiredWithTwo(far, s);
    Step(es, s, Deliver, u);
    DrainedOne(far, u, t);
    Step(es + [Deliver], u, Drain(1, [100, 100]), t);
    var ts := StaleJoin(t, 90, 0).tasks;
    assert ts == [Task(90, 2), t1];
    CountTwo(ts, far);
    assert far - 90 > Slack(ts, far, 0);
  }

  lemma FiredWithTwo(far: int, s: State)
    requires far >= 130
    requires s == State(100, [Task(100, 0), Task(far, 1)], Fired(100), Polling, [Task(100, 0), Task(far, 1)], [], [])
    ensures Reachable(s, [Add(100, 0), Add(far, 1), Tick(100), Fire])
  {
    hide Reachable, ExpireAt;
    var s2 := s.(now := 0, timer := Armed(100));
    var s3 := s.(timer := Armed(100));
    ReachesFirst(100);
    assert Insert(First(100).tasks, 1, Task(far, 1)) == s.tasks;
    Step([Add(100, 0)], First(100), Add(far, 1), s2);
    assert [Add(100, 0)] + [Add(far, 1)] == [Add(100, 0), Add(far, 1)];
    Step([Add(100, 0), Add(far, 1)], s2, Tick(100), s3);
    assert [Add(100, 0), Add(far, 1)] + [Tick(100)] == [Add(100, 0), Add(far, 1), Tick(100)];
    Step([Add(100, 0), Add(far, 1), Tick(100)], s3, Fire, s);
    assert [Add(100, 0), Add(far, 1), Tick(100)] + [Fire] == [Add(100, 0), Add(far, 1), Tick(100), Fire];
  }

  lemma DrainedOne(far: int, u: State, t: State)
    requires far >= 130 && u.tasks == [Task(100, 0), Task(far, 1)] && u.now == 100 && u.loop.Delivered?
    requires t == u.(tasks := [Task(far, 1)], timer := Armed(far), loop := Running([Task(100, 0)]))
    ensures Enabled(u, Drain(1, [100, 100])) && Apply(u, Drain(1, [100, 100])) == t
  {
    ExpireAtArms(u.timer, far);
    hide ExpireAt;
    assert u.tasks[1..] == [Task(far, 1)] && u.tasks[..1] == [Task(100, 0)];
  }

  /** addTask inserting and arming on a decision to arm that it took from an earlier state. */
  function StaleArm(s: State, deadline: int, pos: nat): State
    requires pos <= |s.tasks|
  {
    Queued(s, deadline, pos, ExpireAt(s.timer, deadline))
  }

  /** Exactly when inserting and arming on a decision taken earlier does no harm: expire must not
      be about to drain, and every queued task must be within its slack of the new deadline.
      Deciding again at the insertion makes sure of it.  An expiry that has fired is discarded
      either way. */
  lemma StaleArmIff(s: State, deadline: int, pos: nat)
    requires Inv(s) && SlotFor(s.tasks, deadline, pos) && deadline > 0
    ensures Inv(StaleArm(s, deadline, pos)) <==> !s.loop.Delivered? && Staggered(s.tasks, deadline)
    ensures Decide(s, deadline) == Arm ==> Inv(StaleArm(s, deadline, pos))
    ensures s.timer.Fired? ==> StaleArm(s, deadline, pos).timer == Armed(deadline)
  {
    var t := Task(deadline, |s.added|);
    ExpireAtArms(s.timer, deadline);
    QueuedKeepsRest(s, deadline, pos, Armed(deadline));
    if Decide(s, deadline) == Arm {
      ArmIsEarliest(s, deadline, pos);
      EarliestStaggers(s.tasks, deadline);
    }
    hide Staggered, Conserved, NotEarly, ExpireAt;
    HoldsInsert(s.tasks, pos, t, deadline);
    OwnStaggerIff(s.tasks, pos, t);
    hide Sorted, Holds, SlotFor;
  }

  /** A task does not change which others are within their slack of its own deadline. */
  lemma OwnStaggerIff(ts: seq<Task>, pos: nat, t: Task)
    requires Sorted(ts) && SlotFor(ts, t.deadline, pos)
    ensures Staggered(Insert(ts, pos, t), t.deadline) <==> Staggered(ts, t.deadline)
  {
    var ts' := Insert(ts, pos, t);
    CountInsert(ts, pos, t, t.deadline);
    if Staggered(ts, t.deadline) {
      StaggerInsertIff(ts, pos, t, t.deadline);
    } else {
      hide CountBelow;
      var i :| 0 <= i < |ts| && t.deadline - ts[i].deadline > Slack(ts, t.deadline, i);
      assert ts'[i] == ts[i];
    }
  }

  /** Two callers that both find the queue empty: the second one's arming does no harm exactly when
      its deadline is at most 29 ms after the first one's.  Otherwise the first task waits for it. */
  lemma TwoArmsIff(first: int, second: int) returns (pos: nat)
    requires first >= ACCURACY && second >= ACCURACY
    ensures Decide(INIT, second) == Arm && Reachable(First(first), [Add(first, 0)])
    ensures SlotFor(First(first).tasks, second, pos)
    ensures var s := StaleArm(First(first), second, pos);
            s.timer == Armed(second) && (Inv(s) <==> second - first <= ACCURACY - 1)
  {
    hide Inv, ExpireAt, Reachable, Decide, Staggered;
    pos := if first <= second then 1 else 0;
    ReachesFirst(first);
    ReachesFirst(second);
    ExpireAtArms(Armed(first), second);
    FirstInv(first);
    StaleArmIff(First(first), second, pos);
    CountOne(First(first).tasks, second);
  }

  lemma FirstInv(top: int)
    requires top >= ACCURACY
    ensures Inv(First(top))
  {
    hide Inv, Enabled, Apply, First;
    ReachesFirst(top);
    Safe([Add(top, 0)]);
  }

  lemma CountOne(ts: seq<Task>, a: int)
    requires |ts| == 1
    ensures Staggered(ts, a) <==> a - ts[0].deadline <= ACCURACY - 1
  {
    assert CountBelow(ts, a) == if ts[0].deadline < a then 1 else 0;
    assert Staggered(ts, a) ==> a - ts[0].deadline <= Slack(ts, a, 0);
  }

  /** An arming that overtakes expire between its call and its drain can outlive the whole queue:
      when all of it has come due, the timer stays armed with nothing to wait for. */
  lemma StaleArmOutlives(s: State, deadline: int, pos: nat) returns (readings: seq<int>)
    requires Inv(s) && SlotFor(s.tasks, deadline, pos) && deadline > 0 && s.loop.Delivered?
    ensures var s' := StaleArm(s, deadline, pos);
            var drain := Drain(|s'.tasks|, readings);
            && Enabled(s', drain)
            && Apply(s', drain).tasks == [] && Apply(s', drain).timer == Armed(deadline)
  {
    var s' := StaleArm(s, deadline, pos);
    InsertSorted(s.tasks, pos, Task(deadline, |s.added|));
    ExpireAtArms(s.timer, deadline);
    hide Inv, ExpireAt, Insert, SlotFor;
    readings := AllDue(s');
    assert s'.tasks[|s'.tasks|..] == [];
  }

  /** When the clock has passed the last deadline, the whole queue drains. */
  lemma AllDue(s: State) returns (readings: seq<int>)
    requires Sorted(s.tasks) && |s.tasks| > 0 && s.loop.Delivered?
    ensures Enabled(s, Drain(|s.tasks|, readings))
  {
    var last := s.tasks[|s.tasks| - 1].deadline;
    var t := if last > s.now then last else s.now;
    readings := seq(|s.tasks|, i => t);
    assert forall i :: 0 <= i < |s.tasks| ==> s.tasks[i].deadline <= last;
    hide Sorted;
  }

  lemma CountTwo(ts: seq<Task>, a: int)
    requires |ts| == 2 && ts[1].deadline >= a
    ensures CountBelow(ts, a) <= 1
  {
    assert ts[1..][0] == ts[1] && CountBelow(ts[1..][1..], a) == 0;
  }
}
