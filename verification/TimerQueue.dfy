/** The deadline queue over a single one-shot timer (codechiev/net/Timer.cpp). */
module TimerQueues {
  import opened Runs

  /** TIMER_ACCURACY: a task is due once its deadline is less than this many milliseconds away. */
  const ACCURACY := 30

  /** The callback is represented by the serial number of the addTask call that brought it. */
  datatype Task = Task(deadline: int, serial: nat)

  /** The timerfd: Fired means expired and not read yet. */
  datatype Timer = Disarmed | Armed(at: int) | Fired(at: int)

  /** The scheduler thread: in epoll, between read and expire, or running the drained callbacks. */
  datatype Loop = Polling | Delivered(at: int) | Running(batch: seq<Task>)

  datatype State = State(now: int, tasks: seq<Task>, timer: Timer, loop: Loop,
                         added: seq<Task>, ran: seq<Task>, ranAt: seq<int>)

  datatype Event =
    | Tick(to: int)
    | Add(deadline: int, pos: nat)              // pos: where the multimap puts it
    | Fire
    | Deliver
    | Drain(k: nat, readings: seq<int>)         // the guarded block of expire and its clock readings
    | RunNext

  datatype Branch = Join | RunNow | Arm

  const INIT := State(0, [], Disarmed, Polling, [], [], [])

  // ---- timerfd_settime with an absolute time, as expireAt calls it ----

  /** C++ integer division and remainder, which truncate toward zero. */
  function TruncDiv(a: int, b: int): int
    requires b > 0
  {
    if a >= 0 then a / b else -(-a / b)
  }

  function TruncMod(a: int, b: int): int
    requires b > 0
  {
    a - TruncDiv(a, b) * b
  }

  /** A zero value disarms, an ill-formed one is rejected, any other arms and clears an unread expiry. */
  function SetTime(timer: Timer, sec: int, nsec: int): Timer {
    if sec < 0 || nsec < 0 || nsec >= 1_000_000_000 then timer
    else if sec == 0 && nsec == 0 then Disarmed
    else Armed(sec * 1000 + nsec / 1_000_000)
  }

  function ExpireAt(timer: Timer, millis: int): Timer {
    SetTime(timer, TruncDiv(millis, 1000), TruncMod(millis, 1000) * 1_000_000)
  }

  /** The split into seconds and nanoseconds loses nothing; only a positive time arms. */
  lemma ExpireAtArms(timer: Timer, millis: int)
    ensures millis > 0 ==> ExpireAt(timer, millis) == Armed(millis)
    ensures millis == 0 ==> ExpireAt(timer, millis) == Disarmed
    ensures millis < 0 ==> ExpireAt(timer, millis) == timer
  {
    if millis >= 0 {
      var q, r := millis / 1000, millis % 1000;
      assert millis == q * 1000 + r;
      assert TruncMod(millis, 1000) == r;
    } else {
      var q, r := -millis / 1000, -millis % 1000;
      assert TruncDiv(millis, 1000) == -q && TruncMod(millis, 1000) == -r;
    }
  }

  // ---- One step ----

  function Decide(s: State, deadline: int): Branch {
    if |s.tasks| > 0 && s.tasks[0].deadline - deadline < ACCURACY then Join
    else if deadline - s.now < ACCURACY then RunNow
    else Arm
  }

  predicate Sorted(ts: seq<Task>) {
    forall i, j :: 0 <= i < j < |ts| ==> ts[i].deadline <= ts[j].deadline
  }

  /** A multimap keeps its order; where an equal deadline goes is left open. */
  predicate SlotFor(ts: seq<Task>, deadline: int, pos: nat) {
    && pos <= |ts|
    && (forall i :: 0 <= i < pos ==> ts[i].deadline <= deadline)
    && (forall i :: pos <= i < |ts| ==> deadline <= ts[i].deadline)
  }

  function Insert<T>(ts: seq<T>, pos: nat, t: T): seq<T>
    requires pos <= |ts|
  {
    ts[..pos] + [t] + ts[pos..]
  }

  /** The k first tasks were due at their clock readings; the next one, if any, was not at its own. */
  predicate DrainsAs(s: State, k: nat, readings: seq<int>) {
    && DrainsPrefix(s, k, readings)
    && |readings| == (if k < |s.tasks| then k + 1 else k)
    && (k < |s.tasks| ==> s.tasks[k].deadline - readings[k] >= ACCURACY)
  }

  predicate DrainsPrefix(s: State, k: nat, readings: seq<int>) {
    && k <= |s.tasks| && k <= |readings|
    && (forall i :: 0 <= i < |readings| ==> s.now <= readings[i])
    && (forall i, j :: 0 <= i < j < |readings| ==> readings[i] <= readings[j])
    && (forall i :: 0 <= i < k ==> s.tasks[i].deadline - readings[i] < ACCURACY)
  }

  predicate Enabled(s: State, e: Event) {
    match e
    case Tick(to) => s.now <= to
    case Add(deadline, pos) => Decide(s, deadline) == RunNow || SlotFor(s.tasks, deadline, pos)
    case Fire => s.timer.Armed? && s.timer.at <= s.now
    case Deliver => s.timer.Fired? && s.loop.Polling?
    case Drain(k, readings) => s.loop.Delivered? && DrainsAs(s, k, readings)
    case RunNext => s.loop.Running? && |s.loop.batch| > 0
  }

  function Dispatch(batch: seq<Task>): Loop {
    if |batch| == 0 then Polling else Running(batch)
  }

  function Apply(s: State, e: Event): State {
    if !Enabled(s, e) then s else
    match e
    case Tick(to) => s.(now := to)
    case Add(deadline, pos) =>
      var task := Task(deadline, |s.added|);
      var s' := s.(added := s.added + [task]);
      (match Decide(s, deadline)
       case Join => s'.(tasks := Insert(s.tasks, pos, task))
       case RunNow => s'.(ran := s.ran + [task], ranAt := s.ranAt + [s.now])
       case Arm => s'.(tasks := Insert(s.tasks, pos, task), timer := ExpireAt(s.timer, deadline)))
    case Fire => s.(timer := Fired(s.timer.at))
    case Deliver => s.(timer := Disarmed, loop := Delivered(s.timer.at))
    case Drain(k, readings) =>
      s.(now := if |readings| == 0 then s.now else readings[|readings| - 1],
         tasks := s.tasks[k..],
         timer := if k < |s.tasks| then ExpireAt(s.timer, s.tasks[k].deadline) else s.timer,
         loop := Dispatch(s.tasks[..k]))
    case RunNext =>
      s.(loop := Dispatch(s.loop.batch[1..]),
         ran := s.ran + [s.loop.batch[0]], ranAt := s.ranAt + [s.now])
  }

  ghost predicate Reachable(s: State, es: seq<Event>) {
    Legal(Enabled, Apply, INIT, es) && Run(Apply, INIT, es) == s
  }

  // ---- The invariant ----

  function CountBelow(ts: seq<Task>, a: int): nat {
    if |ts| == 0 then 0 else (if ts[0].deadline < a then 1 else 0) + CountBelow(ts[1..], a)
  }

  function Batch(s: State): seq<Task> {
    if s.loop.Running? then s.loop.batch else []
  }

  /** Every task ever added, in the order of running: what ran, what is drained, what is queued. */
  function Schedule(s: State): seq<Task> {
    s.ran + Batch(s) + s.tasks
  }

  /** The time of the expiry that is armed, fired or already handed to expire. */
  function Due(s: State): Option<int> {
    if !s.timer.Disarmed? then Some(s.timer.at)
    else if s.loop.Delivered? then Some(s.loop.at)
    else None
  }

  ghost predicate Holds(ts: seq<Task>, a: int) {
    exists i :: 0 <= i < |ts| && ts[i].deadline == a
  }

  /** How far before the time a the task at place i may be due: 29 ms, one less than the accuracy,
      for each queued deadline below a from its own on. */
  function Slack(ts: seq<Task>, a: int, i: nat): nat {
    if i < CountBelow(ts, a) then 29 * (CountBelow(ts, a) - i) else 0
  }

  ghost predicate Staggered(ts: seq<Task>, a: int) {
    forall i :: 0 <= i < |ts| ==> a - ts[i].deadline <= Slack(ts, a, i)
  }

  /** The queue is non-empty exactly when an expiry is due, its time is a queued deadline,
      and each queued deadline precedes it by at most its slack. */
  ghost predicate Coupled(s: State) {
    && (s.loop.Delivered? ==> s.timer.Disarmed? && s.loop.at <= s.now)
    && (s.timer.Fired? ==> s.timer.at <= s.now)
    && (Due(s).Some? <==> |s.tasks| > 0)
    && (Due(s).Some? ==>
          && Due(s).value > 0
          && Holds(s.tasks, Due(s).value)
          && Staggered(s.tasks, Due(s).value))
  }

  predicate DueBy(ts: seq<Task>, time: int) {
    forall i :: 0 <= i < |ts| ==> ts[i].deadline - time < ACCURACY
  }

  predicate RanDue(ran: seq<Task>, ranAt: seq<int>, now: int) {
    && |ran| == |ranAt|
    && (forall i :: 0 <= i < |ran| ==> ran[i].deadline - ranAt[i] < ACCURACY && ranAt[i] <= now)
  }

  /** Nothing runs, and nothing is drained, 30 ms or more before its deadline. */
  predicate NotEarly(s: State) {
    && RanDue(s.ran, s.ranAt, s.now)
    && (s.loop.Running? ==> |s.loop.batch| > 0 && DueBy(s.loop.batch, s.now))
  }

  /** addTask call number i brought task number i, and each is in the schedule exactly once. */
  predicate Conserved(s: State) {
    && (forall i :: 0 <= i < |s.added| ==> s.added[i].serial == i)
    && multiset(Schedule(s)) == multiset(s.added)
  }

  ghost predicate Inv(s: State) {
    s.now >= 0 && Sorted(s.tasks) && Coupled(s) && NotEarly(s) && Conserved(s)
  }

  lemma {:induction false} CountInsert(ts: seq<Task>, pos: nat, t: Task, a: int)
    requires pos <= |ts|
    ensures CountBelow(Insert(ts, pos, t), a) == CountBelow(ts, a) + (if t.deadline < a then 1 else 0)
  {
    if pos > 0 {
      assert Insert(ts, pos, t)[1..] == Insert(ts[1..], pos - 1, t);
      CountInsert(ts[1..], pos - 1, t, a);
    } else {
      assert Insert(ts, pos, t)[1..] == ts;
    }
  }

  lemma HoldsInsert(ts: seq<Task>, pos: nat, t: Task, a: int)
    requires pos <= |ts| && (Holds(ts, a) || t.deadline == a)
    ensures Holds(Insert(ts, pos, t), a)
  {
    var ts' := Insert(ts, pos, t);
    if t.deadline == a {
      assert ts'[pos].deadline == a;
    } else {
      var i :| 0 <= i < |ts| && ts[i].deadline == a;
      assert ts'[if i < pos then i else i + 1].deadline == a;
    }
  }

  lemma InsertSorted(ts: seq<Task>, pos: nat, t: Task)
    requires Sorted(ts) && SlotFor(ts, t.deadline, pos)
    ensures Sorted(Insert(ts, pos, t))
  {
  }

  /** Arming happens only when the new task becomes the earliest one, and never
      while an expiry is unread or being handled, so it cancels none. */
  lemma ArmIsEarliest(s: State, deadline: int, pos: nat)
    requires Inv(s) && SlotFor(s.tasks, deadline, pos) && Decide(s, deadline) == Arm
    ensures pos == 0 && deadline > 0
    ensures !s.timer.Fired? && !s.loop.Delivered?
    ensures forall i :: 0 <= i < |s.tasks| ==> deadline <= s.tasks[i].deadline - ACCURACY
  {
    if |s.tasks| > 0 {
      var a := Due(s).value;
      var i :| 0 <= i < |s.tasks| && s.tasks[i].deadline == a;
      assert s.tasks[0].deadline <= a;
    }
  }

  /** addTask by what a caller sees of it: a task due less than 30 ms before some queued one, or
      later, just joins; else one that is less than 30 ms away runs at once; any other becomes the
      earliest and the timer is set for it. */
  lemma AddOutcome(s: State, deadline: int, pos: nat)
    requires Inv(s) && Enabled(s, Add(deadline, pos))
    ensures var s' := Apply(s, Add(deadline, pos));
            var t := Task(deadline, |s.added|);
            if exists i :: 0 <= i < |s.tasks| && s.tasks[i].deadline < deadline + 30 then
              && multiset(s'.tasks) == multiset(s.tasks) + multiset{t}
              && s'.timer == s.timer && s'.ran == s.ran
            else if deadline < s.now + 30 then
              s'.ran == s.ran + [t] && s'.ranAt == s.ranAt + [s.now] && s'.tasks == s.tasks && s'.timer == s.timer
            else
              s'.tasks == [t] + s.tasks && s'.timer == Armed(deadline) && s'.ran == s.ran
  {
    hide Inv, ExpireAt;
    JoinIff(s, deadline);
    match Decide(s, deadline)
    case Join => InsertMultiset(s.tasks, pos, Task(deadline, |s.added|));
    case Arm =>
      ArmIsEarliest(s, deadline, pos);
      ExpireAtArms(s.timer, deadline);
    case RunNow =>
  }

  lemma JoinIff(s: State, deadline: int)
    requires Inv(s)
    ensures Decide(s, deadline) == Join <==> exists i :: 0 <= i < |s.tasks| && s.tasks[i].deadline < deadline + 30
  {
    hide Coupled, Conserved, NotEarly;
    if Decide(s, deadline) == Join {
      assert s.tasks[0].deadline < deadline + 30;
    }
  }

  /** A task put into its slot keeps the others within their slack, and is within its own exactly
      if it is due no more than 29 ms per queued deadline below a, its own included, before a. */
  lemma StaggerInsertIff(ts: seq<Task>, pos: nat, t: Task, a: int)
    requires Sorted(ts) && SlotFor(ts, t.deadline, pos) && Staggered(ts, a)
    ensures Staggered(Insert(ts, pos, t), a) <==> a - t.deadline <= 29 * (CountBelow(ts, a) + 1)
  {
    var ts' := Insert(ts, pos, t);
    CountInsert(ts, pos, t, a);
    OwnSlackIff(ts, pos, t, a);
    hide CountBelow, Sorted, SlotFor;
    assert ts'[pos] == t;
    if a - t.deadline <= 29 * (CountBelow(ts, a) + 1) {
      forall i | 0 <= i < |ts'| ensures a - ts'[i].deadline <= Slack(ts', a, i) {
        if i < pos {
          assert ts'[i] == ts[i] && a - ts[i].deadline <= Slack(ts, a, i);
        } else if i > pos {
          LaterStaggers(ts, pos, t, a, i - 1);
        }
      }
    }
  }

  lemma OwnSlackIff(ts: seq<Task>, pos: nat, t: Task, a: int)
    requires SlotFor(ts, t.deadline, pos) && Staggered(ts, a)
    requires CountBelow(Insert(ts, pos, t), a) == CountBelow(ts, a) + (if t.deadline < a then 1 else 0)
    ensures a - t.deadline <= Slack(Insert(ts, pos, t), a, pos) <==> a - t.deadline <= 29 * (CountBelow(ts, a) + 1)
  {
    hide CountBelow, Insert;
    if pos > 0 {
      assert a - ts[pos - 1].deadline <= Slack(ts, a, pos - 1);
    }
  }

  /** Behind the slot: one place further on, and one more below a unless none of them is below it. */
  lemma LaterStaggers(ts: seq<Task>, pos: nat, t: Task, a: int, i: nat)
    requires SlotFor(ts, t.deadline, pos) && pos <= i < |ts| && a - ts[i].deadline <= Slack(ts, a, i)
    requires CountBelow(Insert(ts, pos, t), a) == CountBelow(ts, a) + (if t.deadline < a then 1 else 0)
    ensures a - Insert(ts, pos, t)[i + 1].deadline <= Slack(Insert(ts, pos, t), a, i + 1)
  {
    hide CountBelow;
    assert Insert(ts, pos, t)[i + 1] == ts[i];
  }

  /** No task lies before the earliest. */
  lemma EarliestStaggers(ts: seq<Task>, a: int)
    requires forall i :: 0 <= i < |ts| ==> a <= ts[i].deadline
    ensures Staggered(ts, a)
  {
  }

  lemma AddKeepsCoupled(s: State, deadline: int, pos: nat)
    requires Inv(s) && Enabled(s, Add(deadline, pos))
    ensures Sorted(Apply(s, Add(deadline, pos)).tasks) && Coupled(Apply(s, Add(deadline, pos)))
  {
    hide Conserved, NotEarly, Sorted, Staggered, CountBelow, Holds;
    var t := Task(deadline, |s.added|);
    match Decide(s, deadline)
    case Join =>
      InsertSorted(s.tasks, pos, t);
      JoinStaggers(s, deadline);
      StaggerInsertIff(s.tasks, pos, t, Due(s).value);
      HoldsInsert(s.tasks, pos, t, Due(s).value);
    case Arm =>
      InsertSorted(s.tasks, pos, t);
      ArmIsEarliest(s, deadline, pos);
      EarliestStaggers(Insert(s.tasks, pos, t), deadline);
      HoldsInsert(s.tasks, pos, t, deadline);
      ExpireAtArms(s.timer, deadline);
    case RunNow =>
  }

  /** A task that joins has slack enough. */
  lemma JoinStaggers(s: State, deadline: int)
    requires Inv(s) && Decide(s, deadline) == Join
    ensures Due(s).Some?
    ensures Due(s).value - deadline <= 29 * (CountBelow(s.tasks, Due(s).value) + 1)
  {
    hide Conserved, NotEarly, CountBelow;
    assert Due(s).value - s.tasks[0].deadline <= Slack(s.tasks, Due(s).value, 0);
  }

  lemma DrainKeepsCoupled(s: State, k: nat, readings: seq<int>)
    requires Inv(s) && Enabled(s, Drain(k, readings))
    ensures Sorted(Apply(s, Drain(k, readings)).tasks) && Coupled(Apply(s, Drain(k, readings)))
    ensures k > 0
  {
    hide Conserved, NotEarly, Staggered;
    var i :| 0 <= i < |s.tasks| && s.tasks[i].deadline == s.loop.at;
    assert s.tasks[0].deadline <= s.tasks[i].deadline <= s.now <= readings[0];
    if k < |s.tasks| {
      ExpireAtArms(s.timer, s.tasks[k].deadline);
      assert s.tasks[k..][0].deadline == s.tasks[k].deadline;
      EarliestStaggers(s.tasks[k..], s.tasks[k].deadline);
    }
  }

  lemma InsertLater<T>(a: seq<T>, b: seq<T>, pos: nat, t: T)
    requires pos <= |b|
    ensures a + Insert(b, pos, t) == Insert(a + b, |a| + pos, t)
    ensures a + [t] + b == Insert(a + b, |a|, t)
  {
  }

  lemma ScheduleAdd(s: State, deadline: int, pos: nat) returns (at: nat)
    requires Enabled(s, Add(deadline, pos))
    ensures at <= |Schedule(s)|
    ensures Schedule(Apply(s, Add(deadline, pos)))
         == Insert(Schedule(s), at, Task(deadline, |s.added|))
  {
    var t := Task(deadline, |s.added|);
    if Decide(s, deadline) == RunNow {
      at := |s.ran|;
      calc {
        s.ran + [t] + Batch(s) + s.tasks;
        s.ran + [t] + (Batch(s) + s.tasks);
        { InsertLater(s.ran, Batch(s) + s.tasks, 0, t); }
        Insert(s.ran + (Batch(s) + s.tasks), at, t);
        { assert s.ran + (Batch(s) + s.tasks) == Schedule(s); }
        Insert(Schedule(s), at, t);
      }
    } else {
      at := |s.ran| + |Batch(s)| + pos;
      InsertLater(s.ran + Batch(s), s.tasks, pos, t);
    }
  }

  lemma ScheduleDrain(s: State, k: nat, readings: seq<int>)
    requires Enabled(s, Drain(k, readings))
    ensures Schedule(Apply(s, Drain(k, readings))) == Schedule(s)
  {
    assert Batch(Apply(s, Drain(k, readings))) == s.tasks[..k];
    assert s.ran + [] + s.tasks == s.ran + s.tasks[..k] + s.tasks[k..];
  }

  lemma ScheduleNext(s: State)
    requires Enabled(s, RunNext)
    ensures Schedule(Apply(s, RunNext)) == Schedule(s)
  {
    var b := s.loop.batch;
    assert Batch(Apply(s, RunNext)) == b[1..];
    assert s.ran + b == s.ran + [b[0]] + b[1..];
  }

  /** A step leaves the schedule as it is, except that Add puts one new task into it. */
  lemma ScheduleStep(s: State, e: Event) returns (at: nat)
    requires Enabled(s, e)
    ensures !e.Add? ==> Schedule(Apply(s, e)) == Schedule(s)
    ensures e.Add? ==>
              && at <= |Schedule(s)|
              && Schedule(Apply(s, e)) == Insert(Schedule(s), at, Task(e.deadline, |s.added|))
  {
    at := 0;
    match e
    case Add(deadline, pos) => at := ScheduleAdd(s, deadline, pos);
    case Drain(k, readings) => ScheduleDrain(s, k, readings);
    case RunNext => ScheduleNext(s);
    case _ =>
  }

  lemma InsertMultiset<T>(ts: seq<T>, pos: nat, t: T)
    requires pos <= |ts|
    ensures multiset(Insert(ts, pos, t)) == multiset(ts) + multiset{t}
  {
    assert ts == ts[..pos] + ts[pos..];
  }

  lemma KeepsConserved(s: State, e: Event)
    requires Conserved(s) && Enabled(s, e)
    ensures Conserved(Apply(s, e))
  {
    hide Schedule;
    var at := ScheduleStep(s, e);
    if e.Add? {
      InsertMultiset(Schedule(s), at, Task(e.deadline, |s.added|));
    }
  }

  lemma RunsDue(ran: seq<Task>, ranAt: seq<int>, now: int, t: Task)
    requires RanDue(ran, ranAt, now) && t.deadline - now < ACCURACY
    ensures RanDue(ran + [t], ranAt + [now], now)
  {
  }

  lemma DrainsDue(s: State, k: nat, readings: seq<int>)
    requires Enabled(s, Drain(k, readings))
    ensures DueBy(s.tasks[..k], Apply(s, Drain(k, readings)).now)
    ensures s.now <= Apply(s, Drain(k, readings)).now
  {
    var n := |readings|;
    assert forall i :: 0 <= i < k ==> s.now <= readings[i] <= readings[n - 1];
  }

  lemma KeepsNotEarly(s: State, e: Event)
    requires NotEarly(s) && Enabled(s, e)
    ensures NotEarly(Apply(s, e))
  {
    match e
    case Add(deadline, pos) =>
      if Decide(s, deadline) == RunNow {
        RunsDue(s.ran, s.ranAt, s.now, Task(deadline, |s.added|));
      }
    case Drain(k, readings) =>
      DrainsDue(s, k, readings);
      hide DrainsAs;
    case RunNext =>
      RunsDue(s.ran, s.ranAt, s.now, s.loop.batch[0]);
    case _ =>
  }

  lemma KeepsInv(s: State, e: Event)
    requires Inv(s) && Enabled(s, e)
    ensures Inv(Apply(s, e))
  {
    hide Conserved, NotEarly, Staggered;
    KeepsConserved(s, e);
    KeepsNotEarly(s, e);
    match e
    case Add(deadline, pos) => AddKeepsCoupled(s, deadline, pos);
    case Drain(k, readings) => DrainKeepsCoupled(s, k, readings);
    case _ =>
  }

  // ---- The class ----

  /** What the clock says each time it is asked from now on, for at least n times. */
  predicate Clock(now: int, readings: seq<int>, n: nat) {
    && n <= |readings| && (forall i :: 0 <= i < |readings| ==> now <= readings[i])
    && (forall i, j :: 0 <= i < j < |readings| ==> readings[i] <= readings[j])
  }

  lemma SlotExists(s: State, deadline: int) returns (pos: nat)
    requires Inv(s)
    ensures SlotFor(s.tasks, deadline, pos)
  {
    var ts := s.tasks;
    pos := 0;
    while pos < |ts| && ts[pos].deadline <= deadline
      invariant pos <= |ts|
      invariant forall i :: 0 <= i < pos ==> ts[i].deadline <= deadline
    {
      pos := pos + 1;
    }
  }

  /** One more clock reading in the drain loop, which stands before task k. */
  lemma ReadsClock(s: State, k: nat, readings: seq<int>, t: int)
    requires DrainsPrefix(s, k, readings) && |readings| == k < |s.tasks|
    requires t >= if k == 0 then s.now else readings[k - 1]
    ensures DrainsPrefix(s, k, readings + [t])
    ensures s.tasks[k].deadline - t < ACCURACY ==> DrainsPrefix(s, k + 1, readings + [t])
    ensures s.tasks[..k] + [s.tasks[k]] == s.tasks[..k + 1]
    ensures s.tasks[k..][0] == s.tasks[k] && s.tasks[k..][1..] == s.tasks[k + 1..]
  {
  }

  lemma OneMoreReading(clock: seq<int>, k: nat)
    requires k < |clock|
    ensures clock[..k] + [clock[k]] == clock[..k + 1] <= clock
  {
  }

  /** tasks_ and the timer are the source's; now, loop and the histories stand for the
      clock, the scheduler thread and what an observer sees. */
  class TimerQueue {
    var now: int
    var tasks: seq<Task>
    var timer: Timer
    var loop: Loop
    var added: seq<Task>
    var ran: seq<Task>
    var ranAt: seq<int>

    function View(): State
      reads this
    {
      State(now, tasks, timer, loop, added, ran, ranAt)
    }

    ghost predicate Valid()
      reads this
    {
      Inv(View())
    }

    constructor ()
      ensures Valid() && View() == INIT
    {
      now, tasks, timer, loop := 0, [], Disarmed, Polling;
      added, ran, ranAt := [], [], [];
    }

    method AddTask(expired: int) returns (pos: nat)
      requires Valid()
      modifies this
      ensures Valid()
      ensures Enabled(old(View()), Add(expired, pos))
      ensures View() == Apply(old(View()), Add(expired, pos))
    {
      hide Inv;
      ghost var before := View();
      var task := Task(expired, |added|);
      ghost var slot := SlotExists(before, expired);
      pos :| 0 <= pos <= |tasks| && SlotFor(tasks, expired, pos);
      added := added + [task];
      if |tasks| > 0 && tasks[0].deadline - expired < ACCURACY {
        tasks := Insert(tasks, pos, task);
      } else if expired - now < ACCURACY {
        ran, ranAt := ran + [task], ranAt + [now];
      } else {
        tasks := Insert(tasks, pos, task);
        timer := ExpireAt(timer, expired);
      }
      KeepsInv(before, Add(expired, pos));
    }

    /** The block of expire that runs under the mutex: it asks the clock once for each task it
        looks at. */
    method DrainDue(clock: seq<int>) returns (k: nat, readings: seq<int>)
      requires Valid() && loop.Delivered? && Clock(now, clock, |tasks|)
      modifies this
      ensures Valid()
      ensures Enabled(old(View()), Drain(k, readings))
      ensures View() == Apply(old(View()), Drain(k, readings))
      ensures readings <= clock
      ensures !loop.Delivered? && added == old(added) && |tasks| + k == |old(tasks)|
    {
      hide Inv;
      ghost var before := View();
      var batch: seq<Task> := [];
      k, readings := 0, [];
      while |tasks| > 0
        invariant k <= |before.tasks| && |readings| == k && batch == before.tasks[..k]
        invariant tasks == before.tasks[k..] && DrainsPrefix(before, k, readings) && readings == clock[..k]
        invariant now == if k == 0 then before.now else readings[k - 1]
        invariant View() == before.(now := now, tasks := tasks)
        decreases |tasks|
      {
        var t := clock[k];
        ReadsClock(before, k, readings, t);
        OneMoreReading(clock, k);
        now, readings := t, readings + [t];
        if tasks[0].deadline - now < ACCURACY {
          batch := batch + [tasks[0]];
          tasks := tasks[1..];
          k := k + 1;
        } else {
          timer := ExpireAt(timer, tasks[0].deadline);
          break;
        }
      }
      loop := Dispatch(batch);
      assert View() == Apply(before, Drain(k, readings));
      KeepsInv(before, Drain(k, readings));
    }

    /** One turn of the callback loop of expire. */
    method CallNext()
      requires Valid() && loop.Running?
      modifies this
      ensures Valid()
      ensures Enabled(old(View()), RunNext) && View() == Apply(old(View()), RunNext)
      ensures |old(loop.batch)| > 0 && added == old(added) && tasks == old(tasks)
      ensures loop == Dispatch(old(loop.batch)[1..])
    {
      assert |loop.batch| > 0;
      hide Inv;
      ghost var before := View();
      ran, ranAt := ran + [loop.batch[0]], ranAt + [now];
      loop := Dispatch(loop.batch[1..]);
      KeepsInv(before, RunNext);
    }

    /** The whole of expire when no other thread interferes: what it drains it runs, in order. */
    method Expire(clock: seq<int>)
      requires Valid() && loop.Delivered? && Clock(now, clock, |tasks|)
      modifies this
      ensures Valid() && loop.Polling?
      ensures added == old(added)
      ensures ran + tasks == old(ran + tasks)
      ensures |ran| > |old(ran)|
    {
      hide Inv, Enabled, Apply;
      ghost var before := View();
      var k, readings := DrainDue(clock);
      DrainKeepsCoupled(before, k, readings);
      ScheduleDrain(before, k, readings);
      assert Schedule(before) == old(ran) + old(tasks);
      while loop.Running?
        invariant Valid() && !loop.Delivered? && Schedule(View()) == Schedule(before)
        invariant added == old(added) && |tasks| < |old(tasks)|
        decreases if loop.Running? then |loop.batch| else 0
      {
        ghost var mid := View();
        CallNext();
        ScheduleNext(mid);
      }
    }

    /** The scheduler thread's turn: it reads the timerfd and calls expire only for an unread expiry. */
    method PollEvent(clock: seq<int>)
      requires Valid() && loop.Polling? && Clock(now, clock, |tasks|)
      modifies this
      ensures Valid() && loop.Polling? && added == old(added)
      ensures ran + tasks == old(ran + tasks)
      ensures if old(timer.Fired?) then |ran| > |old(ran)| else View() == old(View())
    {
      if timer.Fired? {
        ghost var before := View();
        timer, loop := Disarmed, Delivered(timer.at);
        KeepsInv(before, Deliver);
        Expire(clock);
      }
    }
  }
}
