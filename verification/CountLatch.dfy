/** The counting latch (codechiev/base/Condition.cpp, CountLatch). */
module CountLatches {
  import opened Conditions
  import opened Runs

  /** total is what reduce has taken off so far, settled the number of reduce calls that left
      the count at or below zero; passed maps a caller that has returned to the total it saw. */
  datatype State = State(initial: int, callers: nat, count: int, total: int, settled: nat,
                         ready: set<nat>, waiting: set<nat>, signalled: set<nat>, passed: map<nat, int>)

  datatype Label =
    | Check(w: nat)                       // caller w, holding the mutex, tests the count
    | Reduce(val: int, woken: set<nat>)
    | Spurious(w: nat)

  function Init(c: int, n: nat): State {
    State(c, n, c, 0, 0, Threads(0, n), {}, {}, map[])
  }

  predicate Enabled(s: State, l: Label) {
    match l
    case Check(w) => w in s.ready + s.signalled
    case Reduce(val, woken) => Wakes(s.waiting, woken)
    case Spurious(w) => w in s.waiting
  }

  /** As the latch is meant to be used: every reduce takes something off. */
  predicate Positive(s: State, l: Label) {
    Enabled(s, l) && (l.Reduce? ==> l.val > 0)
  }

  function Apply(s: State, l: Label): State {
    match l
    case Check(w) =>
      var s' := s.(ready := s.ready - {w}, signalled := s.signalled - {w});
      if s.count > 0 then s'.(waiting := s.waiting + {w}) else s'.(passed := s.passed[w := s.total])
    case Reduce(val, woken) =>
      s.(count := s.count - val, total := s.total + val,
         settled := s.settled + if s.count - val <= 0 then 1 else 0,
         waiting := s.waiting - woken, signalled := s.signalled + woken)
    case Spurious(w) =>
      s.(waiting := s.waiting - {w}, signalled := s.signalled + {w})
  }

  // ---- Safety, whatever is reduced ----

  predicate Passes(s: State) {
    s.total + s.count == s.initial && forall w :: w in s.passed ==> s.passed[w] >= s.initial
  }

  /** latch returns only after the reductions so far add up to the initial count. */
  lemma {:induction false} PassedMeansReduced(c: int, n: nat, ls: seq<Label>)
    requires Legal(Enabled, Apply, Init(c, n), ls)
    ensures Passes(Run(Apply, Init(c, n), ls))
  {
    if |ls| > 0 {
      PassedMeansReduced(c, n, ls[..|ls| - 1]);
    }
  }

  /** A caller that tests the count returns if it is at or below zero, else goes to sleep; either
      way it does not test again unless it is woken. */
  lemma CheckOutcome(s: State, w: nat)
    requires Enabled(s, Check(w))
    ensures var s' := Apply(s, Check(w));
            && w !in s'.ready + s'.signalled && s'.count == s.count
            && s'.waiting == (if s.count > 0 then s.waiting + {w} else s.waiting)
            && s'.passed.Keys == (if s.count > 0 then s.passed.Keys else s.passed.Keys + {w})
  {
  }

  /** reduce takes off the value and takes at least one sleeper, if any, out of its wait. */
  lemma ReduceOutcome(s: State, val: int, woken: set<nat>)
    requires Enabled(s, Reduce(val, woken))
    ensures var s' := Apply(s, Reduce(val, woken));
            && s'.count + val == s.count && s'.ready == s.ready && s'.passed == s.passed
            && (if s.waiting == {} then s'.waiting == {} else s'.waiting < s.waiting)
            && s'.signalled == s.signalled + (s.waiting - s'.waiting)
  {
    if s.waiting != {} {
      var w :| w in woken;
      assert w in s.waiting;
    }
  }

  /** Every caller is ready to test the count, asleep, woken, or has returned. */
  ghost predicate OnePlace(s: State) {
    && s.ready !! s.waiting !! s.signalled !! s.passed.Keys
    && s.ready + s.waiting + s.signalled + s.passed.Keys == Threads(0, s.callers)
  }

  lemma {:induction false} CallersKept(c: int, n: nat, ls: seq<Label>)
    requires Legal(Enabled, Apply, Init(c, n), ls)
    ensures OnePlace(Run(Apply, Init(c, n), ls)) && Run(Apply, Init(c, n), ls).callers == n
  {
    hide OnePlace, Enabled, Apply;
    if |ls| == 0 {
      AllReady(c, n);
    } else {
      var m := |ls| - 1;
      CallersKept(c, n, ls[..m]);
      KeepsOnePlace(Run(Apply, Init(c, n), ls[..m]), ls[m]);
    }
  }

  lemma AllReady(c: int, n: nat)
    ensures OnePlace(Init(c, n))
  {
  }

  lemma KeepsOnePlace(s: State, l: Label)
    requires OnePlace(s) && Enabled(s, l)
    ensures OnePlace(Apply(s, l)) && Apply(s, l).callers == s.callers
  {
    if l.Check? && s.count <= 0 {
      assert Apply(s, l).passed.Keys == s.passed.Keys + {l.w};
    }
  }

  // ---- Wakeups, with positive reductions ----

  /** Once the count is down, every reduce call since (the one that brought it down included)
      has taken at least one caller out of the wait. */
  predicate Woken(s: State) {
    && s.waiting <= Threads(0, s.callers)
    && s.ready + s.signalled <= Threads(0, s.callers)
    && (s.count > 0 ==> s.settled == 0)
    && (s.initial <= 0 ==> s.waiting == {} && s.count <= 0)
    && (s.count <= 0 && s.initial > 0 ==> s.settled > 0)
    && (s.count <= 0 && s.waiting != {} ==> |s.waiting| + s.settled <= s.callers)
  }

  lemma ReduceKeepsWoken(s: State, val: int, woken: set<nat>)
    requires Woken(s) && Wakes(s.waiting, woken) && val > 0
    ensures Woken(Apply(s, Reduce(val, woken)))
  {
    Grows(s.waiting, Threads(0, s.callers));
    ThreadCount(0, s.callers);
    if s.waiting != {} {
      assert |s.waiting - woken| == |s.waiting| - |woken|;
      assert |woken| > 0;
    }
  }

  lemma KeepsWoken(s: State, l: Label)
    requires Woken(s) && Positive(s, l)
    ensures Woken(Apply(s, l))
  {
    match l
    case Reduce(val, woken) => ReduceKeepsWoken(s, val, woken);
    case Check(w) =>
    case Spurious(w) => assert |s.waiting - {w}| == |s.waiting| - 1;
  }

  /** With n callers and k reduce calls since the count came down, at most n - k still sleep. */
  lemma {:induction false} SleepersBound(c: int, n: nat, ls: seq<Label>)
    requires Legal(Positive, Apply, Init(c, n), ls)
    ensures Woken(Run(Apply, Init(c, n), ls))
    ensures Run(Apply, Init(c, n), ls).callers == n && Run(Apply, Init(c, n), ls).initial == c
  {
    hide Woken, Positive;
    if |ls| == 0 {
      InitWoken(c, n);
    } else {
      var m := |ls| - 1;
      SleepersBound(c, n, ls[..m]);
      KeepsWoken(Run(Apply, Init(c, n), ls[..m]), ls[m]);
    }
  }

  lemma InitWoken(c: int, n: nat)
    ensures Woken(Init(c, n))
  {
  }

  // ---- One notify per reduce suffices for one caller, and for one only ----

  function Sleep(n: nat): seq<Label> {
    if n == 0 then [] else Sleep(n - 1) + [Check(n - 1)]
  }

  predicate Asleep(s: State, c: int, n: nat, m: nat) {
    && s.waiting == Threads(0, m) && s.ready + s.signalled == Threads(0, n) - Threads(0, m)
    && s.count == c && s.settled == 0
  }

  lemma OneMoreSleeps(s: State, c: int, n: nat, m: nat)
    requires c > 0 && m < n && Asleep(s, c, n, m)
    ensures Positive(s, Check(m)) && Asleep(Apply(s, Check(m)), c, n, m + 1)
  {
    var s' := Apply(s, Check(m));
    assert s'.ready + s'.signalled == (s.ready + s.signalled) - {m};
  }

  lemma NoneAsleep(c: int, n: nat)
    ensures Legal(Positive, Apply, Init(c, n), Sleep(0))
    ensures Asleep(Run(Apply, Init(c, n), Sleep(0)), c, n, 0)
  {
  }

  lemma {:induction false} AllSleep(c: int, n: nat, m: nat)
    requires c > 0 && m <= n
    ensures Legal(Positive, Apply, Init(c, n), Sleep(m))
    ensures Asleep(Run(Apply, Init(c, n), Sleep(m)), c, n, m)
  {
    hide Asleep, Positive, Apply, Init, Threads, Legal, Run;
    if m == 0 {
      NoneAsleep(c, n);
    } else {
      AllSleep(c, n, m - 1);
      OneMoreSleeps(Run(Apply, Init(c, n), Sleep(m - 1)), c, n, m - 1);
      Extend(Positive, Apply, Init(c, n), Sleep(m - 1), Check(m - 1));
    }
  }

  lemma OneReduce(s: State, c: int, n: nat)
    requires c > 0 && n > 0 && Asleep(s, c, n, n)
    ensures Positive(s, Reduce(c, {n - 1}))
    ensures var s' := Apply(s, Reduce(c, {n - 1}));
            s'.count == 0 && s'.settled == 1 && |s'.waiting| == n - 1
  {
    assert n - 1 in s.waiting;
    assert s.waiting - {n - 1} == Threads(0, n - 1);
    ThreadCount(0, n - 1);
  }

  /** Every number of callers n can be brought to sleep, and then a single reduce takes the count
      to zero with n - 1 of them still asleep: the bound is exact. */
  lemma LastButOneSleep(c: int, n: nat) returns (ls: seq<Label>)
    requires c > 0 && n > 0
    ensures Legal(Positive, Apply, Init(c, n), ls)
    ensures var s := Run(Apply, Init(c, n), ls);
            s.count == 0 && s.settled == 1 && |s.waiting| == n - 1
  {
    hide Asleep, Positive, Apply, Init, Threads, Legal, Run, Sleep;
    var l := Reduce(c, {n - 1});
    AllSleep(c, n, n);
    OneReduce(Run(Apply, Init(c, n), Sleep(n)), c, n);
    Extend(Positive, Apply, Init(c, n), Sleep(n), l);
    ls := Sleep(n) + [l];
  }

  ghost predicate NobodySleeps(c: int, n: nat, ls: seq<Label>) {
    var s := Run(Apply, Init(c, n), ls);
    s.count <= 0 ==> s.waiting == {}
  }

  /** With a positive initial count, no caller is ever left asleep once the count is at or below
      zero exactly when there is at most one caller. */
  lemma OneCallerOnly(c: int, n: nat)
    requires c > 0
    ensures (forall ls :: Legal(Positive, Apply, Init(c, n), ls) ==> NobodySleeps(c, n, ls)) <==> n <= 1
  {
    if n <= 1 {
      forall ls | Legal(Positive, Apply, Init(c, n), ls) ensures NobodySleeps(c, n, ls) {
        SleepersBound(c, n, ls);
        var s := Run(Apply, Init(c, n), ls);
        if s.waiting != {} {
          assert |s.waiting| > 0;
        }
      }
    } else {
      var ls := LastButOneSleep(c, n);
      assert Run(Apply, Init(c, n), ls).waiting != {};
      assert !NobodySleeps(c, n, ls);
    }
  }

  // ---- The class ----

  /** count and cond are the source's; the rest records the callers of latch and the history. */
  class CountLatch {
    const initial: int
    const callers: nat
    const cond: Condition
    var count: int
    var total: int
    var settled: nat
    var ready: set<nat>
    var passed: map<nat, int>

    function View(): State
      reads this, cond
    {
      State(initial, callers, count, total, settled, ready, cond.waiting, cond.signalled, passed)
    }

    constructor (c: int, n: nat)
      ensures fresh(cond) && View() == Init(c, n)
    {
      cond := new Condition();
      initial, callers, count, total, settled := c, n, c, 0, 0;
      ready, passed := Threads(0, n), map[];
    }

    /** One pass of a caller through latch: it returns, or it waits. */
    method Latch(w: nat) returns (returned: bool)
      requires Enabled(View(), Check(w))
      modifies this, cond
      ensures View() == Apply(old(View()), Check(w))
      ensures returned <==> old(count) <= 0
    {
      ready := ready - {w};
      cond.Resume(w);
      if count > 0 {
        cond.Wait(w);
        returned := false;
      } else {
        passed := passed[w := total];
        returned := true;
      }
    }

    method Reduce(val: int, woken: set<nat>)
      requires Wakes(cond.waiting, woken)
      modifies this, cond
      ensures Enabled(old(View()), Label.Reduce(val, woken))
      ensures View() == Apply(old(View()), Label.Reduce(val, woken))
    {
      count := count - val;
      total := total + val;
      settled := settled + if count <= 0 then 1 else 0;
      cond.Notify(woken);
    }
  }
}
