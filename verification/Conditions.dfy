/** The condition variable (codechiev/base/Condition.cpp) under the mutex it is used with:
    pthread_cond_wait and pthread_cond_signal of the System Interfaces volume of POSIX.1-2017. */
module Conditions {

  /** The n threads numbered from the given one on. */
  function Threads(from: nat, n: nat): (ws: set<nat>)
    ensures forall w: nat :: w in ws <==> from <= w < from + n
  {
    if n == 0 then {} else Threads(from, n - 1) + {from + n - 1}
  }

  lemma OneMore(ws: set<nat>, w: nat, more: set<nat>)
    requires w !in ws && more == ws + {w}
    ensures |more| == |ws| + 1
  {
  }

  lemma {:induction false} ThreadCount(from: nat, n: nat)
    ensures |Threads(from, n)| == n
  {
    if n > 0 {
      var ws := Threads(from, n - 1);
      ThreadCount(from, n - 1);
      OneMore(ws, from + n - 1, Threads(from, n));
    }
  }

  lemma Grows(a: set<nat>, b: set<nat>)
    requires a <= b
    ensures |a| <= |b|
  {
    assert b == a + (b - a);
  }

  /** One signal unblocks at least one waiter if there is any, and may unblock several. */
  predicate Wakes(waiting: set<nat>, woken: set<nat>) {
    woken <= waiting && (waiting != {} ==> woken != {})
  }

  /** Threads are numbered.  A signalled thread is out of the wait but has yet to re-acquire the mutex. */
  class Condition {
    var waiting: set<nat>
    var signalled: set<nat>

    constructor ()
      ensures waiting == {} && signalled == {}
    {
      waiting, signalled := {}, {};
    }

    method Wait(thread: nat)
      modifies this
      ensures waiting == old(waiting) + {thread} && signalled == old(signalled)
    {
      waiting := waiting + {thread};
    }

    /** Which waiters a signal unblocks is the kernel's choice. */
    method Notify(woken: set<nat>)
      requires Wakes(waiting, woken)
      modifies this
      ensures waiting == old(waiting) - woken && signalled == old(signalled) + woken
    {
      waiting, signalled := waiting - woken, signalled + woken;
    }

    method NotifyAll()
      modifies this
      ensures waiting == {} && signalled == old(signalled + waiting)
    {
      waiting, signalled := {}, signalled + waiting;
    }

    /** The thread holds the mutex again and runs on. */
    method Resume(thread: nat)
      modifies this
      ensures waiting == old(waiting) && signalled == old(signalled) - {thread}
    {
      signalled := signalled - {thread};
    }
  }
}
