/** Options, and runs of a labelled transition system.  A label carries every
    choice the environment makes, so a step is a function of state and label. */
module Runs {

  datatype Option<+T> = None | Some(value: T)

  /** The state reached from s by the labels ls, applied left to right. */
  ghost function Run<S, L>(step: (S, L) -> S, s: S, ls: seq<L>): S {
    if |ls| == 0 then s else step(Run(step, s, ls[..|ls| - 1]), ls[|ls| - 1])
  }

  /** Every label of ls is enabled in the state it is applied to. */
  ghost predicate Legal<S, L>(enabled: (S, L) -> bool, step: (S, L) -> S, s: S, ls: seq<L>) {
    |ls| == 0 ||
    (var n := |ls| - 1;
     Legal(enabled, step, s, ls[..n]) && enabled(Run(step, s, ls[..n]), ls[n]))
  }

  lemma Extend<S, L>(enabled: (S, L) -> bool, step: (S, L) -> S, s: S, ls: seq<L>, l: L)
    requires Legal(enabled, step, s, ls) && enabled(Run(step, s, ls), l)
    ensures Legal(enabled, step, s, ls + [l])
    ensures Run(step, s, ls + [l]) == step(Run(step, s, ls), l)
  {
    assert (ls + [l])[..|ls|] == ls;
  }

  /** What holds at the start and is kept by every enabled step holds after every run. */
  lemma {:induction false} Invariant<S(!new), L(!new)>(
      enabled: (S, L) -> bool, step: (S, L) -> S, inv: S -> bool, s: S, ls: seq<L>)
    requires inv(s) && Legal(enabled, step, s, ls)
    requires forall t, l :: inv(t) && enabled(t, l) ==> inv(step(t, l))
    ensures inv(Run(step, s, ls))
  {
    if |ls| > 0 {
      Invariant(enabled, step, inv, s, ls[..|ls| - 1]);
    }
  }

  /** A run that obeys a stronger discipline is a run. */
  lemma {:induction false} Weaken<S(!new), L(!new)>(
      strong: (S, L) -> bool, enabled: (S, L) -> bool, step: (S, L) -> S, s: S, ls: seq<L>)
    requires Legal(strong, step, s, ls)
    requires forall t, l :: strong(t, l) ==> enabled(t, l)
    ensures Legal(enabled, step, s, ls)
  {
    if |ls| > 0 {
      Weaken(strong, enabled, step, s, ls[..|ls| - 1]);
    }
  }

  /** A step followed by a run. */
  lemma {:induction false} Prepend<S, L>(enabled: (S, L) -> bool, step: (S, L) -> S, s: S, l: L, ls: seq<L>)
    requires enabled(s, l) && Legal(enabled, step, step(s, l), ls)
    ensures Legal(enabled, step, s, [l] + ls)
    ensures Run(step, s, [l] + ls) == Run(step, step(s, l), ls)
  {
    var n := |ls|;
    if n == 0 {
      assert ([l] + ls)[..0] == [] && ([l] + ls)[0] == l;
      assert Run(step, s, []) == s;
    } else {
      Prepend(enabled, step, s, l, ls[..n - 1]);
      assert ([l] + ls)[..n] == [l] + ls[..n - 1];
    }
  }
}
