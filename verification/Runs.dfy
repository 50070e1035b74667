/** Runs of a transition system: what every step keeps holds throughout, what every step lowers bounds the length. */
module Runs {

  ghost predicate IsRun<S(!new)>(init: S -> bool, next: (S, S) -> bool, run: seq<S>) {
    && run != [] && init(run[0])
    && forall i :: 0 <= i < |run| - 1 ==> next(run[i], run[i + 1])
  }

  /** The invariant holds at the start, and every step keeps it. */
  ghost predicate IsInvariant<S(!new)>(init: S -> bool, next: (S, S) -> bool, inv: S -> bool) {
    && (forall s :: init(s) ==> inv(s))
    && (forall s, s' :: inv(s) && next(s, s') ==> inv(s'))
  }

  lemma {:induction false} HoldsThroughout<S(!new)>(init: S -> bool, next: (S, S) -> bool, inv: S -> bool,
                                              run: seq<S>, n: nat)
    requires IsRun(init, next, run) && IsInvariant(init, next, inv) && n < |run|
    ensures inv(run[n])
  {
    if n > 0 {
      HoldsThroughout(init, next, inv, run, n - 1);
      assert next(run[n - 1], run[n - 1 + 1]);
    }
  }

  /** A number that every step from an invariant state lowers bounds the steps of a run. */
  lemma {:induction false} RankBounds<S(!new)>(init: S -> bool, next: (S, S) -> bool, inv: S -> bool, rank: S -> nat,
                                         run: seq<S>, n: nat)
    requires IsRun(init, next, run) && IsInvariant(init, next, inv) && n < |run|
    requires forall s, s' :: inv(s) && next(s, s') ==> rank(s') < rank(s)
    ensures n + rank(run[n]) <= rank(run[0])
  {
    if n > 0 {
      RankBounds(init, next, inv, rank, run, n - 1);
      HoldsThroughout(init, next, inv, run, n - 1);
      assert next(run[n - 1], run[n - 1 + 1]);
    }
  }
}
