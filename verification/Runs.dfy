/** Runs of a state machine, and the two inductions over them. */
module Runs {
  /** Every two neighbouring states are related by `next`. */
  ghost predicate Linked<S>(run: seq<S>, next: (S, S) -> bool) {
    forall i, j :: 0 <= i < j < |run| && j == i + 1 ==> next(run[i], run[j])
  }

  /** An invariant that every step keeps holds in every state of a run. */
  lemma {:induction false} Invariant<S(!new)>(run: seq<S>, next: (S, S) -> bool, inv: S -> bool, i: nat)
    requires Linked(run, next) && i < |run| && inv(run[0])
    requires forall s, s' :: inv(s) && next(s, s') ==> inv(s')
    ensures inv(run[i])
  {
    if i > 0 {
      Invariant(run, next, inv, i - 1);
      assert next(run[i - 1], run[i]);
    }
  }

  /** If every step uses up some rank, the rank pays for the steps. */
  lemma {:induction false} Pays<S(!new)>(run: seq<S>, next: (S, S) -> bool, inv: S -> bool, rank: S -> int, i: nat)
    requires Linked(run, next) && i < |run| && inv(run[0])
    requires forall s, s' :: inv(s) && next(s, s') ==> inv(s') && rank(s') < rank(s)
    ensures inv(run[i]) && i + rank(run[i]) <= rank(run[0])
  {
    if i > 0 {
      Pays(run, next, inv, rank, i - 1);
      assert next(run[i - 1], run[i]);
    }
  }
}
