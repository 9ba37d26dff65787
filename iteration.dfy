/**
 * A bounded fixed-point iteration with an early stop, independent of what
 * is being iterated: at most `rounds` applications of `step`, stopping as
 * soon as a freshly computed state passes the test `done(next, current)`,
 * in which case the CURRENT state (not the fresh one) is the result.
 */
module Iteration {

  /** The state after at most `rounds` rounds from `s`. */
  ghost function Run<S>(step: S -> S, done: (S, S) -> bool, s: S, rounds: int): S
    decreases rounds
  {
    if rounds <= 0 then s
    else if done(step(s), s) then s
    else Run(step, done, step(s), rounds - 1)
  }

  /** `k` applications of `step`, without any test. */
  ghost function Repeat<S>(step: S -> S, s: S, k: nat): S
    decreases k
  {
    if k == 0 then s else Repeat(step, step(s), k - 1)
  }

  /**
   * The result is the state after some k rounds with k within the budget,
   * and whenever fewer rounds than the budget were taken, the round after
   * the result passed the test.
   */
  lemma {:induction false} RunStops<S>(step: S -> S, done: (S, S) -> bool, s: S, rounds: int)
    ensures exists k: nat ::
      && (k <= rounds || k == 0)
      && Run(step, done, s, rounds) == Repeat(step, s, k)
      && (k < rounds ==> done(step(Run(step, done, s, rounds)), Run(step, done, s, rounds)))
    decreases rounds
  {
    if rounds <= 0 || done(step(s), s) {
      assert Run(step, done, s, rounds) == Repeat(step, s, 0);
    } else {
      var next := step(s);
      RunStops(step, done, next, rounds - 1);
      var r := Run(step, done, next, rounds - 1);
      var k: nat :| && (k <= rounds - 1 || k == 0)
                    && r == Repeat(step, next, k)
                    && (k < rounds - 1 ==> done(step(r), r));
      assert Run(step, done, s, rounds) == r;
      assert Repeat(step, s, k + 1) == r;
    }
  }

  /** A property that every round preserves holds of the result. */
  lemma {:induction false} RunKeeps<S>(step: S -> S, done: (S, S) -> bool, s: S, rounds: int, p: S -> bool)
    requires p(s)
    requires forall x {:trigger step(x)} :: p(x) ==> p(step(x))
    ensures p(Run(step, done, s, rounds))
    decreases rounds
  {
    if rounds > 0 && !done(step(s), s) {
      RunKeeps(step, done, step(s), rounds - 1, p);
    }
  }
}
