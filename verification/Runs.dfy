/** Induction along a run. */
module Runs {

  /** What holds first, and carries over from each point of a run to the next, holds throughout. */
  lemma {:induction false} HoldsThroughout(good: seq<bool>, k: nat)
    requires k < |good| && good[0]
    requires forall i :: 0 <= i < |good| - 1 && good[i] ==> good[i + 1]
    ensures good[k]
  {
    if k > 0 {
      HoldsThroughout(good, k - 1);
      assert good[k - 1 + 1];
    }
  }
}
