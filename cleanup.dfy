/** Deletion of a converted original, with retries (src/index.ts:197-211). */
module Cleanup {
  /** At most this many unlink attempts are made. */
  const MaxTries: nat := 3

  /** Whether one of the MaxTries unlink attempts succeeds, attempt t failing when attemptFails(t). */
  ghost predicate Deletable(attemptFails: nat -> bool) {
    exists t :: 0 <= t < MaxTries && !attemptFails(t)
  }

  /**
   * The retry loop: attempt t fails when attemptFails(t); stop at the first
   * success; warn only when the last attempt fails.
   */
  method DeleteWithRetry(attemptFails: nat -> bool) returns (attempts: nat, deleted: bool, warned: bool)
    ensures 1 <= attempts <= MaxTries
    ensures forall t :: 0 <= t < attempts - 1 ==> attemptFails(t)
    ensures deleted <==> !attemptFails(attempts - 1)
    ensures deleted <==> Deletable(attemptFails)
    ensures !deleted ==> attempts == MaxTries
    ensures warned <==> !deleted
  {
    attempts, deleted, warned := 0, false, false;
    var tries := 0;
    while tries < MaxTries
      invariant 0 <= tries <= MaxTries
      invariant !deleted ==> attempts == tries
      invariant forall t :: 0 <= t < tries ==> attemptFails(t)
      invariant warned <==> tries == MaxTries
      invariant !deleted
    {
      attempts := attempts + 1;
      if !attemptFails(tries) {
        deleted := true;
        break;
      }
      if tries == 2 {
        warned := true;
      }
      tries := tries + 1;
    }
  }
}
