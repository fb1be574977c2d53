/** Retry decisions and bounded exponential delays. */
module Retry {
  import opened Options
  import opened EventModel

  const MAX_RETRY_ATTEMPTS := 3
  const DEFAULT_RETRY_DELAY_SECONDS := 60

  datatype FailureClass = RetryableFailure | OtherFailure

  datatype RetryDecision = RetryDecision(shouldRetry: bool, shouldDeadLetter: bool)

  function DecideRetry(failure: FailureClass, attemptNumber: int, maxAttempts: int): RetryDecision {
    if failure == RetryableFailure && attemptNumber < maxAttempts then RetryDecision(true, false)
    else RetryDecision(false, true)
  }

  function Pow2(n: nat): nat {
    if n == 0 then 1 else 2 * Pow2(n - 1)
  }

  /** None when the attempt number is rejected. */
  function CalculateBackoff(attemptNumber: int, baseDelay: int, maxDelay: int): Option<int> {
    if attemptNumber < 1 then None
    else
      var delay := baseDelay * Pow2(attemptNumber - 1);
      Some(if delay < maxDelay then delay else maxDelay)
  }

  /** The delay the relay asks for after attempt `n`. */
  function RetryDelay(n: int): int
    requires 1 <= n
  {
    CalculateBackoff(n, DEFAULT_RETRY_DELAY_SECONDS, DEFAULT_RETRY_DELAY_SECONDS * 8).value
  }

  lemma {:induction false} Pow2Grows(m: nat, n: nat)
    requires m <= n
    ensures 1 <= Pow2(m) <= Pow2(n)
  {
    if m < n {
      Pow2Grows(m, n - 1);
    } else if 0 < m {
      Pow2Grows(m - 1, m - 1);
    }
  }

  /** Delays start at one minute, double until they reach eight minutes, and stay there. */
  lemma RetryDelaySchedule(n: int)
    requires 1 <= n
    ensures 60 <= RetryDelay(n) <= 480
    ensures n <= 4 ==> RetryDelay(n) == 60 * Pow2(n - 1)
    ensures 4 <= n ==> RetryDelay(n) == 480
    ensures RetryDelay(n + 1) == if n < 4 then 2 * RetryDelay(n) else 480
  {
    assert Pow2(1) == 2 && Pow2(2) == 4 && Pow2(3) == 8;
    if 4 <= n {
      Pow2Grows(3, n - 1);
      Pow2Grows(3, n);
    }
  }
}
