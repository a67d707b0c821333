/**
 * Retrying and guarding calls that may time out.
 *
 * The alarm signal that interrupts a slow call is not modelled: each attempt
 * of a wrapped call is an `Outcome`, either the value it returned, the
 * `TimeoutError` the alarm raised, or some other exception. A sequence of
 * attempts is a function from the attempt number (counting from 1) to its
 * outcome, so later attempts may behave differently from earlier ones.
 */
module TimeoutUtils {
  import opened PyStr

  datatype Outcome<T> = Completes(value: T) | TimesOut(message: Str) | Raises(message: Str)

  /**
   * What `raise last_error` raises when the loop ran no attempt: `last_error`
   * is still `None`, and raising `None` is a `TypeError`.
   */
  function NoAttemptError(): Str {
    Lit("exceptions must derive from BaseException")
  }

  /**
   * The attempt loop of `with_retry` from attempt `k` on: the outcome the
   * wrapper ends with, and the number of the last attempt it made.
   */
  function RetryFrom<T>(attempt: nat -> Outcome<T>, k: nat, maxAttempts: nat): (Outcome<T>, nat)
    requires 1 <= k <= maxAttempts
    decreases maxAttempts - k
  {
    match attempt(k)
    case TimesOut(_) =>
      if k == maxAttempts then (attempt(k), k) else RetryFrom(attempt, k + 1, maxAttempts)
    case _ => (attempt(k), k)
  }

  /** `with_retry(max_attempts)` applied to a call: its outcome and the number of calls made. */
  function Retry<T>(attempt: nat -> Outcome<T>, maxAttempts: int): (Outcome<T>, nat) {
    if maxAttempts < 1 then (Raises(NoAttemptError()), 0) else RetryFrom(attempt, 1, maxAttempts)
  }

  /** The wrapper of `with_retry`: try attempt after attempt while they time out. */
  method WithRetry<T>(attempt: nat -> Outcome<T>, maxAttempts: int) returns (result: Outcome<T>, calls: nat)
    ensures (result, calls) == Retry(attempt, maxAttempts)
  {
    var lastError: Outcome<T> := Raises(NoAttemptError());
    calls := 0;
    var k := 1;
    while k <= maxAttempts
      invariant if maxAttempts >= 1 then 1 <= k <= maxAttempts + 1 else k == 1
      invariant calls == k - 1
      invariant forall j :: 1 <= j < k ==> attempt(j).TimesOut?
      invariant k > 1 ==> lastError == attempt(k - 1)
      invariant k == 1 ==> lastError == Raises(NoAttemptError())
      invariant k <= maxAttempts ==> Retry(attempt, maxAttempts) == RetryFrom(attempt, k, maxAttempts)
      invariant 1 < k == maxAttempts + 1 ==> Retry(attempt, maxAttempts) == (lastError, calls)
      decreases maxAttempts - k
    {
      var outcome := attempt(k);
      calls := k;
      match outcome {
        case Completes(_) =>
          return outcome, calls;
        case Raises(_) =>
          return outcome, calls;
        case TimesOut(_) =>
          lastError := outcome;
      }
      k := k + 1;
    }
    result := lastError;
  }

  /**
   * What `with_retry` promises: at most `max_attempts` calls; every call but
   * the last timed out; the result is the last call's outcome, so a value is
   * returned as soon as one attempt completes, any other exception is raised
   * at once, and a timeout is raised only after all attempts timed out.
   */
  lemma {:induction false} RetryFromOutcome<T>(attempt: nat -> Outcome<T>, k: nat, maxAttempts: nat)
    requires 1 <= k <= maxAttempts
    ensures var (result, calls) := RetryFrom(attempt, k, maxAttempts);
      && k <= calls <= maxAttempts
      && result == attempt(calls)
      && (forall j :: k <= j < calls ==> attempt(j).TimesOut?)
      && (result.TimesOut? ==> calls == maxAttempts)
    decreases maxAttempts - k
  {
    if attempt(k).TimesOut? && k < maxAttempts {
      RetryFromOutcome(attempt, k + 1, maxAttempts);
    }
  }

  lemma RetryOutcome<T>(attempt: nat -> Outcome<T>, maxAttempts: int)
    ensures var (result, calls) := Retry(attempt, maxAttempts);
      && calls <= (if maxAttempts < 0 then 0 else maxAttempts)
      && (maxAttempts >= 1 ==> 1 <= calls && result == attempt(calls))
      && (forall j :: 1 <= j < calls ==> attempt(j).TimesOut?)
      && (result.TimesOut? ==> calls == maxAttempts)
      && (maxAttempts < 1 ==> result == Raises(NoAttemptError()))
  {
    if maxAttempts >= 1 {
      RetryFromOutcome(attempt, 1, maxAttempts);
    }
  }

  /** Conversely, the first attempt that does not time out decides the result. */
  lemma {:induction false} RetryFirstDecisive<T>(attempt: nat -> Outcome<T>, maxAttempts: int, j: nat)
    requires 1 <= j <= maxAttempts
    requires forall i :: 1 <= i < j ==> attempt(i).TimesOut?
    requires !attempt(j).TimesOut?
    ensures Retry(attempt, maxAttempts) == (attempt(j), j)
  {
    RetryOutcome(attempt, maxAttempts);
  }

  // ---------------------------------------------------------------- safe_timeout_call

  /** `safe_timeout_call`: the call's value, or the fallback on a timeout or any other exception. */
  function SafeTimeoutCall<T>(outcome: Outcome<T>, fallbackValue: T): (r: T)
    ensures outcome.Completes? ==> r == outcome.value
    ensures !outcome.Completes? ==> r == fallbackValue
  {
    match outcome
    case Completes(v) => v
    case TimesOut(_) => fallbackValue
    case Raises(_) => fallbackValue
  }

  /**
   * `safe_timeout_call` never raises: it is one attempt of `with_retry` with
   * every failure turned into the fallback value.
   */
  lemma SafeTimeoutCallIsOneAttempt<T>(attempt: nat -> Outcome<T>, fallbackValue: T)
    ensures SafeTimeoutCall(attempt(1), fallbackValue) == SafeTimeoutCall(Retry(attempt, 1).0, fallbackValue)
  {
  }
}
