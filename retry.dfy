/**
 * retry_with_exponential_backoff and its inner wrapper (app.py:56-97).
 *
 * The decorated function is modelled as a script: call(n) is what the n-th
 * call (0-based) does -- return a value, raise one of the listed errors, or
 * raise any other error. random(n) is what random.random() returns on the
 * n-th draw; the wrapper draws once per sleep. time.sleep is recorded: the
 * wrapper returns the sequence of delays it slept for. time.sleep rejects a
 * negative delay with a ValueError, which ends the wrapper.
 */
module Retry {

  /** What one call of the decorated function does. */
  datatype Attempt<T, E> =
    | Ok(value: T)          // returns a value
    | Listed(error: E)      // raises an error that is in `errors`
    | Other(error: E)       // raises any other error

  /** How the wrapper ends. */
  datatype Outcome<T, E> =
    | Returned(value: T)                  // the decorated function's value
    | MaxRetriesExceeded(maxRetries: int) // "Maximum number of retries (max_retries) exceeded."
    | Propagated(error: E)                // an error not in `errors`, re-raised unchanged
    | NegativeSleep(delay: real)          // the ValueError time.sleep raises for a negative delay

  /** The decorator's keyword arguments other than `func` and `errors`. */
  datatype Policy = Policy(initialDelay: real, exponentialBase: real, jitter: bool, maxRetries: int)

  /** The defaults: initial_delay 1, exponential_base 2, jitter True, max_retries 10. */
  const DEFAULT_POLICY: Policy := Policy(1.0, 2.0, true, 10)

  /** Python multiplies by a bool as by 1 or 0. */
  function JitterFactor(p: Policy): real
  {
    if p.jitter then 1.0 else 0.0
  }

  /**
   * How many listed errors can be retried: the wrapper gives up on the
   * listed error that makes num_retries exceed max_retries.
   */
  function RetryBudget(maxRetries: int): nat
  {
    if maxRetries < 0 then 0 else maxRetries
  }

  /**
   * The value of `delay` after n retries: initial_delay, and each retry
   * multiplies it by exponential_base * (1 + jitter * random.random()).
   * random(n - 1) is the draw made for the n-th sleep.
   */
  function Delay(p: Policy, random: nat -> real, n: nat): real
  {
    if n == 0 then p.initialDelay
    else Delay(p, random, n - 1) * (p.exponentialBase * (1.0 + JitterFactor(p) * random(n - 1)))
  }

  function Pow(b: real, n: nat): real
  {
    if n == 0 then 1.0 else Pow(b, n - 1) * b
  }

  /**
   * What the wrapper does, stated independently of its loop: the decorated
   * function is called `calls` times, every call but the last raised a
   * listed error and was followed by a sleep of non-negative length, and
   * the last call decides the outcome -- its value, its unlisted error, the
   * "maximum number of retries" error once the retry budget is spent, or,
   * when the delay computed for its retry is negative, the rejected sleep.
   * The wrapper never calls more than budget + 1 times.
   */
  ghost predicate Explains<T, E>(p: Policy, call: nat -> Attempt<T, E>, random: nat -> real,
                                 result: Outcome<T, E>, calls: nat)
  {
    1 <= calls <= RetryBudget(p.maxRetries) + 1 &&
    (forall n :: 0 <= n < calls - 1 ==> call(n).Listed?) &&
    (forall n :: 1 <= n < calls ==> 0.0 <= Delay(p, random, n)) &&
    match result
    case Returned(v) => call(calls - 1) == Ok(v)
    case Propagated(e) => call(calls - 1) == Other(e)
    case MaxRetriesExceeded(m) =>
      m == p.maxRetries && call(calls - 1).Listed? && calls == RetryBudget(p.maxRetries) + 1
    case NegativeSleep(d) =>
      call(calls - 1).Listed? && calls <= RetryBudget(p.maxRetries) &&
      d == Delay(p, random, calls) && d < 0.0
  }

  /** Explains together with the sleeps: one sleep per retried error, each for the delay of that retry. */
  ghost predicate Trace<T, E>(p: Policy, call: nat -> Attempt<T, E>, random: nat -> real,
                              result: Outcome<T, E>, calls: nat, sleeps: seq<real>)
  {
    Explains(p, call, random, result, calls) &&
    |sleeps| == calls - 1 &&
    forall n :: 0 <= n < |sleeps| ==> sleeps[n] == Delay(p, random, n + 1)
  }

  /**
   * wrapper(*args, **kwargs). Returns how the wrapper ends, how many times
   * it called the decorated function, and the delays it slept for, in order.
   */
  method Wrapper<T, E>(p: Policy, call: nat -> Attempt<T, E>, random: nat -> real)
    returns (result: Outcome<T, E>, calls: nat, sleeps: seq<real>)
    ensures Trace(p, call, random, result, calls, sleeps)
  {
    var numRetries := 0;
    var delay := p.initialDelay;
    calls := 0;
    sleeps := [];
    while true
      invariant calls == numRetries == |sleeps| <= RetryBudget(p.maxRetries)
      invariant forall n :: 0 <= n < calls ==> call(n).Listed?
      invariant delay == Delay(p, random, numRetries)
      invariant forall n :: 0 <= n < |sleeps| ==> sleeps[n] == Delay(p, random, n + 1)
      invariant forall n :: 1 <= n <= numRetries ==> 0.0 <= Delay(p, random, n)
      decreases RetryBudget(p.maxRetries) - numRetries
    {
      var attempt := call(calls);
      calls := calls + 1;
      match attempt
      case Ok(v) =>
        result := Returned(v);
        return;
      case Other(e) =>
        result := Propagated(e);
        return;
      case Listed(_) =>
        numRetries := numRetries + 1;
        if numRetries > p.maxRetries {
          result := MaxRetriesExceeded(p.maxRetries);
          return;
        }
        delay := delay * (p.exponentialBase * (1.0 + JitterFactor(p) * random(|sleeps|)));
        if delay < 0.0 {
          result := NegativeSleep(delay);
          return;
        }
        sleeps := sleeps + [delay];
    }
  }

  // ---------------------------------------------------------------------
  // Properties of the wrapper's behaviour
  // ---------------------------------------------------------------------

  /** The script and the draws decide the outcome: there is only one way to explain it. */
  lemma ExplainsUnique<T, E>(p: Policy, call: nat -> Attempt<T, E>, random: nat -> real,
                             r1: Outcome<T, E>, c1: nat, r2: Outcome<T, E>, c2: nat)
    requires Explains(p, call, random, r1, c1) && Explains(p, call, random, r2, c2)
    ensures r1 == r2 && c1 == c2
  {
    if c1 < c2 {
      assert false;
    } else if c2 < c1 {
      assert false;
    }
  }

  /**
   * k listed errors, k <= max_retries, each followed by a sleep of
   * non-negative length, then a value: the wrapper returns that value
   * after exactly k + 1 calls and k sleeps.
   */
  lemma SucceedsAfterListed<T, E>(p: Policy, call: nat -> Attempt<T, E>, random: nat -> real,
                                  k: nat, v: T, result: Outcome<T, E>, calls: nat, sleeps: seq<real>)
    requires k <= RetryBudget(p.maxRetries)
    requires forall n :: 0 <= n < k ==> call(n).Listed?
    requires forall n :: 1 <= n <= k ==> 0.0 <= Delay(p, random, n)
    requires call(k) == Ok(v)
    requires Trace(p, call, random, result, calls, sleeps)
    ensures result == Returned(v) && calls == k + 1 && |sleeps| == k
  {
    ExplainsUnique(p, call, random, result, calls, Returned(v), k + 1);
  }

  /**
   * k listed errors, k <= max_retries, each followed by a sleep of
   * non-negative length, then an unlisted error: that error propagates
   * unchanged from call k + 1, with no further calls or sleeps.
   */
  lemma OtherPropagates<T, E>(p: Policy, call: nat -> Attempt<T, E>, random: nat -> real,
                              k: nat, e: E, result: Outcome<T, E>, calls: nat, sleeps: seq<real>)
    requires k <= RetryBudget(p.maxRetries)
    requires forall n :: 0 <= n < k ==> call(n).Listed?
    requires forall n :: 1 <= n <= k ==> 0.0 <= Delay(p, random, n)
    requires call(k) == Other(e)
    requires Trace(p, call, random, result, calls, sleeps)
    ensures result == Propagated(e) && calls == k + 1 && |sleeps| == k
  {
    ExplainsUnique(p, call, random, result, calls, Propagated(e), k + 1);
  }

  /**
   * Every call raises a listed error and no computed delay is negative: the
   * wrapper gives up with the "maximum number of retries" error after
   * exactly max_retries + 1 calls and max_retries sleeps (one call and no
   * sleep when max_retries is negative).
   */
  lemma GivesUp<T, E>(p: Policy, call: nat -> Attempt<T, E>, random: nat -> real,
                      result: Outcome<T, E>, calls: nat, sleeps: seq<real>)
    requires forall n :: 0 <= n <= RetryBudget(p.maxRetries) ==> call(n).Listed?
    requires forall n :: 1 <= n <= RetryBudget(p.maxRetries) ==> 0.0 <= Delay(p, random, n)
    requires Trace(p, call, random, result, calls, sleeps)
    ensures result == MaxRetriesExceeded(p.maxRetries)
    ensures calls == RetryBudget(p.maxRetries) + 1 && |sleeps| == RetryBudget(p.maxRetries)
  {
    assert call(calls - 1).Listed?;
  }

  /**
   * The first k retries sleep, but the delay computed for retry k + 1 is
   * negative: time.sleep rejects it, and the wrapper ends with that error
   * after k + 1 calls and k sleeps, without calling again.
   */
  lemma NegativeDelayRejected<T, E>(p: Policy, call: nat -> Attempt<T, E>, random: nat -> real,
                                    k: nat, result: Outcome<T, E>, calls: nat, sleeps: seq<real>)
    requires k < RetryBudget(p.maxRetries)
    requires forall n :: 0 <= n <= k ==> call(n).Listed?
    requires forall n :: 1 <= n <= k ==> 0.0 <= Delay(p, random, n)
    requires Delay(p, random, k + 1) < 0.0
    requires Trace(p, call, random, result, calls, sleeps)
    ensures result == NegativeSleep(Delay(p, random, k + 1)) && calls == k + 1 && |sleeps| == k
  {
    ExplainsUnique(p, call, random, result, calls, NegativeSleep(Delay(p, random, k + 1)), k + 1);
  }

  /**
   * initial_delay -1, exponential_base 2, no jitter: the first listed error
   * leads to a sleep of -2, which time.sleep rejects, so a value the second
   * call would have returned is never reached.
   */
  lemma NegativeInitialDelay<T, E>(call: nat -> Attempt<T, E>, random: nat -> real, v: T,
                                   result: Outcome<T, E>, calls: nat, sleeps: seq<real>)
    requires call(0).Listed? && call(1) == Ok(v)
    requires Trace(Policy(-1.0, 2.0, false, 10), call, random, result, calls, sleeps)
    ensures result == NegativeSleep(-2.0) && calls == 1 && sleeps == []
  {
    var p := Policy(-1.0, 2.0, false, 10);
    assert Delay(p, random, 1) == -2.0;
    NegativeDelayRejected(p, call, random, 0, result, calls, sleeps);
  }

  /**
   * With the default policy and draws from [0, 1), a call that keeps
   * failing is made 11 times with 10 sleeps in between.
   */
  lemma DefaultGivesUp<T, E>(call: nat -> Attempt<T, E>, random: nat -> real,
                             result: Outcome<T, E>, calls: nat, sleeps: seq<real>)
    requires forall n :: 0 <= n <= 10 ==> call(n).Listed?
    requires forall k :: 0.0 <= random(k) < 1.0
    requires Trace(DEFAULT_POLICY, call, random, result, calls, sleeps)
    ensures result == MaxRetriesExceeded(10) && calls == 11 && |sleeps| == 10
  {
    forall n | 1 <= n <= 10
      ensures 0.0 <= Delay(DEFAULT_POLICY, random, n)
    {
      DelayNonNegative(DEFAULT_POLICY, random, n);
    }
    GivesUp(DEFAULT_POLICY, call, random, result, calls, sleeps);
  }

  // ---------------------------------------------------------------------
  // Properties of the delays
  // ---------------------------------------------------------------------

  /** Without jitter the n-th sleep is initial_delay * exponential_base^n. */
  lemma {:induction false} NoJitterDelay(p: Policy, random: nat -> real, n: nat)
    requires !p.jitter
    ensures Delay(p, random, n) == p.initialDelay * Pow(p.exponentialBase, n)
  {
    if n > 0 {
      NoJitterDelay(p, random, n - 1);
      calc {
        Delay(p, random, n);
        Delay(p, random, n - 1) * (p.exponentialBase * (1.0 + 0.0 * random(n - 1)));
        (p.initialDelay * Pow(p.exponentialBase, n - 1)) * p.exponentialBase;
        p.initialDelay * (Pow(p.exponentialBase, n - 1) * p.exponentialBase);
      }
    }
  }

  /** With a non-negative start and base and draws from [0, 1), no delay is negative. */
  lemma {:induction false} DelayNonNegative(p: Policy, random: nat -> real, n: nat)
    requires 0.0 <= p.initialDelay && 0.0 <= p.exponentialBase
    requires forall k :: 0.0 <= random(k) < 1.0
    ensures 0.0 <= Delay(p, random, n)
  {
    if n > 0 {
      DelayNonNegative(p, random, n - 1);
      var f := p.exponentialBase * (1.0 + JitterFactor(p) * random(n - 1));
      assert 0.0 <= f;
      MulNonNegative(Delay(p, random, n - 1), f);
    }
  }

  /**
   * Each retry multiplies the delay by at least exponential_base and, with
   * jitter, by less than twice it; without jitter by exactly it.
   */
  lemma DelayGrowth(p: Policy, random: nat -> real, n: nat)
    requires 0.0 <= p.initialDelay && 0.0 <= p.exponentialBase
    requires forall k :: 0.0 <= random(k) < 1.0
    ensures Delay(p, random, n) * p.exponentialBase <= Delay(p, random, n + 1)
    ensures Delay(p, random, n + 1) <= Delay(p, random, n) * (2.0 * p.exponentialBase)
    ensures !p.jitter ==> Delay(p, random, n + 1) == Delay(p, random, n) * p.exponentialBase
  {
    DelayNonNegative(p, random, n);
    ScaledBetween(Delay(p, random, n), p.exponentialBase, JitterFactor(p) * random(n), Delay(p, random, n + 1));
  }

  /** next = d * (b * (1 + j)) lies between d * b and d * (2 * b) for non-negative d, b and j in [0, 1]. */
  lemma ScaledBetween(d: real, b: real, j: real, next: real)
    requires 0.0 <= d && 0.0 <= b && 0.0 <= j <= 1.0 && next == d * (b * (1.0 + j))
    ensures d * b <= next <= d * (2.0 * b)
    ensures j == 0.0 ==> next == d * b
  {
    var x := d * b;
    MulNonNegative(d, b);
    assert next == x + x * j;
    assert d * (2.0 * b) == x + x;
    MulNonNegative(x, j);
    MulMonotone(x, j, 1.0);
  }

  lemma MulNonNegative(x: real, y: real)
    requires 0.0 <= x && 0.0 <= y
    ensures 0.0 <= x * y
  {
  }

  lemma MulMonotone(x: real, y: real, z: real)
    requires 0.0 <= x && y <= z
    ensures x * y <= x * z
  {
    assert x * z - x * y == x * (z - y);
    MulNonNegative(x, z - y);
  }
}
