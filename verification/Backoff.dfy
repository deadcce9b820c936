/** The retry delays of the job queue and of the external API client. */
module Backoff {
  import opened Text

  function Pow(x: real, n: nat): real { if n == 0 then 1.0 else x * Pow(x, n - 1) }

  function MinReal(a: real, b: real): real { if a < b then a else b }
  function MaxReal(a: real, b: real): real { if a < b then b else a }

  /** `RetryPolicy` of the job queue: whole seconds. */
  datatype RetryPolicy = RetryPolicy(maxAttempts: int, baseDelay: int, multiplier: real, maxDelay: int)

  function JobDelay(p: RetryPolicy, attempt: int): int {
    if attempt <= 1 then 0
    else Max(0, Min(p.maxDelay, Truncate(Scaled(p.baseDelay as real, p.multiplier, attempt - 2))))
  }

  /** The base delay after `n` multiplications. */
  function Scaled(base: real, multiplier: real, n: nat): real { base * Pow(multiplier, n) }

  /** `RetryStrategy` of the API client: fractions of a second. */
  datatype RetryStrategy = RetryStrategy(maxAttempts: int, baseDelay: real, multiplier: real, maxDelay: real)

  function CallDelay(p: RetryStrategy, attempt: int): real {
    if attempt <= 1 then 0.0
    else MaxReal(0.0, MinReal(p.maxDelay, Scaled(p.baseDelay, p.multiplier, attempt - 2)))
  }

  lemma MultiplyMonotone(a: real, b: real, c: real)
    requires a <= b && c >= 0.0
    ensures c * a <= c * b
  {
  }

  lemma {:induction false} PowGrows(x: real, m: nat, n: nat)
    requires x >= 1.0 && m <= n
    ensures 1.0 <= Pow(x, m) <= Pow(x, n)
    decreases n
  {
    if n > 0 {
      PowGrows(x, if m < n then m else n - 1, n - 1);
      MultiplyMonotone(1.0, x, Pow(x, n - 1));
      if m == n {
        PowGrows(x, 0, n - 1);
      }
    }
  }

  lemma ScaledGrows(base: real, multiplier: real, m: nat, n: nat)
    requires multiplier >= 1.0 && base >= 0.0 && m <= n
    ensures Scaled(base, multiplier, m) <= Scaled(base, multiplier, n)
  {
    PowGrows(multiplier, m, n);
    MultiplyMonotone(Pow(multiplier, m), Pow(multiplier, n), base);
  }

  lemma TruncateMonotone(x: real, y: real)
    requires x <= y
    ensures Truncate(x) <= Truncate(y)
  {
  }

  /** With multiplier at least 1 and a base that is not negative, delays never fall and stay within the cap. */
  lemma JobDelaysGrow(p: RetryPolicy, m: int, n: int)
    requires p.multiplier >= 1.0 && p.baseDelay >= 0 && m <= n
    ensures 0 <= JobDelay(p, m) <= JobDelay(p, n) <= Max(0, p.maxDelay)
  {
    if m >= 2 {
      ScaledGrows(p.baseDelay as real, p.multiplier, m - 2, n - 2);
      TruncateMonotone(Scaled(p.baseDelay as real, p.multiplier, m - 2),
                      Scaled(p.baseDelay as real, p.multiplier, n - 2));
    }
  }

  lemma CallDelaysGrow(p: RetryStrategy, m: int, n: int)
    requires p.multiplier >= 1.0 && p.baseDelay >= 0.0 && m <= n
    ensures 0.0 <= CallDelay(p, m) <= CallDelay(p, n) <= MaxReal(0.0, p.maxDelay)
  {
    if m >= 2 {
      ScaledGrows(p.baseDelay, p.multiplier, m - 2, n - 2);
    }
  }

  // ---- The amounts ----

  /** `x` brought into the range from 0 to the cap; a cap below 0 leaves 0. */
  predicate Within(y: real, x: real, cap: real) {
    if cap <= 0.0 || x <= 0.0 then y == 0.0 else y == if x <= cap then x else cap
  }

  /**
   * The amounts of all delays: none before the first attempt, the base before the second, and every
   * further one the multiplier times the one before it, as long as that one is within the cap.
   */
  lemma CallDelayAmounts(p: RetryStrategy, n: int)
    ensures n <= 1 ==> CallDelay(p, n) == 0.0
    ensures n == 2 ==> Within(CallDelay(p, n), p.baseDelay, p.maxDelay)
    ensures n >= 2 && 0.0 < CallDelay(p, n) < p.maxDelay ==>
            Within(CallDelay(p, n + 1), p.multiplier * CallDelay(p, n), p.maxDelay)
  {
    if n >= 2 {
      ScaledStep(p.baseDelay, p.multiplier, n - 2);
    }
  }

  lemma ScaledStep(base: real, multiplier: real, n: nat)
    ensures Scaled(base, multiplier, 0) == base
    ensures Scaled(base, multiplier, n + 1) == multiplier * Scaled(base, multiplier, n)
  {
    assert Pow(multiplier, n + 1) == multiplier * Pow(multiplier, n);
    Reorder(base, multiplier, Pow(multiplier, n));
  }

  lemma Reorder(a: real, b: real, c: real)
    ensures a * (b * c) == b * (a * c)
  {
  }

  /** The job queue waits the whole seconds of what the client would wait under the same numbers. */
  lemma JobDelayAmounts(p: RetryPolicy, n: int)
    ensures var q := RetryStrategy(p.maxAttempts, p.baseDelay as real, p.multiplier, p.maxDelay as real);
            JobDelay(p, n) as real <= CallDelay(q, n) < JobDelay(p, n) as real + 1.0
  {
    if n >= 2 {
      WholeSeconds(Scaled(p.baseDelay as real, p.multiplier, n - 2), p.maxDelay);
    }
  }

  lemma WholeSeconds(x: real, cap: int)
    ensures Max(0, Min(cap, Truncate(x))) as real <= MaxReal(0.0, MinReal(cap as real, x))
    ensures MaxReal(0.0, MinReal(cap as real, x)) < Max(0, Min(cap, Truncate(x))) as real + 1.0
  {
  }
}
