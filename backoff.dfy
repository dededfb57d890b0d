/**
 * The wait after the n-th consecutive failed poll:
 * `min(CHECK_INTERVAL_SECONDS * 2 ** n, MAX_BACKOFF_SECONDS)`. Python
 * integers do not overflow, so neither does this model.
 */
module Backoff {

  /** Five minutes between successful polls. */
  const CheckIntervalSeconds: nat := 5 * 60
  /** Thirty minutes at most between retries. */
  const MaxBackoffSeconds: nat := 30 * 60

  function Pow2(n: nat): nat
  {
    if n == 0 then 1 else 2 * Pow2(n - 1)
  }

  function Min(a: int, b: int): int
  {
    if a <= b then a else b
  }

  /** The wait after `failures` consecutive failures; never longer than `cap`. */
  function BackoffWait(base: nat, cap: nat, failures: nat): (w: nat)
    ensures w <= cap
  {
    Min(base * Pow2(failures), cap)
  }

  lemma {:induction false} Pow2Monotone(n: nat, m: nat)
    requires n <= m
    ensures 1 <= Pow2(n) <= Pow2(m)
  {
    if n < m {
      Pow2Monotone(n, m - 1);
    } else if n > 0 {
      Pow2Monotone(n - 1, n - 1);
    }
  }

  lemma {:induction false} Pow2ExceedsExponent(n: nat)
    ensures Pow2(n) > n
  {
    if n > 0 {
      Pow2ExceedsExponent(n - 1);
    }
  }

  /** The wait never exceeds the cap, and is the doubled base while below it. */
  lemma BackoffBounded(base: nat, cap: nat, failures: nat)
    ensures BackoffWait(base, cap, failures) <= cap
    ensures BackoffWait(base, cap, failures) <= base * Pow2(failures)
    ensures BackoffWait(base, cap, failures) < cap ==> BackoffWait(base, cap, failures) == base * Pow2(failures)
  {
  }

  /** More failures never shorten the wait. */
  lemma BackoffMonotone(base: nat, cap: nat, n: nat, m: nat)
    requires n <= m
    ensures BackoffWait(base, cap, n) <= BackoffWait(base, cap, m)
  {
    Pow2Monotone(n, m);
    assert base * Pow2(n) <= base * Pow2(m) by {
      MulMonotone(base, Pow2(n), Pow2(m));
    }
  }

  lemma MulMonotone(a: nat, x: nat, y: nat)
    requires x <= y
    ensures a * x <= a * y
  {
  }

  /** Each further failure doubles the wait until the cap is reached. */
  lemma BackoffDoubles(base: nat, cap: nat, n: nat)
    ensures BackoffWait(base, cap, n + 1) == Min(2 * BackoffWait(base, cap, n), cap)
  {
  }

  /** With a positive base, every failure count from `cap` on waits exactly `cap`. */
  lemma BackoffReachesCap(base: nat, cap: nat, n: nat)
    requires base > 0 && n >= cap
    ensures BackoffWait(base, cap, n) == cap
  {
    Pow2ExceedsExponent(n);
    MulMonotone(Pow2(n), 1, base);
    assert Pow2(n) * 1 <= Pow2(n) * base;
    assert base * Pow2(n) >= cap;
  }

  /** With the configured constants the waits after 1, 2, 3 and more failures are 600, 1200, 1800, 1800, ... */
  lemma ConfiguredSchedule(n: nat)
    requires n >= 1
    ensures BackoffWait(CheckIntervalSeconds, MaxBackoffSeconds, 1) == 600
    ensures BackoffWait(CheckIntervalSeconds, MaxBackoffSeconds, 2) == 1200
    ensures n >= 3 ==> BackoffWait(CheckIntervalSeconds, MaxBackoffSeconds, n) == MaxBackoffSeconds
    ensures 2 * CheckIntervalSeconds <= BackoffWait(CheckIntervalSeconds, MaxBackoffSeconds, n) <= MaxBackoffSeconds
  {
    assert Pow2(3) == 8;
    if n >= 3 {
      Pow2Monotone(3, n);
    }
    Pow2Monotone(1, n);
  }
}
