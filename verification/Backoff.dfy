/** The capped doubling shared by the status publisher, the registration loop and the token loop.
    Durations are Go's time.Duration: 64-bit nanosecond counts whose doubling wraps. */
module Backoff {
  import opened Numbers

  function Min(a: int, b: int): int {
    if a <= b then a else b
  }

  function Pow2(n: nat): nat {
    if n == 0 then 1 else 2 * Pow2(n - 1)
  }

  /** One `backoff *= 2` followed by the cap. */
  function Advance(backoff: int, maxBackoff: int): int {
    var doubled := Wrap64(2 * backoff);
    if doubled > maxBackoff then maxBackoff else doubled
  }

  /** The backoff in force after `n` earlier failures since the last reset. */
  function AfterFailures(initial: int, maxBackoff: int, n: nat): int {
    if n == 0 then initial else Advance(AfterFailures(initial, maxBackoff, n - 1), maxBackoff)
  }

  lemma Doubled(initial: int, n: nat)
    requires 0 <= initial && n > 0
    ensures initial * Pow2(n) == 2 * (initial * Pow2(n - 1)) && 0 <= initial * Pow2(n - 1)
  {
    assert initial * (2 * Pow2(n - 1)) == 2 * (initial * Pow2(n - 1));
    Pow2Grows(n - 1);
  }

  lemma {:induction false} Pow2Grows(n: nat)
    ensures n < Pow2(n)
  {
    if n > 0 {
      Pow2Grows(n - 1);
    }
  }

  /** While the uncapped value fits, no doubling wraps. */
  lemma {:induction false} BelowTheCap(initial: int, maxBackoff: int, n: nat)
    requires 0 <= initial <= maxBackoff <= MAX_INT64
    requires n > 0 ==> 2 * Min(maxBackoff, initial * Pow2(n - 1)) <= MAX_INT64
    ensures AfterFailures(initial, maxBackoff, n) == Min(maxBackoff, initial * Pow2(n))
  {
    if n > 0 {
      Doubled(initial, n);
      if n > 1 {
        Doubled(initial, n - 1);
      }
      BelowTheCap(initial, maxBackoff, n - 1);
    }
  }

  /** Until a reset, the n-th wait is min(max, initial * 2^n), except that an initial value above the
      maximum is used once before the cap applies. */
  lemma {:induction false} ClosedForm(initial: int, maxBackoff: int, n: nat)
    requires 0 <= initial && 0 <= maxBackoff
    requires 2 * initial <= MAX_INT64 && 2 * maxBackoff <= MAX_INT64
    ensures AfterFailures(initial, maxBackoff, n)
         == if n == 0 then initial else Min(maxBackoff, initial * Pow2(n))
  {
    if n > 0 {
      Doubled(initial, n);
      ClosedForm(initial, maxBackoff, n - 1);
    }
  }

  lemma {:induction false} ScaledGrows(initial: int, n: nat)
    requires 0 < initial
    ensures n < initial * Pow2(n)
  {
    if n > 0 {
      ScaledGrows(initial, n - 1);
      Doubled(initial, n);
    }
  }

  /** A cap whose double wraps is reached, and the wait after it is negative. */
  lemma CapWraps(initial: int, maxBackoff: int, n: nat)
    requires 0 < initial <= maxBackoff <= n
    requires maxBackoff <= MAX_INT64 < 2 * maxBackoff
    requires AfterFailures(initial, maxBackoff, n) == Min(maxBackoff, initial * Pow2(n))
    ensures AfterFailures(initial, maxBackoff, n + 1) < 0 <= Min(maxBackoff, initial * Pow2(n + 1))
  {
    ScaledGrows(initial, n);
    ScaledGrows(initial, n + 1);
  }

  /** The n-th wait is min(max, initial * 2^n). */
  ghost predicate Capped(initial: int, maxBackoff: int, n: nat) {
    AfterFailures(initial, maxBackoff, n) == Min(maxBackoff, initial * Pow2(n))
  }

  /** Exactly which configurations obey min(max, initial * 2^n) for every n: doubling the cap itself must
      not wrap. With a larger cap some wait is negative. */
  lemma ClosedFormExactly(initial: int, maxBackoff: int)
    requires 0 <= initial <= maxBackoff <= MAX_INT64
    ensures (forall n: nat :: Capped(initial, maxBackoff, n)) <==> (initial == 0 || 2 * maxBackoff <= MAX_INT64)
  {
    if initial == 0 || 2 * maxBackoff <= MAX_INT64 {
      forall n: nat ensures Capped(initial, maxBackoff, n) {
        BelowTheCap(initial, maxBackoff, n);
      }
    } else if Capped(initial, maxBackoff, maxBackoff) {
      CapWraps(initial, maxBackoff, maxBackoff);
      assert !Capped(initial, maxBackoff, maxBackoff + 1);
    }
  }
}
