/** Time budgets and back-off, with 64-bit signed durations. */
module RetryTimes {
  import opened Wrappers

  const TWO63: int := 0x8000_0000_0000_0000
  const TWO64: int := 0x1_0000_0000_0000_0000

  /** The 64-bit signed value an integer wraps to. */
  function Wrap(x: int): (r: int)
    ensures -TWO63 <= r < TWO63
    ensures -TWO63 <= x < TWO63 ==> r == x
  {
    (x + TWO63) % TWO64 - TWO63
  }

  predicate Fits(x: int) {
    -TWO63 <= x < TWO63
  }

  /** Division that truncates toward zero. */
  function Quotient(a: int, b: int): int
    requires b > 0
  {
    if a >= 0 then a / b else -(-a / b)
  }

  // ----- the time-out of one attempt, derived from the total limit -----

  /** `None` is the division by zero, which panics. */
  function AttemptTimeout(retryTimes: nat, interval: int, limit: int): Option<int>
    requires retryTimes < TWO63
  {
    if retryTimes == 0 then None
    else Some(Wrap(Quotient(Wrap(limit + interval), retryTimes) - interval))
  }

  /** The fixed interval policy. */
  function FixedInterval(interval: int, retryNum: nat): int {
    if retryNum == 0 then 0 else interval
  }

  /** What `k` attempts take when each runs into its time-out: every attempt waits its interval first. */
  function TotalTime(timeout: int, interval: int, k: nat): int {
    if k == 0 then 0 else TotalTime(timeout, interval, k - 1) + FixedInterval(interval, k - 1) + timeout
  }

  lemma {:induction false} TotalTimeExact(timeout: int, interval: int, k: nat)
    requires k >= 1
    ensures TotalTime(timeout, interval, k) == k * timeout + (k - 1) * interval
  {
    if k > 1 {
      TotalTimeExact(timeout, interval, k - 1);
      assert (k - 1) * timeout + timeout == k * timeout;
      assert (k - 2) * interval + interval == (k - 1) * interval;
    } else {
      assert TotalTime(timeout, interval, 0) == 0;
    }
  }

  lemma MulMonotone(a: int, x: int, y: int)
    requires a >= 0 && x <= y
    ensures a * x <= a * y
  {}

  lemma Distribute(a: int, x: int, y: int)
    ensures a * (x - y) == a * x - a * y
  {}

  lemma DivisionBounds(a: int, b: int, q: int, m: int)
    requires a >= 0 && a == b * q + m && 0 <= m < b
    ensures 0 <= q <= a
  {
    if q < 0 {
      MulMonotone(b, q, -1);
    } else {
      MulMonotone(q, 1, b);
    }
  }

  lemma QuotientBounds(a: int, b: int)
    requires b > 0
    ensures a >= 0 ==> a - b < b * Quotient(a, b) <= a && 0 <= Quotient(a, b) <= a
    ensures a < 0 ==> a <= b * Quotient(a, b) < a + b && a <= Quotient(a, b) <= 0
  {
    if a >= 0 {
      DivisionBounds(a, b, a / b, a % b);
    } else {
      DivisionBounds(-a, b, -a / b, -a % b);
      assert b * -(-a / b) == -(b * (-a / b));
    }
  }

  /**
   * The derived time-outs use up the limit: all attempts and the intervals between them fall short of it by
   * fewer units than there are attempts. When limit plus interval is negative the truncation goes the other way.
   */
  lemma BudgetMet(retryTimes: nat, interval: int, limit: int)
    requires 1 <= retryTimes < TWO63 && Fits(limit + interval)
    requires Fits(Quotient(limit + interval, retryTimes) - interval)
    ensures var total := TotalTime(AttemptTimeout(retryTimes, interval, limit).value, interval, retryTimes);
      && (limit + interval >= 0 ==> limit - retryTimes < total <= limit)
      && (limit + interval < 0 ==> limit <= total < limit + retryTimes)
  {
    var q := Quotient(limit + interval, retryTimes);
    TotalTimeExact(q - interval, interval, retryTimes);
    QuotientBounds(limit + interval, retryTimes);
    Distribute(retryTimes, q, interval);
    Distribute(interval, retryTimes, 1);
  }

  /** With durations that are not negative nothing can overflow but the first sum. */
  lemma NoOverflow(retryTimes: nat, interval: int, limit: int)
    requires 1 <= retryTimes < TWO63 && 0 <= interval && 0 <= limit && Fits(limit + interval)
    ensures Fits(Quotient(limit + interval, retryTimes) - interval)
  {
    QuotientBounds(limit + interval, retryTimes);
  }

  /** The whole budget law for durations that are not negative. */
  lemma BudgetLaw(retryTimes: nat, interval: int, limit: int)
    requires 1 <= retryTimes < TWO63 && 0 <= interval && 0 <= limit && Fits(limit + interval)
    ensures AttemptTimeout(retryTimes, interval, limit).Some?
    ensures var total := TotalTime(AttemptTimeout(retryTimes, interval, limit).value, interval, retryTimes);
      limit - retryTimes < total <= limit
  {
    NoOverflow(retryTimes, interval, limit);
    BudgetMet(retryTimes, interval, limit);
  }

  /** An attempt gets a time-out that is not negative iff the limit covers the intervals alone. */
  lemma TimeoutSign(retryTimes: nat, interval: int, limit: int)
    requires 1 <= retryTimes < TWO63 && 0 <= interval && 0 <= limit && Fits(limit + interval)
    ensures AttemptTimeout(retryTimes, interval, limit).value >= 0 <==> limit >= (retryTimes - 1) * interval
  {
    NoOverflow(retryTimes, interval, limit);
    var q := Quotient(limit + interval, retryTimes);
    QuotientBounds(limit + interval, retryTimes);
    SignOf(retryTimes, q, interval, limit);
  }

  lemma SignOf(n: nat, q: int, interval: int, limit: int)
    requires limit + interval - n < n * q <= limit + interval
    ensures q >= interval <==> limit >= (n - 1) * interval
  {
    Distribute(interval, n, 1);
    if q >= interval {
      MulMonotone(n, interval, q);
    } else {
      MulMonotone(n, q, interval - 1);
      Distribute(n, interval, 1);
    }
  }

  // ----- exponential back-off -----

  function Pow2(k: nat): (r: nat)
    ensures r >= 1
  {
    if k == 0 then 1 else 2 * Pow2(k - 1)
  }

  /** One, shifted left by `k` in 64 signed bits. */
  function ShiftedOne(k: nat): int {
    if k < 63 then Pow2(k) else if k == 63 then -TWO63 else 0
  }

  /** The factor of the back-off: the shifted one, shifted back arithmetically by one. */
  function Factor(k: nat): int {
    ShiftedOne(k) / 2
  }

  /** The unjittered delay before an attempt. */
  function Backoff(duration: int, exponential: bool, retryNum: nat): int {
    if retryNum == 0 then 0
    else if !exponential then duration
    else Wrap(duration * Factor(retryNum))
  }

  function TotalBackoff(duration: int, exponential: bool, k: nat): int {
    if k == 0 then 0 else TotalBackoff(duration, exponential, k - 1) + Backoff(duration, exponential, k)
  }

  lemma {:induction false} Pow2Monotone(j: nat, k: nat)
    requires j <= k
    ensures Pow2(j) <= Pow2(k)
    decreases k
  {
    if j < k {
      Pow2Monotone(j, k - 1);
    }
  }

  lemma Pow2At62()
    ensures Pow2(62) == TWO63 / 2
  {
    assert Pow2(8) == 256;
    assert Pow2(16) == 0x1_0000;
    assert Pow2(24) == 0x100_0000;
    assert Pow2(32) == 0x1_0000_0000;
    assert Pow2(40) == 0x100_0000_0000;
    assert Pow2(48) == 0x1_0000_0000_0000;
    assert Pow2(56) == 0x100_0000_0000_0000;
    assert Pow2(62) == 0x4000_0000_0000_0000;
  }

  lemma BackoffShort(duration: int, k: nat)
    requires 0 <= duration && 1 <= k <= 62
    ensures Backoff(duration, true, k) == duration * Pow2(k - 1) <==> duration * Pow2(k - 1) < TWO63
  {
    assert Factor(k) == Pow2(k - 1);
    MulMonotone(duration, 0, Pow2(k - 1));
  }

  lemma BackoffLong(duration: int, k: nat)
    requires 0 <= duration && k >= 64
    ensures Backoff(duration, true, k) == 0
    ensures duration * Pow2(k - 1) == 0 <==> duration == 0
  {
    assert Factor(k) == 0 && duration * 0 == 0;
    MulMonotone(duration, 1, Pow2(k - 1));
  }

  lemma Backoff63(duration: int)
    requires 0 <= duration < TWO63
    ensures Backoff(duration, true, 63) == duration * Pow2(62) <==> duration == 0
  {
    Pow2At62();
    assert Factor(63) == -(TWO63 / 2);
    WrapNegative(duration, TWO63 / 2);
  }

  /** The delay doubles with every retry exactly as long as the product fits and at most 62 bits are shifted. */
  lemma BackoffExact(duration: int, k: nat)
    requires 0 <= duration < TWO63 && k >= 1
    ensures Backoff(duration, true, k) == duration * Pow2(k - 1)
      <==> duration == 0 || (k <= 62 && duration * Pow2(k - 1) < TWO63)
  {
    if k <= 62 {
      BackoffShort(duration, k);
    } else if k == 63 {
      Backoff63(duration);
    } else {
      BackoffLong(duration, k);
    }
  }

  /** A positive multiple of a quarter of the range never wraps from its negative to itself. */
  lemma WrapNegative(duration: int, f: int)
    requires f == TWO63 / 2 && 0 <= duration < TWO63
    ensures Wrap(duration * -f) == duration * f <==> duration == 0
  {
    if duration == 1 {
      assert duration * -f == -f;
    } else if duration >= 2 {
      assert duration * f >= 2 * f;
    }
  }

  /** Unjittered exponential back-off over `k` retries sums to `duration * (2^k - 1)`. */
  lemma {:induction false} BackoffSum(duration: int, k: nat)
    requires 0 <= duration < TWO63 && k <= 62
    requires k >= 1 ==> duration * Pow2(k - 1) < TWO63
    ensures TotalBackoff(duration, true, k) == duration * (Pow2(k) - 1)
  {
    if k > 0 {
      if k > 1 {
        MulMonotone(duration, Pow2(k - 2), Pow2(k - 1));
      }
      BackoffSum(duration, k - 1);
      BackoffShort(duration, k);
      SumStep(duration, Pow2(k - 1));
    }
  }

  lemma SumStep(d: int, y: int)
    ensures d * (y - 1) + d * y == d * (2 * y - 1)
  {}

  /** Without the exponential option the delays are all the same. */
  lemma {:induction false} ConstantSum(duration: int, k: nat)
    ensures TotalBackoff(duration, false, k) == duration * k
  {
    if k > 0 {
      ConstantSum(duration, k - 1);
      assert duration * (k - 1) + duration == duration * k;
    } else {
      assert duration * 0 == 0;
    }
  }

  /** Past 62 retries the shift loses its bit: the delay is negative or zero for the shortest duration, then zero. */
  lemma BackoffOverflows()
    ensures Backoff(1, true, 63) < 0
    ensures forall k: nat | k >= 64 :: Backoff(1, true, k) == 0
  {
    assert Factor(63) == -TWO63 / 2;
  }
}
