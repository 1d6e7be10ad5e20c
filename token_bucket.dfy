/**
 * The server-side token bucket. A call refills the bucket by the whole
 * number of `rate`-millisecond periods elapsed since the previous call
 * (capped at `capacity`), moves the timestamp to now, and takes one token
 * if there is one. The arithmetic is Java's: the elapsed `long` is cast to
 * `int` before the division, the division truncates, and the `int` sum
 * wraps. The clock is a parameter `now` (milliseconds, a Java `long`).
 */
module TokenBuckets {
  import opened JavaInt
  import opened Wrappers

  /** The exception `getToken` can throw: a zero `rate` divides by zero. */
  datatype RateLimitError = ArithmeticException

  /** The mutable fields of a bucket, as one value. */
  datatype Bucket = Bucket(currentTokens: int32, lastTimestamp: int64)

  /** `(int)(currentTimestamp - lastTimestamp) / rate`: the whole periods elapsed, in Java arithmetic. */
  function NewTokens(rate: int32, last: int64, now: int64): (n: int32)
    requires rate != 0
    ensures 0 <= now - last < TWO_31 && rate > 0 ==> n == (now - last) / rate
  {
    Div32(Wrap32(Wrap64(now - last)), rate)
  }

  /** `Math.min(currentTokens + newTokens, capacity)` with the sum wrapping at 32 bits. */
  function Refill(rate: int32, capacity: int32, b: Bucket, now: int64): (t: int32)
    requires rate != 0
    ensures t <= capacity
    ensures var sum := b.currentTokens + NewTokens(rate, b.lastTimestamp, now);
      -TWO_31 <= sum < TWO_31 ==> t == if sum <= capacity then sum else capacity
  {
    var sum := Wrap32(b.currentTokens + NewTokens(rate, b.lastTimestamp, now));
    if sum <= capacity then sum else capacity
  }

  /**
   * `getToken` as a function of the bucket: the verdict and the new bucket,
   * or the exception a zero rate throws before anything changes.
   */
  function Acquire(rate: int32, capacity: int32, b: Bucket, now: int64): (r: Result<(bool, Bucket), RateLimitError>)
    ensures r.Err? <==> rate == 0
    ensures r.Ok? ==> r.value.1.lastTimestamp == now
    ensures r.Ok? ==> (r.value.0 <==> Refill(rate, capacity, b, now) > 0)
    ensures r.Ok? && r.value.0 ==> r.value.1.currentTokens == Refill(rate, capacity, b, now) - 1
    ensures r.Ok? && !r.value.0 ==> r.value.1.currentTokens == Refill(rate, capacity, b, now)
  {
    if rate == 0 then Err(ArithmeticException)
    else
      var t := Refill(rate, capacity, b, now);
      if t > 0 then Ok((true, Bucket(t - 1, now))) else Ok((false, Bucket(t, now)))
  }

  /** The bucket holds between none and `capacity` tokens. */
  predicate Inv(capacity: int32, b: Bucket)
  {
    0 <= b.currentTokens <= capacity
  }

  /**
   * The bounds are kept by a call made with a positive rate, a clock that
   * has not gone back, less than 2^31 ms elapsed, and a refill sum that fits
   * in an `int`.
   */
  lemma AcquireKeepsInv(rate: int32, capacity: int32, b: Bucket, now: int64)
    requires rate > 0 && Inv(capacity, b)
    requires 0 <= now - b.lastTimestamp < TWO_31
    requires b.currentTokens + (now - b.lastTimestamp) / rate < TWO_31
    ensures Acquire(rate, capacity, b, now).Ok?
    ensures Inv(capacity, Acquire(rate, capacity, b, now).value.1)
  {
    assert (now - b.lastTimestamp) / rate >= 0;
  }

  /** `n` calls of `getToken` at the same instant: how many were granted, and the bucket after them. */
  function Burst(rate: int32, capacity: int32, b: Bucket, n: nat, now: int64): (nat, Bucket)
    requires rate != 0
    decreases n
  {
    if n == 0 then (0, b)
    else
      var step := Acquire(rate, capacity, b, now).value;
      var rest := Burst(rate, capacity, step.1, n - 1, now);
      ((if step.0 then 1 else 0) + rest.0, rest.1)
  }

  function Min(x: int, y: int): int
  {
    if x <= y then x else y
  }

  /**
   * With no time passing, calls are granted while tokens remain: `n` calls
   * on a bucket last refilled at this instant take `min(n, tokens)` of them.
   */
  lemma {:induction false} BurstAtOneInstant(rate: int32, capacity: int32, b: Bucket, n: nat, now: int64)
    requires rate != 0 && b.lastTimestamp == now && Inv(capacity, b)
    ensures Burst(rate, capacity, b, n, now).0 == Min(n, b.currentTokens)
    ensures Burst(rate, capacity, b, n, now).1 == Bucket(b.currentTokens - Min(n, b.currentTokens), now)
    decreases n
  {
    if n > 0 {
      assert NewTokens(rate, now, now) == 0;
      var step := Acquire(rate, capacity, b, now).value;
      assert step.0 <==> b.currentTokens > 0;
      BurstAtOneInstant(rate, capacity, step.1, n - 1, now);
    }
  }

  /** A new bucket (full, timestamp now) grants exactly `capacity` calls at its creation instant and denies the next. */
  lemma FreshBucketGrantsCapacity(rate: int32, capacity: int32, now: int64)
    requires rate != 0 && capacity >= 0
    ensures Burst(rate, capacity, Bucket(capacity, now), capacity, now) == (capacity as nat, Bucket(0, now))
    ensures Acquire(rate, capacity, Bucket(0, now), now) == Ok((false, Bucket(0, now)))
  {
    BurstAtOneInstant(rate, capacity, Bucket(capacity, now), capacity, now);
    assert NewTokens(rate, now, now) == 0;
  }

  /**
   * As written, an idle period of 2^31 ms (about 24.8 days) is cast to a
   * negative `int`: a full bucket with the default rate 100 and capacity 10
   * refills by -21474836 tokens, denies the call, and is left with a
   * negative count that takes as long again to climb back above zero.
   */
  lemma LongIdleDrivesTokensNegative()
    ensures Acquire(100, 10, Bucket(10, 0), TWO_31) == Ok((false, Bucket(-21474826, TWO_31)))
  {
    assert Wrap32(Wrap64(TWO_31 - 0)) == -TWO_31;
    assert Div32(-TWO_31, 100) == -21474836;
  }

  /**
   * As written, with rate 1 the refill sum of a non-empty bucket can wrap
   * even when less than 2^31 ms have passed.
   */
  lemma RefillSumWraps()
    ensures Acquire(1, 10, Bucket(1, 0), TWO_31 - 1) == Ok((false, Bucket(-TWO_31, TWO_31 - 1)))
  {
    assert NewTokens(1, 0, TWO_31 - 1) == TWO_31 - 1;
  }

  /**
   * The refill the bucket evidently intends: the elapsed periods counted
   * without narrowing, added without wrapping, capped at the capacity.
   * Defined for a positive rate and a clock that does not go back.
   */
  function SaturatingRefill(rate: int32, capacity: int32, b: Bucket, now: int64): (t: int32)
    requires rate > 0 && Inv(capacity, b) && b.lastTimestamp <= now
    ensures b.currentTokens <= t <= capacity
    ensures t == capacity <==> b.currentTokens + (now - b.lastTimestamp) / rate >= capacity
  {
    var sum := b.currentTokens + (now - b.lastTimestamp) / rate;
    if sum <= capacity then sum else capacity
  }

  /** `getToken` with the intended refill. */
  function SaturatingAcquire(rate: int32, capacity: int32, b: Bucket, now: int64): (r: (bool, Bucket))
    requires rate > 0 && Inv(capacity, b) && b.lastTimestamp <= now
    ensures r.1.lastTimestamp == now
    ensures r.0 <==> SaturatingRefill(rate, capacity, b, now) > 0
    ensures r.1.currentTokens == SaturatingRefill(rate, capacity, b, now) - (if r.0 then 1 else 0)
  {
    var t := SaturatingRefill(rate, capacity, b, now);
    if t > 0 then (true, Bucket(t - 1, now)) else (false, Bucket(t, now))
  }

  /**
   * With the intended refill the bounds hold however long the bucket was
   * idle, and once `capacity` periods have passed a bucket with capacity
   * grants the call.
   */
  lemma SaturatingAcquireKeepsInv(rate: int32, capacity: int32, b: Bucket, now: int64)
    requires rate > 0 && Inv(capacity, b) && b.lastTimestamp <= now
    ensures Inv(capacity, SaturatingAcquire(rate, capacity, b, now).1)
    ensures capacity > 0 && now - b.lastTimestamp >= capacity * rate ==> SaturatingAcquire(rate, capacity, b, now).0
  {
    if capacity > 0 && now - b.lastTimestamp >= capacity * rate {
      assert (now - b.lastTimestamp) / rate >= capacity by {
        FloorAtLeast(now - b.lastTimestamp, rate, capacity);
      }
    }
  }

  /** A dividend of at least `k` divisors has a quotient of at least `k`. */
  lemma FloorAtLeast(x: int, d: int, k: int)
    requires d > 0 && x >= k * d
    ensures x / d >= k
  {
    var q, r := x / d, x % d;
    assert x == q * d + r && 0 <= r < d;
    assert (k - q) * d <= r by {
      assert (k - q) * d == k * d - q * d;
    }
    NonPositiveFactor(k - q, d);
  }

  /** A multiple of a positive number that stays below it has a non-positive factor. */
  lemma NonPositiveFactor(t: int, d: int)
    requires d > 0 && t * d < d
    ensures t <= 0
  {
  }

  /** A bucket as the server holds it: rate and capacity fixed, tokens and timestamp updated in place. */
  class TokenBucketRateLimit {
    const rate: int32
    const capacity: int32
    var currentTokens: int32
    var lastTimestamp: int64

    function Snapshot(): Bucket
      reads this
    {
      Bucket(currentTokens, lastTimestamp)
    }

    /** A new bucket is full and timed at its creation instant. */
    constructor(rate: int32, capacity: int32, now: int64)
      ensures this.rate == rate && this.capacity == capacity
      ensures Snapshot() == Bucket(capacity, now)
    {
      this.rate := rate;
      this.capacity := capacity;
      currentTokens := capacity;
      lastTimestamp := now;
    }

    /** `getToken` at clock reading `now`. */
    method GetToken(now: int64) returns (r: Result<bool, RateLimitError>)
      modifies this
      ensures rate == 0 ==> r == Err(ArithmeticException) && Snapshot() == old(Snapshot())
      ensures rate != 0 ==> r.Ok? && Acquire(rate, capacity, old(Snapshot()), now) == Ok((r.value, Snapshot()))
    {
      if rate == 0 {
        return Err(ArithmeticException);
      }
      var currentTimestamp := now;
      var newTokens := Div32(Wrap32(Wrap64(currentTimestamp - lastTimestamp)), rate);
      var sum := Wrap32(currentTokens + newTokens);
      currentTokens := if sum <= capacity then sum else capacity;
      lastTimestamp := currentTimestamp;
      if currentTokens > 0 {
        currentTokens := currentTokens - 1;
        return Ok(true);
      }
      return Ok(false);
    }
  }
}
