/**
 * The registry that gives each service interface its own token bucket,
 * created on first use with the default rate and capacity and shared by
 * every later request for that interface.
 */
module RateLimitRegistry {
  import opened JavaInt
  import opened Wrappers
  import opened TokenBuckets

  /** Bucket size of every bucket the registry creates. */
  const DEFAULT_CAPACITY: int32 := 10
  /** Milliseconds per token of every bucket the registry creates. */
  const DEFAULT_RATE: int32 := 100

  class RateLimitProvider {
    /** Interface name to its bucket; entries are only ever added. */
    var rateLimitMap: map<string, TokenBucketRateLimit>

    constructor()
      ensures rateLimitMap == map[]
    {
      rateLimitMap := map[];
    }

    /**
     * `getRateLimit` at clock reading `now`: the stored bucket of
     * `interfaceName`, or a new full bucket with the default rate and
     * capacity, timed now and stored under that name. No other entry changes.
     */
    method GetRateLimit(interfaceName: string, now: int64) returns (rateLimit: TokenBucketRateLimit)
      modifies this`rateLimitMap
      ensures interfaceName in old(rateLimitMap) ==>
        rateLimit == old(rateLimitMap)[interfaceName] && rateLimitMap == old(rateLimitMap)
      ensures interfaceName !in old(rateLimitMap) ==>
        fresh(rateLimit) && rateLimit.rate == DEFAULT_RATE && rateLimit.capacity == DEFAULT_CAPACITY &&
        rateLimit.Snapshot() == Bucket(DEFAULT_CAPACITY, now) &&
        rateLimitMap == old(rateLimitMap)[interfaceName := rateLimit]
      ensures rateLimitMap.Keys == old(rateLimitMap).Keys + {interfaceName}
      ensures forall k | k in old(rateLimitMap) :: rateLimitMap[k] == old(rateLimitMap)[k]
      ensures rateLimitMap[interfaceName] == rateLimit
    {
      if interfaceName !in rateLimitMap {
        rateLimit := new TokenBucketRateLimit(DEFAULT_RATE, DEFAULT_CAPACITY, now);
        rateLimitMap := rateLimitMap[interfaceName := rateLimit];
        return;
      }
      rateLimit := rateLimitMap[interfaceName];
    }
  }

  /**
   * A bucket fresh from the registry lets 10 calls through at its creation
   * instant, refuses the 11th, and has a token again 100 ms later.
   */
  lemma DefaultBucketBurst(now: int64)
    requires now < TWO_63 - 100
    ensures Burst(DEFAULT_RATE, DEFAULT_CAPACITY, Bucket(DEFAULT_CAPACITY, now), 10, now) == (10, Bucket(0, now))
    ensures Acquire(DEFAULT_RATE, DEFAULT_CAPACITY, Bucket(0, now), now) == Ok((false, Bucket(0, now)))
    ensures Acquire(DEFAULT_RATE, DEFAULT_CAPACITY, Bucket(0, now), now + 100) == Ok((true, Bucket(0, now + 100)))
  {
    FreshBucketGrantsCapacity(DEFAULT_RATE, DEFAULT_CAPACITY, now);
    assert NewTokens(DEFAULT_RATE, now, now + 100) == 1;
  }
}
