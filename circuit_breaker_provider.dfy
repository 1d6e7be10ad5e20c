/**
 * The registry that gives each service its own circuit breaker, created on
 * first use with fixed thresholds and shared by every later lookup.
 */
module CircuitBreakerRegistry {
  import opened JavaInt
  import opened CircuitBreakers

  /** The thresholds of every breaker the registry creates: 2 failures, half of the requests, 10 requests, 10 seconds. */
  const DEFAULT_CONFIG: Config := Config(2, 0.5, 10, 10000)

  class CircuitBreakerProvider {
    /** Service name to its breaker; entries are only ever added. */
    var circuitBreakerMap: map<string, CircuitBreaker>

    /** Every stored breaker keeps its invariant and carries the registry's thresholds. */
    ghost predicate Valid()
      reads this, circuitBreakerMap.Values
    {
      forall name | name in circuitBreakerMap ::
        circuitBreakerMap[name].Valid() && circuitBreakerMap[name].Cfg() == DEFAULT_CONFIG
    }

    constructor()
      ensures circuitBreakerMap == map[]
      ensures Valid()
    {
      circuitBreakerMap := map[];
    }

    /**
     * `getCircuitBreaker`: the stored breaker of `serviceName`, or a new
     * closed breaker with `DEFAULT_CONFIG`, stored under that name. No other
     * entry changes.
     */
    method GetCircuitBreaker(serviceName: string) returns (breaker: CircuitBreaker)
      modifies this`circuitBreakerMap
      ensures serviceName in old(circuitBreakerMap) ==>
        breaker == old(circuitBreakerMap)[serviceName] && circuitBreakerMap == old(circuitBreakerMap)
      ensures serviceName !in old(circuitBreakerMap) ==>
        fresh(breaker) && breaker.Cfg() == DEFAULT_CONFIG && breaker.Snapshot() == INITIAL && breaker.Valid() &&
        circuitBreakerMap == old(circuitBreakerMap)[serviceName := breaker]
      ensures circuitBreakerMap.Keys == old(circuitBreakerMap).Keys + {serviceName}
      ensures forall k | k in old(circuitBreakerMap) :: circuitBreakerMap[k] == old(circuitBreakerMap)[k]
      ensures circuitBreakerMap[serviceName] == breaker
      ensures old(Valid()) ==> Valid() && breaker.Valid() && breaker.Cfg() == DEFAULT_CONFIG
    {
      if serviceName in circuitBreakerMap {
        breaker := circuitBreakerMap[serviceName];
      } else {
        breaker := new CircuitBreaker(2, 0.5, 10, 10000);
        circuitBreakerMap := circuitBreakerMap[serviceName := breaker];
      }
    }
  }

  /**
   * With the registry's thresholds, a breaker that has just left OPEN and
   * then let 9 more requests through (10 counted) closes on its 5th success,
   * with every counter cleared, and not on its 4th: half of the 10 requests
   * must succeed.
   */
  lemma DefaultRecovery(lastFailureTime: int64)
    ensures var f := Fields(HalfOpen, 0, 0, 10, lastFailureTime);
      Run(DEFAULT_CONFIG, f, Successes(5)) == Fields(Closed, 0, 0, 0, lastFailureTime) &&
      Run(DEFAULT_CONFIG, f, Successes(4)) == f.(successCount := 4)
  {
    var f := Fields(HalfOpen, 0, 0, 10, lastFailureTime);
    HalfOpenSuccesses(DEFAULT_CONFIG, f, 5);
    HalfOpenSuccesses(DEFAULT_CONFIG, f, 4);
  }

  /** With the registry's thresholds, two consecutive failures open a new breaker and one does not. */
  lemma DefaultTrip(now: int64)
    ensures Run(DEFAULT_CONFIG, INITIAL, Failures(1, now)).state == Closed
    ensures Run(DEFAULT_CONFIG, INITIAL, Failures(2, now)).state == Open
  {
    FailuresOpenClosed(DEFAULT_CONFIG, INITIAL, 1, now);
    FailuresOpenClosed(DEFAULT_CONFIG, INITIAL, 2, now);
  }
}
