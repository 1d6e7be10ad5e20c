/**
 * The client-side circuit breaker: a CLOSED / OPEN / HALF_OPEN state machine
 * over three request counters and the time of the last failure. The
 * transitions are first given as functions on a value (`Fields`), about
 * which the invariant and the multi-call properties are proved; the class
 * `CircuitBreaker` then updates its fields in place and is proved to follow
 * those functions. The clock is a parameter `now` (milliseconds, a Java
 * `long`).
 */
module CircuitBreakers {
  import opened JavaInt

  datatype State = Closed | Open | HalfOpen

  /** The four thresholds fixed at construction; `halfOpenThreshold` is a `double`, modelled exactly. */
  datatype Config = Config(
    failureThreshold: int32,
    halfOpenThreshold: real,
    minRequestThreshold: int32,
    retryTimePeriod: int64)

  /** The mutable fields of a breaker, as one value. */
  datatype Fields = Fields(
    state: State,
    failureCount: nat,
    successCount: nat,
    requestCount: nat,
    lastFailureTime: int64)

  /** A new breaker: closed, no counts, no failure yet. */
  const INITIAL: Fields := Fields(Closed, 0, 0, 0, 0)

  /** `resetCounts`: the three counters go to zero; the state and the failure time stay. */
  function Reset(f: Fields): (r: Fields)
    ensures r.failureCount == r.successCount == r.requestCount == 0
    ensures r.state == f.state && r.lastFailureTime == f.lastFailureTime
  {
    f.(failureCount := 0, successCount := 0, requestCount := 0)
  }

  /** `currentTime - lastFailureTime` in Java `long` arithmetic. */
  function Elapsed(now: int64, last: int64): (r: int64)
    ensures -TWO_63 <= now - last < TWO_63 ==> r == now - last
    ensures (now - last - r) % TWO_64 == 0
  {
    Wrap64(now - last)
  }

  /**
   * `allowRequest`: the verdict and the new fields. Only an open breaker
   * whose retry period has not yet passed refuses, and a refusal changes
   * nothing; a closed breaker is left alone.
   */
  function Allow(c: Config, f: Fields, now: int64): (r: (bool, Fields))
    ensures r.0 <==> f.state != Open || Elapsed(now, f.lastFailureTime) > c.retryTimePeriod
    ensures !r.0 || f.state == Closed ==> r.1 == f
    ensures r.1.lastFailureTime == f.lastFailureTime
    ensures f.state == Open && r.0 ==>
      r.1.state == HalfOpen && r.1.failureCount == r.1.successCount == 0 && r.1.requestCount == 1
    ensures f.state == HalfOpen ==> r.1 == f.(requestCount := f.requestCount + 1)
  {
    match f.state
    case Open =>
      if Elapsed(now, f.lastFailureTime) > c.retryTimePeriod then
        (true, Reset(f).(state := HalfOpen, requestCount := 1))
      else
        (false, f)
    case HalfOpen => (true, f.(requestCount := f.requestCount + 1))
    case Closed => (true, f)
  }

  /** The test `recordSuccess` makes in HALF_OPEN, on the total request count and the new success count. */
  predicate Recovered(c: Config, total: nat, success: nat)
  {
    total >= c.minRequestThreshold && success as real >= total as real * c.halfOpenThreshold
  }

  /**
   * `recordSuccess`. In HALF_OPEN the success is counted, and the breaker
   * closes with cleared counters once `Recovered` holds. In CLOSED or OPEN
   * the counters are cleared and nothing else changes.
   */
  function OnSuccess(c: Config, f: Fields): (r: Fields)
    ensures r.lastFailureTime == f.lastFailureTime
    ensures f.state != HalfOpen ==> r == Reset(f)
    ensures f.state == HalfOpen ==>
      if Recovered(c, f.requestCount, f.successCount + 1) then r == Reset(f).(state := Closed)
      else r == f.(successCount := f.successCount + 1)
  {
    if f.state == HalfOpen then
      var success := f.successCount + 1;
      if Recovered(c, f.requestCount, success) then Reset(f).(state := Closed)
      else f.(successCount := success)
    else
      Reset(f)
  }

  /**
   * `recordFailure`: the failure is counted and timed. A half-open breaker
   * opens again; otherwise it opens exactly when the new count reaches the
   * threshold, and keeps its state when it does not.
   */
  function OnFailure(c: Config, f: Fields, now: int64): (r: Fields)
    ensures r.failureCount == f.failureCount + 1 && r.lastFailureTime == now
    ensures r.successCount == f.successCount && r.requestCount == f.requestCount
    ensures f.state == HalfOpen ==> r.state == Open
    ensures f.state != HalfOpen ==>
      r.state == (if f.failureCount + 1 >= c.failureThreshold then Open else f.state)
  {
    var g := f.(failureCount := f.failureCount + 1, lastFailureTime := now);
    if f.state == HalfOpen then g.(state := Open)
    else if g.failureCount >= c.failureThreshold then g.(state := Open)
    else g
  }

  /**
   * What every reachable breaker satisfies: a closed one has counted no
   * request or success and fewer failures than the threshold (or none),
   * and a half-open one has counted no failure and at least the request
   * that let it out of OPEN.
   */
  ghost predicate Inv(c: Config, f: Fields)
  {
    (f.state == Closed ==>
      f.successCount == 0 && f.requestCount == 0 &&
      (f.failureCount == 0 || f.failureCount < c.failureThreshold)) &&
    (f.state == HalfOpen ==> f.failureCount == 0 && f.requestCount >= 1)
  }

  /** A call made on a breaker, with the clock reading where the call reads it. */
  datatype Event = Request(now: int64) | Success | Failure(now: int64)

  function Step(c: Config, f: Fields, e: Event): Fields
  {
    match e
    case Request(now) => Allow(c, f, now).1
    case Success => OnSuccess(c, f)
    case Failure(now) => OnFailure(c, f, now)
  }

  /** The fields after a sequence of calls, first to last. */
  function Run(c: Config, f: Fields, events: seq<Event>): Fields
    decreases |events|
  {
    if events == [] then f else Run(c, Step(c, f, events[0]), events[1..])
  }

  /** Every call keeps the invariant. */
  lemma StepKeepsInv(c: Config, f: Fields, e: Event)
    requires Inv(c, f)
    ensures Inv(c, Step(c, f, e))
  {
  }

  /** So every breaker reached by calls from a new one (`INITIAL` satisfies `Inv`) satisfies it. */
  lemma {:induction false} RunKeepsInv(c: Config, f: Fields, events: seq<Event>)
    requires Inv(c, f)
    ensures Inv(c, Run(c, f, events))
    decreases |events|
  {
    if events != [] {
      StepKeepsInv(c, f, events[0]);
      RunKeepsInv(c, Step(c, f, events[0]), events[1..]);
    }
  }

  function Failures(n: nat, now: int64): (es: seq<Event>)
    ensures |es| == n && forall i | 0 <= i < n :: es[i] == Failure(now)
  {
    if n == 0 then [] else [Failure(now)] + Failures(n - 1, now)
  }

  function Successes(n: nat): (es: seq<Event>)
    ensures |es| == n && forall i | 0 <= i < n :: es[i] == Success
  {
    if n == 0 then [] else [Success] + Successes(n - 1)
  }

  /** Failures never move an open breaker; each one is counted and timed. */
  lemma {:induction false} FailuresKeepOpen(c: Config, f: Fields, n: nat, now: int64)
    requires f.state == Open
    ensures Run(c, f, Failures(n, now)).state == Open
    ensures Run(c, f, Failures(n, now)).failureCount == f.failureCount + n
    decreases n
  {
    if n > 0 {
      FailuresKeepOpen(c, OnFailure(c, f, now), n - 1, now);
    }
  }

  /**
   * Starting closed, a run of n >= 1 failures leaves the breaker open exactly
   * when the failure count reaches the threshold, and at the time of the last failure.
   */
  lemma {:induction false} FailuresOpenClosed(c: Config, f: Fields, n: nat, now: int64)
    requires f.state == Closed && n >= 1
    ensures Run(c, f, Failures(n, now)).state == (if f.failureCount + n >= c.failureThreshold then Open else Closed)
    ensures Run(c, f, Failures(n, now)).failureCount == f.failureCount + n
    ensures Run(c, f, Failures(n, now)).lastFailureTime == now
    decreases n
  {
    LastFailureTime(c, f, n, now);
    var g := OnFailure(c, f, now);
    if g.state == Open {
      FailuresKeepOpen(c, g, n - 1, now);
    } else if n > 1 {
      FailuresOpenClosed(c, g, n - 1, now);
    }
  }

  lemma {:induction false} LastFailureTime(c: Config, f: Fields, n: nat, now: int64)
    requires n >= 1
    ensures Run(c, f, Failures(n, now)).lastFailureTime == now
    decreases n
  {
    if n > 1 {
      LastFailureTime(c, OnFailure(c, f, now), n - 1, now);
    }
  }

  /** A success on a closed breaker forgets earlier failures. */
  lemma SuccessClearsFailures(c: Config, f: Fields)
    requires f.state == Closed
    ensures OnSuccess(c, f) == f.(failureCount := 0, successCount := 0, requestCount := 0)
  {
  }

  /** Running two sequences of calls one after the other is running their concatenation. */
  lemma {:induction false} RunAppend(c: Config, f: Fields, a: seq<Event>, b: seq<Event>)
    ensures Run(c, f, a + b) == Run(c, Run(c, f, a), b)
    decreases |a|
  {
    if a != [] {
      assert (a + b)[0] == a[0];
      assert (a + b)[1..] == a[1..] + b;
      RunAppend(c, Step(c, f, a[0]), a[1..], b);
    } else {
      assert a + b == b;
    }
  }

  /**
   * Only consecutive failures open a closed breaker: after fewer failures
   * than the threshold and a success, a further run of m failures opens it
   * exactly when m alone reaches the threshold.
   */
  lemma FailureStreakRestartsAfterSuccess(c: Config, f: Fields, n: nat, m: nat, t: int64)
    requires f.state == Closed && f.failureCount + n < c.failureThreshold && m >= 1
    ensures Run(c, f, Failures(n, t) + [Success] + Failures(m, t)).state ==
      (if m >= c.failureThreshold then Open else Closed)
  {
    RunAppend(c, f, Failures(n, t) + [Success], Failures(m, t));
    RunAppend(c, f, Failures(n, t), [Success]);
    var g := Run(c, f, Failures(n, t));
    if n >= 1 {
      FailuresOpenClosed(c, f, n, t);
    }
    assert g.state == Closed;
    assert Run(c, g, [Success]) == OnSuccess(c, g);
    FailuresOpenClosed(c, OnSuccess(c, g), m, t);
  }

  /** Successes keep a closed breaker closed, and any of them leaves its counters cleared. */
  lemma {:induction false} SuccessesKeepClosed(c: Config, f: Fields, n: nat)
    requires f.state == Closed
    ensures Run(c, f, Successes(n)).state == Closed
    ensures n >= 1 ==> Run(c, f, Successes(n)) == Reset(f)
    decreases n
  {
    if n > 0 {
      SuccessesKeepClosed(c, OnSuccess(c, f), n - 1);
    }
  }

  /**
   * In HALF_OPEN, a run of n >= 1 successes closes the breaker exactly when
   * the request count and the success count after the run pass the
   * recovery test; otherwise the breaker stays half-open having counted
   * them all.
   */
  lemma {:induction false} HalfOpenSuccesses(c: Config, f: Fields, n: nat)
    requires f.state == HalfOpen && n >= 1
    ensures Run(c, f, Successes(n)).state == Closed <==> Recovered(c, f.requestCount, f.successCount + n)
    ensures Recovered(c, f.requestCount, f.successCount + n) ==>
      Run(c, f, Successes(n)) == Fields(Closed, 0, 0, 0, f.lastFailureTime)
    ensures !Recovered(c, f.requestCount, f.successCount + n) ==>
      Run(c, f, Successes(n)) == f.(successCount := f.successCount + n)
    decreases n
  {
    var g := OnSuccess(c, f);
    if Recovered(c, f.requestCount, f.successCount + 1) {
      SuccessesKeepClosed(c, g, n - 1);
      assert (f.successCount + n) as real >= (f.successCount + 1) as real;
    } else if n > 1 {
      HalfOpenSuccesses(c, g, n - 1);
    }
  }

  /**
   * A breaker as the client holds it: its thresholds are constants and its
   * state, counters and last failure time are updated in place by the three
   * calls. Every method follows the corresponding function above and keeps
   * `Inv`.
   */
  class CircuitBreaker {
    var state: State
    var failureCount: nat
    var successCount: nat
    var requestCount: nat
    var lastFailureTime: int64
    const failureThreshold: int32
    const halfOpenThreshold: real
    const minRequestThreshold: int32
    const retryTimePeriod: int64

    function Cfg(): Config
    {
      Config(failureThreshold, halfOpenThreshold, minRequestThreshold, retryTimePeriod)
    }

    function Snapshot(): Fields
      reads this
    {
      Fields(state, failureCount, successCount, requestCount, lastFailureTime)
    }

    ghost predicate Valid()
      reads this
    {
      Inv(Cfg(), Snapshot())
    }

    /** A new breaker is closed with zero counters and no failure time, whatever the thresholds. */
    constructor(failureThreshold: int32, halfOpenThreshold: real, minRequestThreshold: int32, retryTimePeriod: int64)
      ensures Cfg() == Config(failureThreshold, halfOpenThreshold, minRequestThreshold, retryTimePeriod)
      ensures Snapshot() == INITIAL
      ensures Valid()
    {
      this.failureThreshold := failureThreshold;
      this.halfOpenThreshold := halfOpenThreshold;
      this.minRequestThreshold := minRequestThreshold;
      this.retryTimePeriod := retryTimePeriod;
      state := Closed;
      failureCount, successCount, requestCount := 0, 0, 0;
      lastFailureTime := 0;
    }

    /** `resetCounts`: zeroes the three counters and nothing else. */
    method ResetCounts()
      modifies this`failureCount, this`successCount, this`requestCount
      ensures Snapshot() == Reset(old(Snapshot()))
    {
      failureCount := 0;
      successCount := 0;
      requestCount := 0;
    }

    /** `allowRequest` at clock reading `now`. */
    method AllowRequest(now: int64) returns (allowed: bool)
      modifies this
      ensures (allowed, Snapshot()) == Allow(Cfg(), old(Snapshot()), now)
      ensures old(Valid()) ==> Valid()
    {
      if Valid() {
        StepKeepsInv(Cfg(), Snapshot(), Request(now));
      }
      match state
      case Open =>
        if Elapsed(now, lastFailureTime) > retryTimePeriod {
          state := HalfOpen;
          ResetCounts();
          requestCount := requestCount + 1;
          return true;
        }
        return false;
      case HalfOpen =>
        requestCount := requestCount + 1;
        return true;
      case Closed =>
        return true;
    }

    /** `recordSuccess`. */
    method RecordSuccess()
      modifies this
      ensures Snapshot() == OnSuccess(Cfg(), old(Snapshot()))
      ensures old(Valid()) ==> Valid()
    {
      if Valid() {
        StepKeepsInv(Cfg(), Snapshot(), Success);
      }
      if state == HalfOpen {
        successCount := successCount + 1;
        var success := successCount;
        var total := requestCount;
        if total >= minRequestThreshold && success as real >= total as real * halfOpenThreshold {
          state := Closed;
          ResetCounts();
        }
      } else {
        ResetCounts();
      }
    }

    /** `recordFailure` at clock reading `now`. */
    method RecordFailure(now: int64)
      modifies this
      ensures Snapshot() == OnFailure(Cfg(), old(Snapshot()), now)
      ensures old(Valid()) ==> Valid()
    {
      if Valid() {
        StepKeepsInv(Cfg(), Snapshot(), Failure(now));
      }
      failureCount := failureCount + 1;
      var failure := failureCount;
      lastFailureTime := now;
      if state == HalfOpen {
        state := Open;
      } else if failure >= failureThreshold {
        state := Open;
      }
    }
  }
}
