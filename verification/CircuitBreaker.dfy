/** The circuit breaker, with each of its methods taken as one atomic step.
    Module BreakerSteps takes the methods apart. */
module CircuitBreaker {
  datatype Status = Closed | Open | HalfOpen

  /** What NewCircuitBreaker fixes for good. */
  datatype Config = Config(failureThreshold: int, resetTimeout: int, halfOpenMaxReqs: int)
  {
    predicate Valid() {
      0 < failureThreshold < INT32_LIMIT && 0 < resetTimeout && 0 < halfOpenMaxReqs < INT32_LIMIT
    }
  }

  const INT32_LIMIT: int := 0x8000_0000

  /** A value kept in 32 bits. */
  function Wrap32(x: int): (r: int)
    ensures -INT32_LIMIT <= r < INT32_LIMIT
    ensures -INT32_LIMIT <= x < INT32_LIMIT ==> r == x
  {
    (x + INT32_LIMIT) % (2 * INT32_LIMIT) - INT32_LIMIT
  }

  /** The configured numbers are cut down to 32 bits before the defaults apply. */
  function NewConfig(threshold: int, resetTimeout: int, maxReqs: int): (c: Config)
    ensures c.Valid()
    ensures 0 < threshold < INT32_LIMIT ==> c.failureThreshold == threshold
    ensures 0 < maxReqs < INT32_LIMIT ==> c.halfOpenMaxReqs == maxReqs
    ensures threshold % (2 * INT32_LIMIT) == 0 ==> c.failureThreshold == 5
    ensures -INT32_LIMIT <= threshold <= 0 ==> c.failureThreshold == 5
    ensures -INT32_LIMIT <= maxReqs <= 0 ==> c.halfOpenMaxReqs == 3
    ensures c.resetTimeout == resetTimeout || (resetTimeout <= 0 && c.resetTimeout == 30_000_000_000)
  {
    Config(if Wrap32(threshold) <= 0 then 5 else Wrap32(threshold),
           if resetTimeout <= 0 then 30_000_000_000 else resetTimeout,
           if Wrap32(maxReqs) <= 0 then 3 else Wrap32(maxReqs))
  }

  datatype Breaker = Breaker(status: Status, halfOpenReqs: int, consecutiveFailures: int,
                             lastStateChange: int, lastFailure: int,
                             totalRequests: nat, totalSuccesses: nat, totalFailures: nat, opens: nat)

  function New(now: int): Breaker {
    Breaker(Closed, 0, 0, now, 0, 0, 0, 0, 0)
  }

  function Probe(c: Config, b: Breaker): (Breaker, bool) {
    var reqs := Wrap32(b.halfOpenReqs + 1);
    (b.(halfOpenReqs := reqs), reqs <= c.halfOpenMaxReqs)
  }

  function Allow(c: Config, b: Breaker, now: int): (Breaker, bool) {
    var b1 := b.(totalRequests := b.totalRequests + 1);
    match b.status
    case Closed => (b1, true)
    case Open =>
      if now - b.lastStateChange <= c.resetTimeout then (b1, false)
      else Probe(c, b1.(status := HalfOpen, lastStateChange := now, halfOpenReqs := 0))
    case HalfOpen => Probe(c, b1)
  }

  function Succeed(b: Breaker, now: int): Breaker {
    var b1 := b.(totalSuccesses := b.totalSuccesses + 1, consecutiveFailures := 0);
    if b.status.HalfOpen? then b1.(status := Closed, lastStateChange := now) else b1
  }

  function Fail(c: Config, b: Breaker, now: int): Breaker {
    var failures := Wrap32(b.consecutiveFailures + 1);
    var b1 := b.(totalFailures := b.totalFailures + 1, consecutiveFailures := failures, lastFailure := now);
    if (b.status.Closed? && failures >= c.failureThreshold) || b.status.HalfOpen?
    then b1.(status := Open, opens := b.opens + 1, lastStateChange := now)
    else b1
  }

  function ResetTo(b: Breaker, now: int): Breaker {
    b.(status := Closed, consecutiveFailures := 0, lastStateChange := now)
  }

  // -------------------------------------------------------------- event log

  datatype Event = Request(now: int) | Success(now: int) | Failure(now: int) | Reset(now: int)

  function Apply(c: Config, b: Breaker, e: Event): Breaker {
    match e
    case Request(now) => Allow(c, b, now).0
    case Success(now) => Succeed(b, now)
    case Failure(now) => Fail(c, b, now)
    case Reset(now) => ResetTo(b, now)
  }

  /** The breaker created at `born`, after everything in the log. */
  function After(c: Config, born: int, log: seq<Event>): Breaker {
    if log == [] then New(born) else Apply(c, After(c, born, log[..|log| - 1]), log[|log| - 1])
  }

  /** The last event of the log was a request and it was let through. */
  predicate LastGranted(c: Config, born: int, log: seq<Event>) {
    log != [] && log[|log| - 1].Request? && Allow(c, After(c, born, log[..|log| - 1]), log[|log| - 1].now).1
  }

  /** Failures since the last success or Reset; requests do not interrupt the run. */
  function FailureRun(log: seq<Event>): (n: nat)
    ensures n <= |log|
  {
    if log == [] then 0
    else match log[|log| - 1]
      case Failure(_) => FailureRun(log[..|log| - 1]) + 1
      case Request(_) => FailureRun(log[..|log| - 1])
      case _ => 0
  }

  lemma {:induction false} ConsecutiveFailuresIsTheRun(c: Config, born: int, log: seq<Event>)
    requires |log| < INT32_LIMIT
    ensures After(c, born, log).consecutiveFailures == FailureRun(log)
  {
    if log != [] {
      ConsecutiveFailuresIsTheRun(c, born, log[..|log| - 1]);
    }
  }

  /** A closed breaker has not reached its threshold, however long the log. */
  lemma {:induction false} ClosedIsBelowThreshold(c: Config, born: int, log: seq<Event>)
    requires c.Valid()
    ensures After(c, born, log).status.Closed? ==> After(c, born, log).consecutiveFailures < c.failureThreshold
  {
    if log != [] {
      ClosedIsBelowThreshold(c, born, log[..|log| - 1]);
    }
  }

  /** How often the log took the breaker into a status it was not in. */
  function Entries(c: Config, born: int, log: seq<Event>, into: Status): (n: nat)
    ensures n <= |log|
  {
    if log == [] then 0
    else
      var before := log[..|log| - 1];
      Entries(c, born, before, into)
      + if After(c, born, before).status != into && After(c, born, log).status == into then 1 else 0
  }

  lemma {:induction false} OpensCountsEntries(c: Config, born: int, log: seq<Event>)
    ensures After(c, born, log).opens == Entries(c, born, log, Open)
  {
    if log != [] {
      OpensCountsEntries(c, born, log[..|log| - 1]);
    }
  }

  /** Requests let through while the breaker was half-open. */
  function HalfOpenGrants(c: Config, born: int, log: seq<Event>): nat {
    if log == [] then 0
    else
      HalfOpenGrants(c, born, log[..|log| - 1])
      + if LastGranted(c, born, log) && After(c, born, log).status.HalfOpen? then 1 else 0
  }

  /** The same, counted since the latest half-open episode began. */
  function EpisodeGrants(c: Config, born: int, log: seq<Event>): nat {
    if log == [] then 0
    else
      var before := After(c, born, log[..|log| - 1]).status;
      var here := if LastGranted(c, born, log) && After(c, born, log).status.HalfOpen? then 1 else 0;
      if before.Open? && After(c, born, log).status.HalfOpen? then here
      else EpisodeGrants(c, born, log[..|log| - 1]) + here
  }

  function Min(a: int, b: int): int {
    if a < b then a else b
  }

  /** max grants for each of the first n episodes. */
  function Budget(max: nat, n: nat): (r: nat)
    ensures r == max * n
  {
    if n == 0 then 0 else Budget(max, n - 1) + max
  }

  /** What the counters of a breaker that has seen `entries` half-open episodes
      say about the requests it let through in them. */
  predicate Accounted(c: Config, b: Breaker, entries: nat, total: nat, episode: nat)
    requires c.Valid()
  {
    && 0 <= b.halfOpenReqs && episode == Min(b.halfOpenReqs, c.halfOpenMaxReqs)
    && (b.status.HalfOpen? ==> entries > 0)
    && if entries == 0 then total == 0 && b.halfOpenReqs == 0
       else total <= Budget(c.halfOpenMaxReqs, entries - 1) + episode
  }

  lemma GrantStep(c: Config, b: Breaker, e: Event, entries: nat, total: nat, episode: nat)
    requires c.Valid() && Accounted(c, b, entries, total, episode) && b.halfOpenReqs + 1 < INT32_LIMIT
    ensures var b' := Apply(c, b, e);
            var enters := !b.status.HalfOpen? && b'.status.HalfOpen?;
            var grants := if e.Request? && Allow(c, b, e.now).1 && b'.status.HalfOpen? then 1 else 0;
            && b'.halfOpenReqs <= b.halfOpenReqs + 1
            && (enters ==> b.status.Open?)
            && Accounted(c, b', entries + if enters then 1 else 0, total + grants,
                         if enters then grants else episode + grants)
  {}

  lemma {:induction false} GrantAccount(c: Config, born: int, log: seq<Event>)
    requires c.Valid() && |log| < INT32_LIMIT
    ensures After(c, born, log).halfOpenReqs <= |log|
    ensures Accounted(c, After(c, born, log), Entries(c, born, log, HalfOpen), HalfOpenGrants(c, born, log),
                      EpisodeGrants(c, born, log))
  {
    if log != [] {
      var before := log[..|log| - 1];
      GrantAccount(c, born, before);
      GrantStep(c, After(c, born, before), log[|log| - 1], Entries(c, born, before, HalfOpen),
                HalfOpenGrants(c, born, before), EpisodeGrants(c, born, before));
    }
  }

  /** Every half-open episode lets at most halfOpenMaxReqs requests through. */
  lemma HalfOpenGrantsAreBounded(c: Config, born: int, log: seq<Event>)
    requires c.Valid() && |log| < INT32_LIMIT
    ensures EpisodeGrants(c, born, log) <= c.halfOpenMaxReqs
    ensures HalfOpenGrants(c, born, log) <= c.halfOpenMaxReqs * Entries(c, born, log, HalfOpen)
  {
    GrantAccount(c, born, log);
    var n := Entries(c, born, log, HalfOpen);
    assert Budget(c.halfOpenMaxReqs, n) == c.halfOpenMaxReqs * n;
  }

  /** `n` requests in a row to a half-open breaker. */
  function Hammer(c: Config, b: Breaker, n: nat, now: int): Breaker {
    if n == 0 then b else Allow(c, Hammer(c, b, n - 1, now), now).0
  }

  lemma WrapNext(x: int)
    ensures Wrap32(Wrap32(x) + 1) == Wrap32(x + 1)
  {
    var (q, r) := ((x + INT32_LIMIT) / (2 * INT32_LIMIT), (x + INT32_LIMIT) % (2 * INT32_LIMIT));
    assert x + INT32_LIMIT == q * (2 * INT32_LIMIT) + r;
  }

  lemma {:induction false} HammerCounts(c: Config, b: Breaker, n: nat, now: int)
    requires b.status.HalfOpen? && b.halfOpenReqs == Wrap32(b.halfOpenReqs)
    ensures Hammer(c, b, n, now).status.HalfOpen?
    ensures Hammer(c, b, n, now).halfOpenReqs == Wrap32(b.halfOpenReqs + n)
  {
    if n > 0 {
      HammerCounts(c, b, n - 1, now);
      WrapNext(b.halfOpenReqs + (n - 1));
      hide Wrap32;
    }
  }

  /** How many of them are let through. */
  function HammerGrants(c: Config, b: Breaker, n: nat, now: int): nat {
    if n == 0 then 0
    else HammerGrants(c, b, n - 1, now) + if Allow(c, Hammer(c, b, n - 1, now), now).1 then 1 else 0
  }

  lemma {:induction false} HammerGrantsAre(c: Config, b: Breaker, n: nat, now: int)
    requires c.Valid() && b.status.HalfOpen? && b.halfOpenReqs == 0 && n < INT32_LIMIT
    ensures HammerGrants(c, b, n, now) == Min(n, c.halfOpenMaxReqs)
  {
    if n > 0 {
      HammerGrantsAre(c, b, n - 1, now);
      HammerCounts(c, b, n - 1, now);
    }
  }

  lemma {:induction false} GrantsGrow(c: Config, b: Breaker, n: nat, m: nat, now: int)
    requires n <= m
    ensures HammerGrants(c, b, n, now) <= HammerGrants(c, b, m, now)
    decreases m
  {
    if n < m {
      GrantsGrow(c, b, n, m - 1, now);
    }
  }

  lemma WrappedRequestIsGranted(c: Config, b: Breaker, now: int)
    requires c.Valid() && b.status.HalfOpen? && b.halfOpenReqs == 0
    ensures HammerGrants(c, b, INT32_LIMIT, now) == c.halfOpenMaxReqs + 1
  {
    HammerGrantsAre(c, b, INT32_LIMIT - 1, now);
    HammerCounts(c, b, INT32_LIMIT - 1, now);
    assert Wrap32(INT32_LIMIT) == -INT32_LIMIT;
  }

  /** A half-open breaker with a zeroed counter keeps to its limit exactly for fewer than
      2^31 requests in a row. */
  lemma ZeroedKeepsLimitIff(c: Config, b: Breaker, n: nat, now: int)
    requires c.Valid() && b.status.HalfOpen? && b.halfOpenReqs == 0
    ensures HammerGrants(c, b, n, now) <= c.halfOpenMaxReqs <==> n < INT32_LIMIT
  {
    if n < INT32_LIMIT {
      HammerGrantsAre(c, b, n, now);
    } else {
      WrappedRequestIsGranted(c, b, now);
      GrantsGrow(c, b, INT32_LIMIT, n, now);
    }
  }

  /** An open breaker past its timeout answers the first and all later requests as one
      that is already half-open, with its counter zeroed. */
  lemma {:induction false} ProbesFromOpen(c: Config, b: Breaker, n: nat, now: int)
    requires c.Valid() && b.status.Open? && now > b.lastStateChange + c.resetTimeout
    ensures var half := b.(status := HalfOpen, lastStateChange := now, halfOpenReqs := 0);
            && (n > 0 ==> Hammer(c, b, n, now) == Hammer(c, half, n, now))
            && HammerGrants(c, b, n, now) == HammerGrants(c, half, n, now)
  {
    if n > 0 {
      ProbesFromOpen(c, b, n - 1, now);
    }
  }

  /** The limit on the length of the log is needed, to the request: denied requests are
      counted too, and the 2^31-th turns the 32-bit counter negative and is let through.
      The episode that follows an open breaker's timeout keeps to its limit exactly for
      fewer in a row. */
  lemma LimitHoldsIff(c: Config, b: Breaker, n: nat, now: int)
    requires c.Valid() && b.status.Open? && now > b.lastStateChange + c.resetTimeout
    ensures HammerGrants(c, b, n, now) <= c.halfOpenMaxReqs <==> n < INT32_LIMIT
  {
    ProbesFromOpen(c, b, n, now);
    ZeroedKeepsLimitIff(c, b.(status := HalfOpen, lastStateChange := now, halfOpenReqs := 0), n, now);
  }

  /** In particular grants resume after the denials that use the counter up. */
  lemma CounterWrapGrantsAgain(c: Config, b: Breaker, now: int)
    requires c.Valid() && c.halfOpenMaxReqs + 1 < INT32_LIMIT
    requires b.status.HalfOpen? && b.halfOpenReqs == c.halfOpenMaxReqs
    ensures !Allow(c, b, now).1
    ensures Allow(c, Hammer(c, b, INT32_LIMIT - 1 - c.halfOpenMaxReqs, now), now).1
  {
    HammerCounts(c, b, INT32_LIMIT - 1 - c.halfOpenMaxReqs, now);
  }

  // ---------------------------------------------------------- open episodes

  predicate Timely(e: Event, until: int) {
    e.now <= until && !e.Reset?
  }

  /** From the moment the breaker opens until resetTimeout has passed, and unless
      somebody calls Reset, it stays open and denies every request. */
  lemma {:induction false} OpenDeniesUntilTimeout(c: Config, born: int, log: seq<Event>, k: nat, m: nat)
    requires k <= m <= |log| && After(c, born, log[..k]).status.Open?
    requires forall x :: k <= x < m ==> Timely(log[x], After(c, born, log[..k]).lastStateChange + c.resetTimeout)
    ensures After(c, born, log[..m]).status.Open?
    ensures After(c, born, log[..m]).lastStateChange == After(c, born, log[..k]).lastStateChange
    ensures forall x :: k < x <= m ==> !LastGranted(c, born, log[..x])
    decreases m - k
  {
    if k < m {
      OpenDeniesUntilTimeout(c, born, log, k, m - 1);
      assert log[..m][..m - 1] == log[..m - 1];
      assert Timely(log[m - 1], After(c, born, log[..k]).lastStateChange + c.resetTimeout);
      assert !LastGranted(c, born, log[..m]);
    }
  }

  /** An open breaker was opened by a failure, at the time it remembers, and
      has not changed since. */
  lemma {:induction false} OpenWasOpenedByAFailure(c: Config, born: int, log: seq<Event>) returns (k: nat)
    requires After(c, born, log).status.Open?
    ensures k < |log| && log[k].Failure? && log[k].now == After(c, born, log).lastStateChange
    ensures !After(c, born, log[..k]).status.Open?
    ensures forall x :: k < x <= |log| ==> After(c, born, log[..x]).status.Open?
  {
    var last := |log| - 1;
    var before := After(c, born, log[..last]);
    assert log[..|log|] == log;
    if before.status.Open? {
      k := OpenWasOpenedByAFailure(c, born, log[..last]);
      forall x | k < x <= |log| ensures After(c, born, log[..x]).status.Open? {
        if x <= last {
          assert log[..last][..x] == log[..x];
        }
      }
      assert log[..last][..k] == log[..k];
    } else {
      k := last;
    }
  }

  lemma OpenRecovers(c: Config, b: Breaker, now: int)
    requires c.Valid() && b.status.Open? && now > b.lastStateChange + c.resetTimeout
    ensures Allow(c, b, now).1 && Allow(c, b, now).0.status.HalfOpen? && Allow(c, b, now).0.halfOpenReqs == 1
  {}

  /** After the breaker has opened, and as long as nobody calls Reset, the first request
      to be let through is the first that comes later than resetTimeout, whatever else
      happens in between; it is the first probe of a half-open episode. */
  lemma OpenGrantsIff(c: Config, born: int, log: seq<Event>, k: nat, m: nat)
    requires c.Valid() && k <= m < |log| && log[m].Request? && After(c, born, log[..k]).status.Open?
    requires forall x :: k <= x < m ==> Timely(log[x], After(c, born, log[..k]).lastStateChange + c.resetTimeout)
    ensures var grants := log[m].now > After(c, born, log[..k]).lastStateChange + c.resetTimeout;
            && (LastGranted(c, born, log[..m + 1]) <==> grants)
            && (grants ==>
                  var b := After(c, born, log[..m + 1]); b.status.HalfOpen? && b.halfOpenReqs == 1)
  {
    OpenDeniesUntilTimeout(c, born, log, k, m);
    assert log[..m + 1][..m] == log[..m];
    if log[m].now > After(c, born, log[..k]).lastStateChange + c.resetTimeout {
      OpenRecovers(c, After(c, born, log[..m]), log[m].now);
    }
  }

  // ------------------------------------------------- what each event brings about

  /** A request is let through exactly when the breaker is closed, or open and past its
      timeout, or half-open with some of the episode's budget left. */
  lemma GrantedIff(c: Config, born: int, log: seq<Event>, now: int)
    requires c.Valid() && |log| + 1 < INT32_LIMIT
    ensures var b := After(c, born, log);
            LastGranted(c, born, log + [Request(now)]) <==>
              || b.status.Closed?
              || (b.status.Open? && now > b.lastStateChange + c.resetTimeout)
              || (b.status.HalfOpen? && EpisodeGrants(c, born, log) < c.halfOpenMaxReqs)
  {
    assert (log + [Request(now)])[..|log|] == log;
    GrantAccount(c, born, log);
  }

  /** A failure opens a closed breaker exactly when it brings the failures since the last
      success or Reset up to the threshold, and a half-open one always; a success closes
      a half-open breaker only; a Reset closes any. Each change is dated by its event. */
  lemma StatusChanges(c: Config, born: int, log: seq<Event>, e: Event)
    requires c.Valid() && |log| + 1 < INT32_LIMIT
    ensures var (b, b') := (After(c, born, log), After(c, born, log + [e]));
            && (e.Failure? && b.status.Closed? ==> (b'.status.Open? <==> FailureRun(log + [e]) == c.failureThreshold))
            && (e.Failure? && b.status.Closed? && !b'.status.Open? ==> b'.status.Closed?)
            && (e.Failure? && !b.status.Closed? ==> b'.status.Open?)
            && (e.Success? ==> b'.status == if b.status.HalfOpen? then Closed else b.status)
            && (e.Reset? ==> b'.status.Closed?)
            && (e.Request? && !b.status.Open? ==> b'.status == b.status)
            && b'.lastStateChange == if b'.status != b.status || e.Reset? then e.now else b.lastStateChange
  {
    assert (log + [e])[..|log|] == log;
    ConsecutiveFailuresIsTheRun(c, born, log);
    ConsecutiveFailuresIsTheRun(c, born, log + [e]);
    ClosedIsBelowThreshold(c, born, log);
  }

  /** How many events of the log are of this kind. */
  function Occurs(log: seq<Event>, kind: Event -> bool): (n: nat)
    ensures n <= |log|
  {
    if log == [] then 0 else Occurs(log[..|log| - 1], kind) + if kind(log[|log| - 1]) then 1 else 0
  }

  function LastFailureTime(log: seq<Event>): int {
    if log == [] then 0
    else if log[|log| - 1].Failure? then log[|log| - 1].now
    else LastFailureTime(log[..|log| - 1])
  }

  /** The totals count the events of the log, and the last failure is dated by it. */
  lemma {:induction false} TotalsCountEvents(c: Config, born: int, log: seq<Event>)
    ensures var b := After(c, born, log);
            && b.totalRequests == Occurs(log, (e: Event) => e.Request?)
            && b.totalSuccesses == Occurs(log, (e: Event) => e.Success?)
            && b.totalFailures == Occurs(log, (e: Event) => e.Failure?)
            && b.lastFailure == LastFailureTime(log)
  {
    if log != [] {
      TotalsCountEvents(c, born, log[..|log| - 1]);
    }
  }
}
