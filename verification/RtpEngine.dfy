/** RTPEngine.Request: how one engine drives its circuit breaker, and both of
    them as objects updated in place. */
module RtpEngine {
  import opened CircuitBreaker

  /** Where one request ends, in the order of the code's return statements. */
  datatype Exchange =
    | DialFails | EncodeFails | WriteDeadlineFails | WriteFails | ReadDeadlineFails | ReadFails
    | CookieMismatch | DecodeFails | NoResult | ErrorResult | Answered

  /** Every failing path is recorded, except that of a command that cannot be encoded. */
  function Settle(c: Config, b: Breaker, x: Exchange, now: int): Breaker {
    match x
    case EncodeFails => b
    case Answered => Succeed(b, now)
    case _ => Fail(c, b, now)
  }

  /** A request granted at `now` and settled at `done`; also whether it was answered. */
  function RequestOutcome(c: Config, b: Breaker, x: Exchange, now: int, done: int): (Breaker, bool) {
    var (b1, granted) := Allow(c, b, now);
    if !granted then (b1, false) else (Settle(c, b1, x, done), x.Answered?)
  }

  datatype Call = Call(x: Exchange, now: int, done: int)

  function AfterCalls(c: Config, b: Breaker, calls: seq<Call>): Breaker
    decreases |calls|
  {
    if calls == [] then b
    else AfterCalls(c, RequestOutcome(c, b, calls[0].x, calls[0].now, calls[0].done).0, calls[1..])
  }

  /** One request leaves a breaker that was not half-open half-open exactly when it
      was the probe and its command could not be encoded. */
  lemma RestsHalfOpenIff(c: Config, b: Breaker, x: Exchange, now: int, done: int)
    requires c.Valid() && !b.status.HalfOpen?
    ensures RequestOutcome(c, b, x, now, done).0.status.HalfOpen?
            <==> b.status.Open? && now > b.lastStateChange + c.resetTimeout && x.EncodeFails?
  {}

  /** A sequential run whose commands all encode never rests half-open. */
  lemma {:induction false} NeverRestsHalfOpen(c: Config, b: Breaker, calls: seq<Call>)
    requires c.Valid() && !b.status.HalfOpen?
    requires forall k :: 0 <= k < |calls| ==> !calls[k].x.EncodeFails?
    ensures !AfterCalls(c, b, calls).status.HalfOpen?
    decreases |calls|
  {
    if calls != [] {
      RestsHalfOpenIff(c, b, calls[0].x, calls[0].now, calls[0].done);
      NeverRestsHalfOpen(c, RequestOutcome(c, b, calls[0].x, calls[0].now, calls[0].done).0, calls[1..]);
    }
  }

  /** If the probes are used up by commands that do not encode, nothing is recorded
      and the engine is shut out: every later request is denied, whatever it would
      have met and however late it comes. */
  lemma {:induction false} ShutOut(c: Config, b: Breaker, calls: seq<Call>)
    requires c.Valid() && b.status.HalfOpen?
    requires c.halfOpenMaxReqs <= b.halfOpenReqs && b.halfOpenReqs + |calls| < INT32_LIMIT
    ensures AfterCalls(c, b, calls)
            == b.(halfOpenReqs := b.halfOpenReqs + |calls|, totalRequests := b.totalRequests + |calls|)
    decreases |calls|
  {
    if calls != [] {
      ShutOut(c, RequestOutcome(c, b, calls[0].x, calls[0].now, calls[0].done).0, calls[1..]);
    }
  }

  /** Such a state is reached from any open breaker. */
  lemma {:induction false} EncodeFailuresShutOut(c: Config, b: Breaker, now: int, n: nat)
    requires c.Valid() && b.status.Open? && now > b.lastStateChange + c.resetTimeout && 0 < n <= c.halfOpenMaxReqs
    ensures var end := AfterCalls(c, b, seq(n, _ => Call(EncodeFails, now, now)));
            end.status.HalfOpen? && end.halfOpenReqs == n
  {
    var b1 := RequestOutcome(c, b, EncodeFails, now, now).0;
    assert seq(n, _ => Call(EncodeFails, now, now))[1..] == seq(n - 1, _ => Call(EncodeFails, now, now));
    UseProbes(c, b1, now, n - 1);
  }

  lemma {:induction false} UseProbes(c: Config, b: Breaker, now: int, n: nat)
    requires c.Valid() && b.status.HalfOpen? && 0 <= b.halfOpenReqs && b.halfOpenReqs + n <= c.halfOpenMaxReqs
    ensures var end := AfterCalls(c, b, seq(n, _ => Call(EncodeFails, now, now)));
            end.status.HalfOpen? && end.halfOpenReqs == b.halfOpenReqs + n
    decreases n
  {
    if n > 0 {
      assert seq(n, _ => Call(EncodeFails, now, now))[1..] == seq(n - 1, _ => Call(EncodeFails, now, now));
      UseProbes(c, RequestOutcome(c, b, EncodeFails, now, now).0, now, n - 1);
    }
  }

  // ------------------------------------------------------- what the calls amount to

  /** The exchanges that the breaker is told of as failures. */
  predicate Fails(x: Exchange) {
    x != Answered && x != EncodeFails
  }

  /** The k-th call was let through. */
  predicate Granted(c: Config, b: Breaker, calls: seq<Call>, k: nat)
    requires k < |calls|
  {
    Allow(c, AfterCalls(c, b, calls[..k]), calls[k].now).1
  }

  lemma {:induction false} CallsInTwo(c: Config, b: Breaker, calls: seq<Call>, k: nat)
    requires k <= |calls|
    ensures AfterCalls(c, b, calls) == AfterCalls(c, AfterCalls(c, b, calls[..k]), calls[k..])
    decreases k
  {
    if k == 0 {
      assert calls[..0] == [] && calls[0..] == calls;
    } else {
      var b1 := RequestOutcome(c, b, calls[0].x, calls[0].now, calls[0].done).0;
      CallsInTwo(c, b1, calls[1..], k - 1);
      assert calls[1..][..k - 1] == calls[..k][1..] && calls[1..][k - 1..] == calls[k..];
    }
  }

  lemma LastCall(c: Config, b: Breaker, calls: seq<Call>)
    requires calls != []
    ensures var (before, last) := (AfterCalls(c, b, calls[..|calls| - 1]), calls[|calls| - 1]);
            AfterCalls(c, b, calls) == RequestOutcome(c, before, last.x, last.now, last.done).0
  {
    var n := |calls| - 1;
    CallsInTwo(c, b, calls, n);
    assert calls[n..] == [calls[n]] && [calls[n]][1..] == [];
  }

  /** The failing calls that were let through since the last one that was answered,
      on top of `start` failures before the first. */
  function FailuresSince(c: Config, b: Breaker, calls: seq<Call>, start: nat): (n: nat)
    ensures n <= start + |calls|
    decreases |calls|
  {
    if calls == [] then start
    else
      var k := |calls| - 1;
      var before := FailuresSince(c, b, calls[..k], start);
      if !Granted(c, b, calls, k) || calls[k].x == EncodeFails then before
      else if calls[k].x == Answered then 0
      else before + 1
  }

  /** The breaker counts exactly those: a timeout, a bad reply and an error result count
      against the engine, an answer clears it, and a denied call or one that could not be
      encoded does neither. */
  lemma {:induction false} FailuresAreCounted(c: Config, b: Breaker, calls: seq<Call>)
    requires 0 <= b.consecutiveFailures && b.consecutiveFailures + |calls| < INT32_LIMIT
    ensures AfterCalls(c, b, calls).consecutiveFailures == FailuresSince(c, b, calls, b.consecutiveFailures)
    decreases |calls|
  {
    if calls != [] {
      var k := |calls| - 1;
      FailuresAreCounted(c, b, calls[..k]);
      LastCall(c, b, calls);
      assert calls[..k] == calls[..|calls| - 1];
    }
  }

  /** A closed breaker stays closed through failing calls that do not reach its threshold,
      and lets them all through. */
  lemma {:induction false} FewFailuresKeepClosed(c: Config, b: Breaker, calls: seq<Call>)
    requires c.Valid() && b.status.Closed? && 0 <= b.consecutiveFailures
    requires b.consecutiveFailures + |calls| < c.failureThreshold
    requires forall k :: 0 <= k < |calls| ==> Fails(calls[k].x)
    ensures var end := AfterCalls(c, b, calls);
            && end.status.Closed? && end.consecutiveFailures == b.consecutiveFailures + |calls|
            && end.lastStateChange == b.lastStateChange
    decreases |calls|
  {
    if calls != [] {
      FewFailuresKeepClosed(c, b, calls[..|calls| - 1]);
      LastCall(c, b, calls);
    }
  }

  /** The failing call that reaches it opens the breaker, at the time it failed; the next
      call is then let through exactly when it comes later than the timeout. */
  lemma ThresholdOpens(c: Config, b: Breaker, calls: seq<Call>, now: int)
    requires c.Valid() && b.status.Closed? && 0 <= b.consecutiveFailures
    requires b.consecutiveFailures + |calls| == c.failureThreshold && calls != []
    requires forall k :: 0 <= k < |calls| ==> Fails(calls[k].x)
    ensures var end := AfterCalls(c, b, calls);
            && end.status.Open? && end.lastStateChange == calls[|calls| - 1].done
            && (Allow(c, end, now).1 <==> now > calls[|calls| - 1].done + c.resetTimeout)
  {
    FewFailuresKeepClosed(c, b, calls[..|calls| - 1]);
    LastCall(c, b, calls);
  }

  /** The probe of an open breaker decides: answered, it closes the breaker and clears the
      count; failed, it opens it again from then on; not encoded, it leaves it half-open. */
  lemma ProbeDecides(c: Config, b: Breaker, probe: Call)
    requires !b.status.Closed? && c.Valid() && Allow(c, b, probe.now).1
    ensures var end := AfterCalls(c, b, [probe]);
            && (probe.x == Answered ==> end.status.Closed? && end.consecutiveFailures == 0)
            && (Fails(probe.x) ==> end.status.Open?)
            && (end.status.HalfOpen? <==> probe.x == EncodeFails)
            && (!end.status.HalfOpen? ==> end.lastStateChange == probe.done)
  {
    LastCall(c, b, [probe]);
    assert [probe][..0] == [];
  }

  // ---------------------------------------------------------------- objects

  class BreakerObject {
    const config: Config
    var status: Status
    var halfOpenReqs: int
    var consecutiveFailures: int
    var lastStateChange: int
    var lastFailure: int
    var totalRequests: nat
    var totalSuccesses: nat
    var totalFailures: nat
    var opens: nat

    function State(): Breaker
      reads this
    {
      Breaker(status, halfOpenReqs, consecutiveFailures, lastStateChange, lastFailure,
              totalRequests, totalSuccesses, totalFailures, opens)
    }

    constructor (threshold: int, resetTimeout: int, maxReqs: int, now: int)
      ensures config == NewConfig(threshold, resetTimeout, maxReqs) && State() == New(now)
    {
      config := NewConfig(threshold, resetTimeout, maxReqs);
      status, halfOpenReqs, consecutiveFailures := Closed, 0, 0;
      lastStateChange, lastFailure := now, 0;
      totalRequests, totalSuccesses, totalFailures, opens := 0, 0, 0, 0;
    }

    /** The loop goes round again only after it has itself moved open to half-open. */
    method AllowRequest(now: int) returns (granted: bool)
      requires config.Valid()
      modifies this
      ensures (State(), granted) == Allow(config, old(State()), now)
    {
      totalRequests := totalRequests + 1;
      while true
        invariant var counted := old(State()).(totalRequests := old(totalRequests) + 1);
                  || State() == counted
                  || (old(status).Open? && now - old(lastStateChange) > config.resetTimeout
                      && State() == counted.(status := HalfOpen, lastStateChange := now, halfOpenReqs := 0))
        decreases status.Open?
      {
        match status {
          case Closed =>
            return true;
          case Open =>
            if now - lastStateChange <= config.resetTimeout {
              return false;
            }
            status := HalfOpen;
            lastStateChange := now;
            halfOpenReqs := 0;
          case HalfOpen =>
            halfOpenReqs := Wrap32(halfOpenReqs + 1);
            return halfOpenReqs <= config.halfOpenMaxReqs;
        }
      }
    }

    method RecordSuccess(now: int)
      modifies this
      ensures State() == Succeed(old(State()), now)
    {
      totalSuccesses := totalSuccesses + 1;
      consecutiveFailures := 0;
      if status == HalfOpen {
        status := Closed;
        lastStateChange := now;
      }
    }

    method RecordFailure(now: int)
      modifies this
      ensures State() == Fail(config, old(State()), now)
    {
      totalFailures := totalFailures + 1;
      consecutiveFailures := Wrap32(consecutiveFailures + 1);
      lastFailure := now;
      if (status == Closed && consecutiveFailures >= config.failureThreshold) || status == HalfOpen {
        status := Open;
        opens := opens + 1;
        lastStateChange := now;
      }
    }

    method Reset(now: int)
      modifies this
      ensures State() == ResetTo(old(State()), now)
    {
      status := Closed;
      consecutiveFailures := 0;
      lastStateChange := now;
    }
  }

  /** An engine's UDP socket, and how often one was dialled, made and closed. */
  class Engine {
    const breaker: BreakerObject
    var connected: bool
    var dialled: nat
    var made: nat
    var closed: nat

    /** Every connection ever made is closed or the one at hand. */
    predicate Valid()
      reads this
    {
      made == closed + if connected then 1 else 0
    }

    constructor (b: BreakerObject)
      ensures Valid() && breaker == b && !connected && dialled == 0
    {
      breaker := b;
      connected, dialled, made, closed := false, 0, 0, 0;
    }

    method CloseConnection()
      requires Valid()
      modifies this
      ensures Valid() && !connected && dialled == old(dialled) && made == old(made)
    {
      if connected {
        connected := false;
        closed := closed + 1;
      }
    }

    /** Always dials once; a connection left over from before is closed first. */
    method EnsureConnection(dials: bool) returns (ok: bool)
      requires Valid()
      modifies this
      ensures Valid() && connected == ok == dials && dialled == old(dialled) + 1
      ensures made == old(made) + (if dials then 1 else 0)
      ensures closed == old(closed) + if old(connected) then 1 else 0
    {
      CloseConnection();
      dialled := dialled + 1;
      if !dials {
        return false;
      }
      connected := true;
      made := made + 1;
      return true;
    }

    /** A request that the breaker lets through dials once, and no connection outlives
        it: everything ever made is closed again, on every return path. One that it
        denies leaves the socket alone. */
    method Request(x: Exchange, now: int, done: int) returns (answered: bool)
      requires Valid() && breaker.config.Valid()
      modifies this, breaker
      ensures Valid()
      ensures breaker.State() == AfterCalls(breaker.config, old(breaker.State()), [Call(x, now, done)])
      ensures answered == (Allow(breaker.config, old(breaker.State()), now).1 && x == Answered)
      ensures (breaker.State(), answered) == RequestOutcome(breaker.config, old(breaker.State()), x, now, done)
      ensures if Allow(breaker.config, old(breaker.State()), now).1
              then !connected && dialled == old(dialled) + 1
                && made == old(made) + (if x.DialFails? then 0 else 1) == closed
              else connected == old(connected) && dialled == old(dialled) && made == old(made) && closed == old(closed)
    {
      var granted := breaker.AllowRequest(now);
      if !granted {
        return false;
      }
      var ok := EnsureConnection(!x.DialFails?);
      if !ok {
        breaker.RecordFailure(done);
        return false;
      }
      if x.EncodeFails? {
        CloseConnection();
        return false;
      }
      if !x.Answered? {
        breaker.RecordFailure(done);
        CloseConnection();
        return false;
      }
      breaker.RecordSuccess(done);
      CloseConnection();
      return true;
    }
  }
}
