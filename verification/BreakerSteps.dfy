/** The circuit breaker taken apart: every atomic load, store, add and
    compare-and-swap is a step of its own, and any number of calls interleave
    freely. The mutex around the time stamps is left out, which only allows more
    interleavings. */
module BreakerSteps {
  import opened CircuitBreaker

  type Tid = nat

  datatype Pc =
    | Idle
    | AllowLoad | AllowTimeout | AllowCas | AllowStamp | AllowZero | AllowAdd
    | SuccessZero | SuccessLoad | SuccessCas | SuccessStamp
    | FailureAdd | FailureLoad(failures: int) | FailureCas(expected: Status) | FailureCount | FailureStamp
    | ResetStatus | ResetFailures | ResetStamp

  datatype Call = CallAllow | CallSuccess | CallFailure | CallReset

  /** The shared fields, and a history of the run that no step reads. */
  datatype Shared = Shared(
    status: Status, halfOpenReqs: int, consecutiveFailures: int, lastStateChange: int, opens: nat,
    grants: nat,            // half-open requests let through
    halfOpenEntries: nat,   // changes from open to half-open
    openEntries: nat,       // changes into open
    zeroings: nat,          // times the half-open counter was set to 0
    attempts: nat,          // additions to it since then
    overflowed: bool)       // whether that number ever reached 2^31

  datatype Sys = Sys(shared: Shared, threads: map<Tid, Pc>)

  datatype Move = Begin(t: Tid, call: Call) | Go(t: Tid, now: int)

  function StartOf(call: Call): Pc {
    match call
    case CallAllow => AllowLoad
    case CallSuccess => SuccessZero
    case CallFailure => FailureAdd
    case CallReset => ResetStatus
  }

  /** A compare-and-swap or store of the status, with the history it leaves. */
  function SetStatus(s: Shared, to: Status): Shared {
    s.(status := to,
       halfOpenEntries := s.halfOpenEntries + (if s.status.Open? && to.HalfOpen? then 1 else 0),
       openEntries := s.openEntries + (if !s.status.Open? && to.Open? then 1 else 0))
  }

  function Add(c: Config, s: Shared): Shared {
    var reqs := Wrap32(s.halfOpenReqs + 1);
    s.(halfOpenReqs := reqs, grants := s.grants + (if reqs <= c.halfOpenMaxReqs then 1 else 0),
       attempts := s.attempts + 1, overflowed := s.overflowed || s.attempts + 1 >= INT32_LIMIT)
  }

  function Advance(c: Config, s: Shared, pc: Pc, now: int): (Shared, Pc) {
    match pc
    case Idle => (s, Idle)
    case AllowLoad =>
      (s, match s.status case Closed => Idle case Open => AllowTimeout case HalfOpen => AllowAdd)
    case AllowTimeout => (s, if now - s.lastStateChange > c.resetTimeout then AllowCas else Idle)
    case AllowCas => if s.status.Open? then (SetStatus(s, HalfOpen), AllowStamp) else (s, AllowLoad)
    case AllowStamp => (s.(lastStateChange := now), AllowZero)
    case AllowZero => (s.(halfOpenReqs := 0, zeroings := s.zeroings + 1, attempts := 0), AllowLoad)
    case AllowAdd => (Add(c, s), Idle)
    case SuccessZero => (s.(consecutiveFailures := 0), SuccessLoad)
    case SuccessLoad => (s, if s.status.HalfOpen? then SuccessCas else Idle)
    case SuccessCas => if s.status.HalfOpen? then (SetStatus(s, Closed), SuccessStamp) else (s, Idle)
    case SuccessStamp => (s.(lastStateChange := now), Idle)
    case FailureAdd =>
      var failures := Wrap32(s.consecutiveFailures + 1);
      (s.(consecutiveFailures := failures), FailureLoad(failures))
    case FailureLoad(failures) =>
      var trips := (s.status.Closed? && failures >= c.failureThreshold) || s.status.HalfOpen?;
      (s, if trips then FailureCas(s.status) else Idle)
    case FailureCas(expected) => if s.status == expected then (SetStatus(s, Open), FailureCount) else (s, Idle)
    case FailureCount => (s.(opens := s.opens + 1), FailureStamp)
    case FailureStamp => (s.(lastStateChange := now), Idle)
    case ResetStatus => (SetStatus(s, Closed), ResetFailures)
    case ResetFailures => (s.(consecutiveFailures := 0), ResetStamp)
    case ResetStamp => (s.(lastStateChange := now), Idle)
  }

  predicate CanMove(s: Sys, m: Move) {
    m.t in s.threads && (m.Begin? <==> s.threads[m.t].Idle?)
  }

  function Step(c: Config, s: Sys, m: Move): Sys
    requires m.t in s.threads
  {
    match m
    case Begin(t, call) => s.(threads := s.threads[t := StartOf(call)])
    case Go(t, now) =>
      var (shared, pc) := Advance(c, s.shared, s.threads[t], now);
      Sys(shared, s.threads[t := pc])
  }

  ghost predicate IsRun(c: Config, s: Sys, run: seq<Move>)
    decreases |run|
  {
    run == [] || (CanMove(s, run[0]) && IsRun(c, Step(c, s, run[0]), run[1..]))
  }

  ghost function After(c: Config, s: Sys, run: seq<Move>): Sys
    requires IsRun(c, s, run)
    decreases |run|
  {
    if run == [] then s else After(c, Step(c, s, run[0]), run[1..])
  }

  ghost predicate Quiet(s: Sys) {
    forall t :: t in s.threads ==> s.threads[t].Idle?
  }

  ghost predicate Init(s: Sys) {
    Quiet(s) && s.shared == Shared(Closed, 0, 0, s.shared.lastStateChange, 0, 0, 0, 0, 0, 0, false)
  }

  // ------------------------------------------------------------- invariant

  predicate AboutToZero(pc: Pc) {
    pc.AllowStamp? || pc.AllowZero?
  }

  function Zeroing(s: Sys): set<Tid> {
    set t | t in s.threads && AboutToZero(s.threads[t])
  }

  function Counting(s: Sys): set<Tid> {
    set t | t in s.threads && s.threads[t].FailureCount?
  }

  /** What the shared fields say about the grants, as long as the counter has not
      overflowed: one budget for every zeroing, and what was added since. */
  ghost predicate Accounted(c: Config, s: Shared)
    requires c.Valid()
  {
    !s.overflowed ==>
      && s.halfOpenReqs == s.attempts < INT32_LIMIT
      && s.grants <= Budget(c.halfOpenMaxReqs, s.zeroings) + Min(s.attempts, c.halfOpenMaxReqs)
  }

  ghost predicate Inv(c: Config, s: Sys)
    requires c.Valid()
  {
    && Accounted(c, s.shared)
    && s.shared.zeroings + |Zeroing(s)| == s.shared.halfOpenEntries
    && s.shared.opens + |Counting(s)| == s.shared.openEntries
    && (forall t :: t in s.threads && s.threads[t].FailureCas? ==> !s.threads[t].expected.Open?)
  }

  function One(b: bool): nat {
    if b then 1 else 0
  }

  /** Per step: a swap to half-open is balanced by a thread that will zero the
      counter, a swap to open by a thread that will count it. */
  lemma AdvanceBalances(c: Config, s: Shared, pc: Pc, now: int)
    requires c.Valid() && Accounted(c, s) && (pc.FailureCas? ==> !pc.expected.Open?)
    ensures var (s', pc') := Advance(c, s, pc, now);
            && Accounted(c, s') && (pc'.FailureCas? ==> !pc'.expected.Open?)
            && s'.zeroings + One(AboutToZero(pc')) + s.halfOpenEntries
                 == s.zeroings + One(AboutToZero(pc)) + s'.halfOpenEntries
            && s'.opens + One(pc'.FailureCount?) + s.openEntries == s.opens + One(pc.FailureCount?) + s'.openEntries
  {}

  lemma PendingAfter(s: Sys, s': Sys, t: Tid)
    requires t in s.threads && t in s'.threads && s'.threads == s.threads[t := s'.threads[t]]
    ensures |Zeroing(s')| + One(AboutToZero(s.threads[t])) == |Zeroing(s)| + One(AboutToZero(s'.threads[t]))
    ensures |Counting(s')| + One(s.threads[t].FailureCount?) == |Counting(s)| + One(s'.threads[t].FailureCount?)
  {
    var (pc, pc') := (s.threads[t], s'.threads[t]);
    assert t in Zeroing(s) <==> AboutToZero(pc);
    assert t in Counting(s) <==> pc.FailureCount?;
    assert Zeroing(s') == if AboutToZero(pc') then Zeroing(s) + {t} else Zeroing(s) - {t};
    assert Counting(s') == if pc'.FailureCount? then Counting(s) + {t} else Counting(s) - {t};
  }

  lemma StepKeepsInv(c: Config, s: Sys, m: Move)
    requires c.Valid() && Inv(c, s) && CanMove(s, m)
    ensures Inv(c, Step(c, s, m))
  {
    PendingAfter(s, Step(c, s, m), m.t);
    if m.Go? {
      AdvanceBalances(c, s.shared, s.threads[m.t], m.now);
    }
  }

  lemma {:induction false} RunKeepsInv(c: Config, s: Sys, run: seq<Move>)
    requires c.Valid() && Inv(c, s) && IsRun(c, s, run)
    ensures Inv(c, After(c, s, run))
    decreases |run|
  {
    if run != [] {
      StepKeepsInv(c, s, run[0]);
      RunKeepsInv(c, Step(c, s, run[0]), run[1..]);
    }
  }

  // --------------------------------------------------------------- theorems

  lemma InitHasInv(c: Config, s: Sys)
    requires c.Valid() && Init(s)
    ensures Inv(c, s)
  {
    assert Zeroing(s) == {} && Counting(s) == {};
  }

  /** Under every interleaving the half-open grants of the whole run stay within
      one more budget than there were changes from open to half-open. */
  lemma GrantsAreBounded(c: Config, s: Sys, run: seq<Move>)
    requires c.Valid() && Init(s) && IsRun(c, s, run) && !After(c, s, run).shared.overflowed
    ensures After(c, s, run).shared.grants <= c.halfOpenMaxReqs * (After(c, s, run).shared.halfOpenEntries + 1)
  {
    InitHasInv(c, s);
    RunKeepsInv(c, s, run);
    var end := After(c, s, run).shared;
    Monotone(c.halfOpenMaxReqs, end.zeroings + 1, end.halfOpenEntries + 1);
    assert Budget(c.halfOpenMaxReqs, end.zeroings + 1) == c.halfOpenMaxReqs * (end.zeroings + 1);
  }

  lemma Monotone(k: nat, m: nat, n: nat)
    requires m <= n
    ensures k * m <= k * n
  {
    assert k * n == k * m + k * (n - m);
  }

  /** Once every call has returned, `opens` is exactly the number of times the
      breaker went into open. */
  lemma OpensAreExact(c: Config, s: Sys, run: seq<Move>)
    requires c.Valid() && Init(s) && IsRun(c, s, run) && Quiet(After(c, s, run))
    ensures After(c, s, run).shared.opens == After(c, s, run).shared.openEntries
  {
    InitHasInv(c, s);
    RunKeepsInv(c, s, run);
    assert Counting(After(c, s, run)) == {};
  }

  /** The changes of status the breaker is meant to make. */
  predicate Legal(from: Status, to: Status) {
    || from == to
    || (from.Closed? && to.Open?)
    || (from.Open? && to.HalfOpen?)
    || (from.HalfOpen? && !to.HalfOpen?)
  }

  /** In every reachable state the next step makes a legal change of status,
      unless it is the store of a Reset call, which closes the breaker. */
  lemma TransitionsAreLegal(c: Config, s: Sys, run: seq<Move>, m: Move)
    requires c.Valid() && Init(s) && IsRun(c, s, run) && CanMove(After(c, s, run), m)
    ensures var before, after := After(c, s, run), Step(c, After(c, s, run), m);
            || Legal(before.shared.status, after.shared.status)
            || (before.threads[m.t].ResetStatus? && after.shared.status.Closed?)
  {
    InitHasInv(c, s);
    RunKeepsInv(c, s, run);
  }

  // ------------------------------------- uninterrupted calls are the methods

  function Rank(pc: Pc, status: Status): nat {
    match pc
    case Idle => 0
    case AllowLoad => if status.Open? then 7 else 2
    case AllowTimeout => if status.Open? then 6 else 4
    case AllowCas => if status.Open? then 5 else 3
    case AllowStamp => if status.Open? then 9 else 4
    case AllowZero => if status.Open? then 8 else 3
    case AllowAdd => 1
    case SuccessZero => 4 case SuccessLoad => 3 case SuccessCas => 2 case SuccessStamp => 1
    case FailureAdd => 5 case FailureLoad(_) => 4 case FailureCas(_) => 3 case FailureCount => 2 case FailureStamp => 1
    case ResetStatus => 3 case ResetFailures => 2 case ResetStamp => 1
  }

  /** One call running alone, with all its clock readings equal. */
  function Finish(c: Config, s: Shared, pc: Pc, now: int): Shared
    decreases Rank(pc, s.status)
  {
    if pc.Idle? then s else var (s', pc') := Advance(c, s, pc, now); Finish(c, s', pc', now)
  }

  /** The shared fields agree with those of the atomic model. */
  predicate Agrees(s: Shared, b: Breaker) {
    s.status == b.status && s.halfOpenReqs == b.halfOpenReqs && s.consecutiveFailures == b.consecutiveFailures
    && s.lastStateChange == b.lastStateChange && s.opens == b.opens
  }

  function EventOf(call: Call, now: int): Event {
    match call
    case CallAllow => Request(now)
    case CallSuccess => Success(now)
    case CallFailure => Failure(now)
    case CallReset => Reset(now)
  }

  /** A call that no other interrupts does what module CircuitBreaker says of the
      method, and counts a half-open grant exactly when the method grants one. */
  lemma UninterruptedCallIsAtomic(c: Config, s: Shared, b: Breaker, call: Call, now: int)
    requires Agrees(s, b)
    ensures var s' := Finish(c, s, StartOf(call), now);
            && Agrees(s', Apply(c, b, EventOf(call, now)))
            && s'.grants == s.grants + One(call.CallAllow? && Allow(c, b, now).1 && s'.status.HalfOpen?)
  {
    match call
    case CallAllow => FinishAllow(c, s, now);
    case CallSuccess => FinishSuccess(c, s, now);
    case CallFailure => FinishFailure(c, s, now);
    case CallReset => FinishReset(c, s, now);
  }

  lemma FinishAllow(c: Config, s: Shared, now: int)
    ensures Finish(c, s, AllowLoad, now) ==
            match s.status
            case Closed => s
            case HalfOpen => Add(c, s)
            case Open =>
              if now - s.lastStateChange <= c.resetTimeout then s
              else
                var half := SetStatus(s, HalfOpen);
                Add(c, half.(lastStateChange := now, halfOpenReqs := 0, zeroings := s.zeroings + 1, attempts := 0))
  {
    if s.status.HalfOpen? {
      assert Finish(c, s, AllowLoad, now) == Finish(c, s, AllowAdd, now) == Add(c, s);
    } else if s.status.Open? {
      assert Finish(c, s, AllowLoad, now) == Finish(c, s, AllowTimeout, now);
      if now - s.lastStateChange > c.resetTimeout {
        var half := SetStatus(s, HalfOpen);
        var stamped := half.(lastStateChange := now);
        var zeroed := stamped.(halfOpenReqs := 0, zeroings := s.zeroings + 1, attempts := 0);
        assert Finish(c, s, AllowTimeout, now) == Finish(c, s, AllowCas, now);
        assert Finish(c, s, AllowCas, now) == Finish(c, half, AllowStamp, now);
        assert Finish(c, half, AllowStamp, now) == Finish(c, stamped, AllowZero, now);
        assert Finish(c, stamped, AllowZero, now) == Finish(c, zeroed, AllowLoad, now);
        assert Finish(c, zeroed, AllowLoad, now) == Finish(c, zeroed, AllowAdd, now) == Add(c, zeroed);
      } else {
        assert Finish(c, s, AllowTimeout, now) == s;
      }
    }
  }

  lemma FinishSuccess(c: Config, s: Shared, now: int)
    ensures Finish(c, s, SuccessZero, now) ==
            var zeroed := s.(consecutiveFailures := 0);
            if s.status.HalfOpen? then SetStatus(zeroed, Closed).(lastStateChange := now) else zeroed
  {
    var zeroed := s.(consecutiveFailures := 0);
    assert Finish(c, s, SuccessZero, now) == Finish(c, zeroed, SuccessLoad, now);
    if s.status.HalfOpen? {
      assert Finish(c, zeroed, SuccessLoad, now) == Finish(c, zeroed, SuccessCas, now);
      var closed := SetStatus(zeroed, Closed);
      assert Finish(c, zeroed, SuccessCas, now) == Finish(c, closed, SuccessStamp, now)
          == closed.(lastStateChange := now);
    } else {
      assert Finish(c, zeroed, SuccessLoad, now) == zeroed;
    }
  }

  lemma FinishFailure(c: Config, s: Shared, now: int)
    ensures Finish(c, s, FailureAdd, now) ==
            var failures := Wrap32(s.consecutiveFailures + 1);
            var added := s.(consecutiveFailures := failures);
            if (s.status.Closed? && failures >= c.failureThreshold) || s.status.HalfOpen?
            then SetStatus(added, Open).(opens := s.opens + 1, lastStateChange := now) else added
  {
    var failures := Wrap32(s.consecutiveFailures + 1);
    var added := s.(consecutiveFailures := failures);
    assert Finish(c, s, FailureAdd, now) == Finish(c, added, FailureLoad(failures), now);
    if (s.status.Closed? && failures >= c.failureThreshold) || s.status.HalfOpen? {
      var tripped := SetStatus(added, Open);
      assert Finish(c, added, FailureLoad(failures), now) == Finish(c, added, FailureCas(s.status), now);
      assert Finish(c, added, FailureCas(s.status), now) == Finish(c, tripped, FailureCount, now);
      var counted := tripped.(opens := s.opens + 1);
      assert Finish(c, tripped, FailureCount, now) == Finish(c, counted, FailureStamp, now)
          == counted.(lastStateChange := now);
    } else {
      assert Finish(c, added, FailureLoad(failures), now) == added;
    }
  }

  lemma FinishReset(c: Config, s: Shared, now: int)
    ensures Finish(c, s, ResetStatus, now) == SetStatus(s, Closed).(consecutiveFailures := 0, lastStateChange := now)
  {
    var closed := SetStatus(s, Closed);
    assert Finish(c, s, ResetStatus, now) == Finish(c, closed, ResetFailures, now);
    var cleared := closed.(consecutiveFailures := 0);
    assert Finish(c, closed, ResetFailures, now) == Finish(c, cleared, ResetStamp, now)
        == cleared.(lastStateChange := now);
  }

  // ------------------------------------------- when episodes keep to their limit

  /** Sharper than Inv: with a single thread nothing is added to the counter before it
      has been zeroed for the first time. */
  ghost predicate LoneInv(c: Config, s: Sys)
    requires c.Valid()
  {
    && Inv(c, s)
    && (s.shared.status.HalfOpen? ==> s.shared.halfOpenEntries > 0)
    && (forall t :: t in s.threads && s.threads[t].AllowAdd? ==> s.shared.halfOpenEntries > 0)
    && (!s.shared.overflowed ==> LoneAccount(c, s.shared))
  }

  predicate LoneAccount(c: Config, s: Shared)
    requires c.Valid()
  {
    if s.zeroings == 0 then s.attempts == 0 && s.grants == 0
    else s.grants <= Budget(c.halfOpenMaxReqs, s.zeroings - 1) + Min(s.attempts, c.halfOpenMaxReqs)
  }

  lemma AddsWithinAccount(c: Config, s: Shared)
    requires c.Valid() && s.zeroings > 0 && Accounted(c, s) && (!s.overflowed ==> LoneAccount(c, s))
    ensures !Add(c, s).overflowed ==> LoneAccount(c, Add(c, s))
  {
    hide Budget;
  }

  lemma LoneThread(s: Sys, t: Tid)
    requires |s.threads| <= 1 && t in s.threads
    ensures forall u :: u in s.threads ==> u == t
  {
    assert s.threads.Keys == {t} by {
      assert |s.threads.Keys - {t}| == |s.threads.Keys| - 1;
    }
  }

  lemma AdvanceKeepsAccount(c: Config, s: Shared, pc: Pc, now: int)
    requires c.Valid() && Accounted(c, s) && (!s.overflowed ==> LoneAccount(c, s))
    requires (s.status.HalfOpen? ==> s.halfOpenEntries > 0) && (pc.AllowAdd? ==> s.zeroings > 0)
    ensures var (s', pc') := Advance(c, s, pc, now);
            && (!s'.overflowed ==> LoneAccount(c, s')) && s.halfOpenEntries <= s'.halfOpenEntries
            && (s'.status.HalfOpen? || pc'.AllowAdd? ==> s'.halfOpenEntries > 0)
  {
    if pc.AllowAdd? {
      AddsWithinAccount(c, s);
    }
  }

  lemma StepKeepsLoneInv(c: Config, s: Sys, m: Move)
    requires c.Valid() && LoneInv(c, s) && CanMove(s, m) && |s.threads| <= 1
    ensures LoneInv(c, Step(c, s, m)) && |Step(c, s, m).threads| <= 1
  {
    StepKeepsInv(c, s, m);
    LoneThread(s, m.t);
    assert Step(c, s, m).threads.Keys == s.threads.Keys;
    if m.Go? {
      assert s.threads[m.t].AllowAdd? ==> Zeroing(s) == {};
      AdvanceKeepsAccount(c, s.shared, s.threads[m.t], m.now);
    }
    hide Inv, Advance, LoneAccount;
  }

  lemma {:induction false} RunKeepsLoneInv(c: Config, s: Sys, run: seq<Move>)
    requires c.Valid() && LoneInv(c, s) && IsRun(c, s, run) && |s.threads| <= 1
    ensures LoneInv(c, After(c, s, run))
    decreases |run|
  {
    hide LoneInv;
    if run != [] {
      StepKeepsLoneInv(c, s, run[0]);
      RunKeepsLoneInv(c, Step(c, s, run[0]), run[1..]);
    }
  }

  lemma LoneGrants(c: Config, s: Sys, run: seq<Move>)
    requires c.Valid() && Init(s) && |s.threads| <= 1 && IsRun(c, s, run) && !After(c, s, run).shared.overflowed
    ensures After(c, s, run).shared.grants <= c.halfOpenMaxReqs * After(c, s, run).shared.halfOpenEntries
  {
    InitHasInv(c, s);
    RunKeepsLoneInv(c, s, run);
    var end := After(c, s, run).shared;
    Monotone(c.halfOpenMaxReqs, end.zeroings, end.halfOpenEntries);
    if end.zeroings > 0 {
      assert Budget(c.halfOpenMaxReqs, end.zeroings) == Budget(c.halfOpenMaxReqs, end.zeroings - 1) + c.halfOpenMaxReqs;
    }
  }

  // ------------------------------------------------------------ putting runs together

  ghost predicate Reaches(c: Config, s: Sys, run: seq<Move>, end: Sys) {
    IsRun(c, s, run) && After(c, s, run) == end
  }

  lemma {:induction false} Chain(c: Config, s: Sys, first: seq<Move>, mid: Sys, second: seq<Move>, end: Sys)
    requires Reaches(c, s, first, mid) && Reaches(c, mid, second, end)
    ensures Reaches(c, s, first + second, end)
    decreases |first|
  {
    if first == [] {
      assert first + second == second;
    } else {
      Chain(c, Step(c, s, first[0]), first[1..], mid, second, end);
      assert (first + second)[1..] == first[1..] + second;
    }
  }

  lemma OneMove(c: Config, s: Sys, m: Move)
    requires CanMove(s, m)
    ensures Reaches(c, s, [m], Step(c, s, m))
  {
    assert [m][1..] == [];
  }

  /** A thread in the middle of a call can be let run alone to the end of it. */
  lemma {:induction false} RunsAlone(c: Config, s: Sys, t: Tid, now: int) returns (run: seq<Move>)
    requires t in s.threads
    ensures Reaches(c, s, run, Sys(Finish(c, s.shared, s.threads[t], now), s.threads[t := Idle]))
    decreases Rank(s.threads[t], s.shared.status)
  {
    if s.threads[t].Idle? {
      run := [];
      assert s.threads[t := Idle] == s.threads;
    } else {
      var next := Step(c, s, Go(t, now));
      assert next.threads[t := Idle] == s.threads[t := Idle];
      OneMove(c, s, Go(t, now));
      var rest := RunsAlone(c, next, t, now);
      run := [Go(t, now)] + rest;
      Chain(c, s, [Go(t, now)], next, rest, Sys(Finish(c, s.shared, s.threads[t], now), s.threads[t := Idle]));
    }
  }

  /** An idle thread can make a whole call without interruption. */
  lemma CallsAlone(c: Config, s: Sys, t: Tid, call: Call, now: int) returns (run: seq<Move>)
    requires t in s.threads && s.threads[t].Idle?
    ensures Reaches(c, s, run, Sys(Finish(c, s.shared, StartOf(call), now), s.threads))
  {
    var next := Step(c, s, Begin(t, call));
    OneMove(c, s, Begin(t, call));
    var rest := RunsAlone(c, next, t, now);
    assert next.threads[t := Idle] == s.threads;
    run := [Begin(t, call)] + rest;
    Chain(c, s, [Begin(t, call)], next, rest, Sys(Finish(c, s.shared, StartOf(call), now), s.threads));
  }

  // ----------------------------------------------- a run that uses the extra budget

  /** A breaker that has just seen its n-th failure at time 0. */
  function Failed(c: Config, since: int, n: nat): Shared {
    if n < c.failureThreshold then Shared(Closed, 0, n, since, 0, 0, 0, 0, 0, 0, false)
    else Shared(Open, 0, n, 0, 1, 0, 0, 1, 0, 0, false)
  }

  lemma {:induction false} FailsUntilOpen(c: Config, s: Sys, t: Tid, n: nat) returns (run: seq<Move>)
    requires c.Valid() && Init(s) && t in s.threads && n <= c.failureThreshold
    ensures Reaches(c, s, run, Sys(Failed(c, s.shared.lastStateChange, n), s.threads))
  {
    if n == 0 {
      run := [];
      assert s.shared == Failed(c, s.shared.lastStateChange, 0);
    } else {
      var (before, after) := (Failed(c, s.shared.lastStateChange, n - 1), Failed(c, s.shared.lastStateChange, n));
      var first := FailsUntilOpen(c, s, t, n - 1);
      FinishFailure(c, before, 0);
      var last := CallsAlone(c, Sys(before, s.threads), t, CallFailure, 0);
      run := first + last;
      Chain(c, s, first, Sys(before, s.threads), last, Sys(after, s.threads));
    }
  }

  /** The half-open breaker after `attempts` requests in its counter, all of them granted. */
  function Probing(c: Config, change: int, zeroings: nat, attempts: nat, grants: nat): Shared {
    Shared(HalfOpen, attempts, c.failureThreshold, change, 1, grants, 1, 1, zeroings, attempts, false)
  }

  lemma {:induction false} GrantsAlone(c: Config, s: Sys, t: Tid, change: int, zeroings: nat, attempts: nat,
      grants: nat, n: nat)
    returns (run: seq<Move>)
    requires c.Valid() && t in s.threads && s.threads[t].Idle? && attempts + n <= c.halfOpenMaxReqs
    requires s.shared == Probing(c, change, zeroings, attempts, grants)
    ensures Reaches(c, s, run, Sys(Probing(c, change, zeroings, attempts + n, grants + n), s.threads))
  {
    if n == 0 {
      run := [];
    } else {
      var mid := Sys(Probing(c, change, zeroings, attempts + n - 1, grants + n - 1), s.threads);
      var first := GrantsAlone(c, s, t, change, zeroings, attempts, grants, n - 1);
      FinishAllow(c, mid.shared, 0);
      var last := CallsAlone(c, mid, t, CallAllow, 0);
      run := first + last;
      Chain(c, s, first, mid, last, Sys(Probing(c, change, zeroings, attempts + n, grants + n), s.threads));
    }
  }

  /** Thread `t` swaps an open breaker to half-open and pauses before it zeroes the counter. */
  lemma SwapsAndPauses(c: Config, s: Sys, t: Tid, late: int) returns (run: seq<Move>)
    requires c.Valid() && t in s.threads && s.threads[t].Idle? && late > c.resetTimeout
    requires s.shared == Failed(c, 0, c.failureThreshold)
    ensures Reaches(c, s, run, Sys(Probing(c, 0, 0, 0, 0), s.threads[t := AllowStamp]))
  {
    var s1 := Step(c, s, Begin(t, CallAllow));
    var s2 := Step(c, s1, Go(t, late));
    var s3 := Step(c, s2, Go(t, late));
    var s4 := Step(c, s3, Go(t, late));
    OneMove(c, s, Begin(t, CallAllow));
    OneMove(c, s1, Go(t, late));
    OneMove(c, s2, Go(t, late));
    OneMove(c, s3, Go(t, late));
    Chain(c, s, [Begin(t, CallAllow)], s1, [Go(t, late)], s2);
    Chain(c, s, [Begin(t, CallAllow)] + [Go(t, late)], s2, [Go(t, late)], s3);
    run := [Begin(t, CallAllow)] + [Go(t, late)] + [Go(t, late)] + [Go(t, late)];
    Chain(c, s, [Begin(t, CallAllow)] + [Go(t, late)] + [Go(t, late)], s3, [Go(t, late)], s4);
    assert s4.threads == s.threads[t := AllowStamp];
  }

  lemma FinishZeroing(c: Config, change: int, n: nat, late: int)
    requires c.Valid() && n <= c.halfOpenMaxReqs
    ensures Finish(c, Probing(c, change, 0, n, n), AllowStamp, late) == Probing(c, late, 1, 1, n + 1)
  {
    var half := Probing(c, change, 0, n, n);
    var stamped := half.(lastStateChange := late);
    var zeroed := Probing(c, late, 1, 0, n);
    assert Finish(c, half, AllowStamp, late) == Finish(c, stamped, AllowZero, late);
    assert Finish(c, stamped, AllowZero, late) == Finish(c, zeroed, AllowLoad, late);
    FinishAllow(c, zeroed, late);
  }

  /** The bound of GrantsAreBounded is reached, for every configuration and any two
      threads, from the initial state: while one pauses between its swap to half-open
      and its zeroing of the counter, the other is granted a whole budget, and then a
      second one follows. A single episode grants twice its limit. */
  lemma GrantsBoundIsReached(c: Config, s: Sys, t: Tid, u: Tid) returns (run: seq<Move>)
    requires c.Valid() && Init(s) && t in s.threads && u in s.threads && t != u
    ensures IsRun(c, s, run) && Quiet(After(c, s, run)) && !After(c, s, run).shared.overflowed
    ensures After(c, s, run).shared.halfOpenEntries == 1 && After(c, s, run).shared.grants == 2 * c.halfOpenMaxReqs
  {
    var (max, late) := (c.halfOpenMaxReqs, c.resetTimeout + 1);
    var tripped := Sys(Failed(c, 0, c.failureThreshold), s.threads);
    var paused := Sys(Probing(c, 0, 0, 0, 0), s.threads[t := AllowStamp]);
    var used := Sys(Probing(c, 0, 0, max, max), s.threads[t := AllowStamp]);
    var resumed := Sys(Probing(c, late, 1, 1, max + 1), s.threads);
    var end := Sys(Probing(c, late, 1, max, 2 * max), s.threads);

    var r1 := FailsUntilOpen(c, s, t, c.failureThreshold);
    var r2 := SwapsAndPauses(c, tripped, t, late);
    var r3 := GrantsAlone(c, paused, u, 0, 0, 0, 0, max);
    var r4 := RunsAlone(c, used, t, late);
    FinishZeroing(c, 0, max, late);
    assert used.threads[t := Idle] == s.threads;
    var r5 := GrantsAlone(c, resumed, u, late, 1, 1, max + 1, max - 1);
    hide Reaches;
    Chain(c, s, r1, tripped, r2, paused);
    Chain(c, s, r1 + r2, paused, r3, used);
    Chain(c, s, r1 + r2 + r3, used, r4, resumed);
    Chain(c, s, r1 + r2 + r3 + r4, resumed, r5, end);
    run := r1 + r2 + r3 + r4 + r5;
    assert IsRun(c, s, run) && After(c, s, run) == end by { ReachesMeans(c, s, run, end); }
  }

  lemma ReachesMeans(c: Config, s: Sys, run: seq<Move>, end: Sys)
    requires Reaches(c, s, run, end)
    ensures IsRun(c, s, run) && After(c, s, run) == end
  {}

  /** Half-open episodes keep to their limit in every run from the initial state
      exactly when there is no second thread. */
  lemma EpisodesKeepLimitIff(c: Config, s: Sys)
    requires c.Valid() && Init(s)
    ensures (forall run :: IsRun(c, s, run) && !After(c, s, run).shared.overflowed ==>
               After(c, s, run).shared.grants <= c.halfOpenMaxReqs * After(c, s, run).shared.halfOpenEntries)
            <==> |s.threads| <= 1
  {
    if |s.threads| <= 1 {
      forall run | IsRun(c, s, run) && !After(c, s, run).shared.overflowed
        ensures After(c, s, run).shared.grants <= c.halfOpenMaxReqs * After(c, s, run).shared.halfOpenEntries
      {
        LoneGrants(c, s, run);
      }
    } else {
      var t :| t in s.threads;
      assert |s.threads.Keys - {t}| == |s.threads.Keys| - 1;
      var u :| u in s.threads.Keys - {t};
      var run := GrantsBoundIsReached(c, s, t, u);
      assert After(c, s, run).shared.grants > c.halfOpenMaxReqs * After(c, s, run).shared.halfOpenEntries;
    }
  }
}
