/** The RTPEngine manager: which engine is active, what a failed offer, answer or
    delete does to that choice, and how calls stay on their engine.

    Engines are an oracle: a request to one of them succeeds or fails, and a
    successful reply may lack its SDP. */
module RtpFailover {
  import opened Addresses
  import opened Ttl
  import opened ShardHash
  import opened MemoryModel

  datatype EngineStatus = EngineStatus(isHealthy: bool, failCount: nat)

  /** `status` is nil until the first offer; `threshold` is 0 until then. */
  datatype Manager = Manager(activeIdx: nat, status: Option<seq<EngineStatus>>, threshold: int)

  datatype Outcome = Fails | NoSdp | Sdp

  datatype Reply = Answered | MissingSdp | Failed | NoHealthyEngine

  /** The engine the retry was sent to, if there was one, and the caller's reply. */
  datatype OfferResult = OfferResult(retriedOn: Option<nat>, reply: Reply)

  function ReplyOf(o: Outcome): Reply {
    match o case Fails => Failed case NoSdp => MissingSdp case Sdp => Answered
  }

  function InitStatus(m: Manager, n: nat): Manager {
    m.(threshold := if m.threshold <= 0 then 3 else m.threshold, status := Some(seq(n, _ => EngineStatus(true, 0))))
  }

  predicate Usable(m: Manager, n: nat) {
    m.activeIdx < n && (m.status.Some? ==> |m.status.value| == n && m.threshold > 0)
  }

  /** Failures are booked on the first engine with the failed engine's host address;
      the port is not compared. */
  function RecordFailure(addresses: seq<string>, m: Manager, failed: nat): (m': Manager)
    requires Usable(m, |addresses|) && m.status.Some? && failed < |addresses|
    ensures Usable(m', |addresses|) && m'.status.Some?
  {
    var (s, i) := (m.status.value, FirstWith(addresses, addresses[failed]));
    var count := s[i].failCount + 1;
    m.(status := Some(s[i := EngineStatus(s[i].isHealthy && count < m.threshold, count)]))
  }

  /** The first healthy engine other than `excluded`, from `from` on. */
  function FirstHealthy(s: seq<EngineStatus>, excluded: nat, from: nat): (r: Option<nat>)
    requires from <= |s|
    ensures r.Some? ==> from <= r.value < |s| && r.value != excluded && s[r.value].isHealthy
    ensures r.Some? ==> forall i :: from <= i < r.value && i != excluded ==> !s[i].isHealthy
    ensures r.None? ==> forall i :: from <= i < |s| && i != excluded ==> !s[i].isHealthy
    decreases |s| - from
  {
    if from == |s| then None
    else if from != excluded && s[from].isHealthy then Some(from)
    else FirstHealthy(s, excluded, from + 1)
  }

  /** ProcessOffer: the failure is recorded, tryFailover moves to another healthy
      engine, and failoverOffer then moves on once more before it sends the retry. */
  function Offer(addresses: seq<string>, m: Manager, first: Outcome, retry: Outcome): (r: (Manager, OfferResult))
    requires Usable(m, |addresses|)
    ensures Usable(r.0, |addresses|) && r.0.status.Some?
  {
    var m1 := if m.status.None? then InitStatus(m, |addresses|) else m;
    if !first.Fails? then (m1, OfferResult(None, ReplyOf(first)))
    else
      var m2 := RecordFailure(addresses, m1, m.activeIdx);
      var chosen := FirstHealthy(m2.status.value, m2.activeIdx, 0);
      if chosen.None? then (m2, OfferResult(None, Failed))
      else
        var target := FirstHealthy(m2.status.value, chosen.value, 0);
        if target.None? then (m2.(activeIdx := chosen.value), OfferResult(None, NoHealthyEngine))
        else (m2.(activeIdx := target.value), OfferResult(target, ReplyOf(retry)))
  }

  // ---------------------------------------------------- where a retry goes

  /** The statuses once the failure of the active engine has been booked. */
  function Booked(addresses: seq<string>, m: Manager): (s: seq<EngineStatus>)
    requires Usable(m, |addresses|)
    ensures |s| == |addresses|
  {
    RecordFailure(addresses, if m.status.None? then InitStatus(m, |addresses|) else m, m.activeIdx).status.value
  }

  /** A failed offer is never retried on the engine tryFailover chose. It goes back
      to the engine that just failed exactly when that one is still healthy and no
      third healthy engine comes before it. */
  lemma RetryGoesBackIff(addresses: seq<string>, m: Manager, retry: Outcome, chosen: nat)
    requires Usable(m, |addresses|) && FirstHealthy(Booked(addresses, m), m.activeIdx, 0) == Some(chosen)
    ensures var s, r := Booked(addresses, m), Offer(addresses, m, Fails, retry).1.retriedOn;
            && r != Some(chosen)
            && (r == Some(m.activeIdx) <==>
                  s[m.activeIdx].isHealthy && forall i :: 0 <= i < m.activeIdx && i != chosen ==> !s[i].isHealthy)
            && (r == None <==> forall i :: 0 <= i < |s| && i != chosen ==> !s[i].isHealthy)
  {}

  /** With two engines the other one is therefore never offered the call. */
  lemma TwoEnginesNeverFailOver(addresses: seq<string>, m: Manager, retry: Outcome)
    requires |addresses| == 2 && Usable(m, 2)
    ensures var r := Offer(addresses, m, Fails, retry).1.retriedOn; r == None || r == Some(m.activeIdx)
  {
    var chosen := FirstHealthy(Booked(addresses, m), m.activeIdx, 0);
    if chosen.Some? {
      RetryGoesBackIff(addresses, m, retry, chosen.value);
    }
  }

  /** What an offer does to one engine's status. */
  lemma OfferKeepsUnhealthy(addresses: seq<string>, m: Manager, first: Outcome, retry: Outcome, i: nat)
    requires Usable(m, |addresses|) && m.status.Some? && i < |addresses|
    ensures var (was, is_) := (m.status.value[i], Offer(addresses, m, first, retry).0.status.value[i]);
            (is_.isHealthy ==> was.isHealthy) && was.failCount <= is_.failCount
  {}

  // --------------------------------------------------------- cyclic failover

  /** The loop index i of failoverAnswer and failoverDelete, as an engine. */
  function EngineAt(n: nat, current: nat, i: nat): nat
    requires current < n
  {
    (current + i + 1) % n
  }

  /** The engines in the order they are tried. */
  function TryOrder(n: nat, current: nat): (order: seq<nat>)
    requires current < n
    ensures |order| == n - 1
  {
    seq(n - 1, i requires 0 <= i < n - 1 => EngineAt(n, current, i))
  }

  lemma EngineAtIs(n: nat, current: nat, i: nat)
    requires current < n && i < n
    ensures EngineAt(n, current, i) == if current + i + 1 < n then current + i + 1 else current + i + 1 - n
  {
    if current + i + 1 >= n {
      WrapOnce(current + i + 1, n);
    }
  }

  lemma WrapOnce(x: nat, n: nat)
    requires n <= x < 2 * n
    ensures x % n == x - n
  {
    assert x == 1 * n + (x - n);
    assert x / n == 1;
  }

  /** Every engine but the active one is tried exactly once, the active one never. */
  lemma TryOrderIsCyclic(n: nat, current: nat)
    requires current < n
    ensures forall i, j :: 0 <= i < j < n - 1 ==> TryOrder(n, current)[i] != TryOrder(n, current)[j]
    ensures forall e: nat :: e in TryOrder(n, current) <==> e < n && e != current
    ensures EngineAt(n, current, n - 1) == current
  {
    forall i | 0 <= i < n
      ensures EngineAt(n, current, i) == if current + i + 1 < n then current + i + 1 else current + i + 1 - n
    {
      EngineAtIs(n, current, i);
    }
    forall e: nat | e < n && e != current ensures e in TryOrder(n, current) {
      var i := if e > current then e - current - 1 else e + n - current - 1;
      assert TryOrder(n, current)[i] == e;
    }
  }

  /** The engines a loop over `order` turns to: up to the first that succeeds. */
  function Attempts(order: seq<nat>, ok: nat -> bool): (tried: seq<nat>)
    ensures tried <= order
  {
    if order == [] then [] else if ok(order[0]) then [order[0]] else [order[0]] + Attempts(order[1..], ok)
  }

  /** The engine that takes the call over, if any. */
  function Winner(order: seq<nat>, ok: nat -> bool): (r: Option<nat>)
    ensures r.Some? ==> r.value in order && ok(r.value)
    ensures r.None? ==> forall e :: e in order ==> !ok(e)
  {
    if order == [] then None else if ok(order[0]) then Some(order[0]) else Winner(order[1..], ok)
  }

  /** The winner is the first success: it ends the attempts and everything before it failed. */
  lemma {:induction false} WinnerIsFirst(order: seq<nat>, ok: nat -> bool)
    ensures Winner(order, ok).None? ==> Attempts(order, ok) == order
    ensures Winner(order, ok).Some? ==>
              var tried := Attempts(order, ok);
              && tried != [] && tried[|tried| - 1] == Winner(order, ok).value
              && forall i :: 0 <= i < |tried| - 1 ==> !ok(tried[i])
  {
    if order != [] && !ok(order[0]) {
      WinnerIsFirst(order[1..], ok);
    }
  }

  // ---------------------------------------------------------------- sessions

  datatype Session = Session(engineIdx: int, fromTag: string, toTag: string)

  type Sessions = Typed<Session>

  datatype System = System(manager: Manager, sessions: Sessions)

  /** GetEngine: the session's engine if it has a live one in range, else the active one. */
  function GetEngine(sys: System, n: nat, callID: Key, now: int): (r: (Sessions, nat))
    requires sys.manager.activeIdx < n
    ensures r.1 < n
  {
    if callID.bytes == [] then (sys.sessions, sys.manager.activeIdx)
    else
      var (s, found) := Get(RtpSessions, sys.sessions, callID, now);
      var known := found.Ok? && 0 <= found.value.body.engineIdx < n;
      (s, if known then found.value.body.engineIdx else sys.manager.activeIdx)
  }

  /** One call to ProcessAnswer or DeleteSession. `first` is what the call's engine does
      with the request, `outcome` what each engine does if the failover sends it on;
      that may be the same engine a second time, with another outcome. */
  datatype Request = Request(callID: Key, fromTag: string, toTag: string,
                             first: Outcome, outcome: nat -> Outcome, now: int)

  function Succeeds(q: Request): nat -> bool {
    (e: nat) => !q.outcome(e).Fails?
  }

  /** The loop starts from the active engine, whichever engine it was that failed. */
  function FailoverAnswer(sys: System, n: nat, q: Request): (System, Reply)
    requires sys.manager.activeIdx < n
  {
    var winner := Winner(TryOrder(n, sys.manager.activeIdx), Succeeds(q));
    if winner.None? then (sys, Failed)
    else
      var session := Record(q.callID, None, 0, Session(winner.value, q.fromTag, q.toTag));
      (System(sys.manager.(activeIdx := winner.value), Put(RtpSessions, sys.sessions, q.callID, session, q.now).0),
       ReplyOf(q.outcome(winner.value)))
  }

  function ProcessAnswer(sys: System, n: nat, q: Request): (System, Reply)
    requires sys.manager.activeIdx < n
  {
    var (s1, engine) := GetEngine(sys, n, q.callID, q.now);
    var sys1 := sys.(sessions := s1);
    match q.first
    case Fails => FailoverAnswer(sys1, n, q)
    case NoSdp => (sys1, MissingSdp)
    case Sdp =>
      var (s2, found) := Get(RtpSessions, s1, q.callID, q.now);
      (sys1.(sessions := if found.Err? then s2
                         else Put(RtpSessions, s2, found.value.id,
                           found.value.(body := found.value.body.(toTag := q.toTag)), q.now).0),
       Answered)
  }

  function FailoverDelete(sys: System, n: nat, q: Request): (System, bool)
    requires sys.manager.activeIdx < n
  {
    var winner := Winner(TryOrder(n, sys.manager.activeIdx), Succeeds(q));
    if winner.None? then (sys, false)
    else (System(sys.manager.(activeIdx := winner.value), Delete(sys.sessions, q.callID).0), true)
  }

  function DeleteSession(sys: System, n: nat, q: Request): (System, bool)
    requires sys.manager.activeIdx < n
  {
    var (s1, engine) := GetEngine(sys, n, q.callID, q.now);
    if q.first.Fails? then FailoverDelete(sys.(sessions := s1), n, q)
    else (System(sys.manager, Delete(s1, q.callID).0), true)
  }

  /** Where in the order an engine other than the current one comes. */
  function Place(n: nat, current: nat, e: nat): (i: nat)
    requires current < n && e < n && e != current
    ensures i < n - 1
  {
    if e > current then e - current - 1 else e + n - current - 1
  }

  lemma PlaceIs(n: nat, current: nat, e: nat)
    requires current < n && e < n && e != current
    ensures TryOrder(n, current)[Place(n, current, e)] == e
  {
    EngineAtIs(n, current, Place(n, current, e));
  }

  predicate AllFail(order: seq<nat>, ok: nat -> bool, k: nat)
    requires k <= |order|
  {
    forall i :: 0 <= i < k ==> !ok(order[i])
  }

  lemma AllFailByHead(order: seq<nat>, ok: nat -> bool, k: nat)
    requires 0 < k <= |order|
    ensures AllFail(order, ok, k) <==> !ok(order[0]) && AllFail(order[1..], ok, k - 1)
  {
    if !ok(order[0]) && AllFail(order[1..], ok, k - 1) {
      forall i | 0 <= i < k ensures !ok(order[i]) {
        assert i > 0 ==> order[i] == order[1..][i - 1];
      }
    }
  }

  /** An engine is turned to exactly when everything before it has failed. */
  lemma {:induction false} AttemptedIff(order: seq<nat>, ok: nat -> bool, k: nat)
    requires k < |order| && forall i, j :: 0 <= i < j < |order| ==> order[i] != order[j]
    ensures order[k] in Attempts(order, ok) <==> AllFail(order, ok, k)
    ensures Winner(order, ok) == Some(order[k]) <==> ok(order[k]) && AllFail(order, ok, k)
  {
    if k > 0 {
      var rest := order[1..];
      AllFailByHead(order, ok, k);
      assert order[k] == rest[k - 1] != order[0];
      if !ok(order[0]) {
        hide AllFail;
        AttemptedIff(rest, ok, k - 1);
      }
    }
  }

  /** The engine that failed the call is sent the request again exactly when it is not
      the active one, which the loop leaves out instead, and every engine before it in
      the order fails too. It then takes the call over exactly when it succeeds. */
  lemma FailedEngineRetriedIff(sys: System, n: nat, q: Request)
    requires sys.manager.activeIdx < n
    ensures var (active, ok) := (sys.manager.activeIdx, Succeeds(q));
            var (order, failed) := (TryOrder(n, active), GetEngine(sys, n, q.callID, q.now).1);
            var reached := failed != active && AllFail(order, ok, Place(n, active, failed));
            && (failed in Attempts(order, ok) <==> reached)
            && (Winner(order, ok) == Some(failed) <==> reached && ok(failed))
  {
    hide GetEngine, TryOrder, Attempts, Winner, Succeeds, Place, AllFail;
    ReachedIff(n, sys.manager.activeIdx, GetEngine(sys, n, q.callID, q.now).1, Succeeds(q));
  }

  lemma ReachedIff(n: nat, active: nat, e: nat, ok: nat -> bool)
    requires active < n && e < n
    ensures var order := TryOrder(n, active);
            var reached := e != active && AllFail(order, ok, Place(n, active, e));
            && (e in Attempts(order, ok) <==> reached)
            && (Winner(order, ok) == Some(e) <==> reached && ok(e))
  {
    hide Attempts, Winner;
    var order := TryOrder(n, active);
    TryOrderIsCyclic(n, active);
    if e != active {
      PlaceIs(n, active, e);
      hide TryOrder, Place;
      AttemptedIff(order, ok, Place(n, active, e));
    } else {
      hide TryOrder, Place;
      assert e !in order;
      assert forall a :: a in Attempts(order, ok) ==> a in order;
    }
  }

  /** A call pinned to engine 1 of two, with engine 0 active: engine 1 fails the answer,
      is sent it again, answers, and becomes the active engine. */
  lemma FailedEngineTakesOver(callID: Key, now: int) returns (sys: System, q: Request)
    requires callID.bytes != []
    ensures sys.manager.activeIdx == 0 && GetEngine(sys, 2, callID, now).1 == 1
    ensures q.callID == callID && q.now == now && q.first.Fails?
    ensures Attempts(TryOrder(2, 0), Succeeds(q)) == [1]
    ensures var (after, reply) := ProcessAnswer(sys, 2, q);
            reply == Answered && after.manager.activeIdx == 1 && Pinned(after, callID, 1, now + 24 * HOUR)
  {
    var session := Record(callID, Some(now), 0, Session(1, "", ""));
    sys := System(Manager(0, None, 0), Typed(map[callID := session], 1, 0));
    q := Request(callID, "", "", Fails, _ => Sdp, now);
    EngineAtIs(2, 0, 0);
    assert TryOrder(2, 0) == [1];
  }

  /** The failover loop finds an engine exactly when some engine other than the
      active one would take the request. */
  lemma WinnerExistsIff(n: nat, current: nat, q: Request)
    requires current < n
    ensures var winner := Winner(TryOrder(n, current), Succeeds(q));
            && (winner.None? <==> forall e: nat :: e < n && e != current ==> q.outcome(e).Fails?)
            && (winner.Some? ==> winner.value < n && winner.value != current && !q.outcome(winner.value).Fails?)
  {
    TryOrderIsCyclic(n, current);
    var winner := Winner(TryOrder(n, current), Succeeds(q));
    if winner.None? {
      forall e: nat | e < n && e != current ensures q.outcome(e).Fails? {
        assert e in TryOrder(n, current);
      }
    }
  }

  /** What the two failovers do with the winner, for FailoverPins. */
  lemma FailoverEffect(sys: System, n: nat, q: Request)
    requires sys.manager.activeIdx < n && q.callID.bytes != []
    ensures var winner := Winner(TryOrder(n, sys.manager.activeIdx), Succeeds(q));
            var (a, d) := (FailoverAnswer(sys, n, q), FailoverDelete(sys, n, q));
            if winner.None? then a == (sys, Failed) && d == (sys, false)
            else
              && a.0.manager == d.0.manager == sys.manager.(activeIdx := winner.value)
              && Pinned(a.0, q.callID, winner.value, q.now + 24 * HOUR)
              && a.0.sessions.items[q.callID].body == Session(winner.value, q.fromTag, q.toTag)
              && q.callID !in d.0.sessions.items
  {}

  // ------------------------------------------------------------------ pinning

  /** The call has a session on this engine until that time. */
  predicate Pinned(sys: System, callID: Key, engine: nat, until: int) {
    && callID in sys.sessions.items && sys.sessions.items[callID].id == callID
    && sys.sessions.items[callID].body.engineIdx == engine
    && sys.sessions.items[callID].expireTime == Some(until)
  }

  datatype Op =
    | OfferOp(first: Outcome, retry: Outcome, now: int)
    | AnswerOp(q: Request)
    | DeleteOp(q: Request)
    | LookupOp(callID: Key, now: int)
  {
    function Time(): int {
      match this
      case OfferOp(_, _, t) => t
      case AnswerOp(q) => q.now
      case DeleteOp(q) => q.now
      case LookupOp(_, t) => t
    }
  }

  /** The active engine is in range and every session is stored under its own ID. */
  ghost predicate Good(sys: System, n: nat) {
    Usable(sys.manager, n) && forall k :: k in sys.sessions.items ==> sys.sessions.items[k].id == k
  }

  ghost function Apply(addresses: seq<string>, sys: System, op: Op): (sys': System)
    requires Good(sys, |addresses|)
    ensures Good(sys', |addresses|)
  {
    var n := |addresses|;
    match op
    case OfferOp(first, retry, _) => sys.(manager := Offer(addresses, sys.manager, first, retry).0)
    case AnswerOp(q) => AnswerStaysGood(sys, n, q); ProcessAnswer(sys, n, q).0
    case DeleteOp(q) => DeleteStaysGood(sys, n, q); DeleteSession(sys, n, q).0
    case LookupOp(callID, now) => sys.(sessions := GetEngine(sys, n, callID, now).0)
  }

  lemma AnswerStaysGood(sys: System, n: nat, q: Request)
    requires Good(sys, n)
    ensures Good(ProcessAnswer(sys, n, q).0, n)
  {
    WinnerExistsIff(n, sys.manager.activeIdx, q);
  }

  lemma DeleteStaysGood(sys: System, n: nat, q: Request)
    requires Good(sys, n)
    ensures Good(DeleteSession(sys, n, q).0, n)
  {
    WinnerExistsIff(n, sys.manager.activeIdx, q);
  }

  /** The operation neither deletes this call nor makes it fail over. */
  predicate Spares(op: Op, callID: Key) {
    match op
    case AnswerOp(q) => q.callID == callID ==> !q.first.Fails?
    case DeleteOp(q) => q.callID != callID
    case _ => true
  }

  lemma AnswerKeepsPin(sys: System, n: nat, q: Request, callID: Key, engine: nat, until: int)
    requires Good(sys, n) && engine < n && callID.bytes != []
    requires Pinned(sys, callID, engine, until) && (q.callID == callID ==> !q.first.Fails?) && q.now <= until
    ensures Pinned(ProcessAnswer(sys, n, q).0, callID, engine, until)
  {
    var (s1, e) := GetEngine(sys, n, q.callID, q.now);
    if q.callID == callID {
      assert e == engine;
    }
  }

  lemma DeleteKeepsPin(sys: System, n: nat, q: Request, callID: Key, engine: nat, until: int)
    requires Good(sys, n) && engine < n && callID.bytes != []
    requires Pinned(sys, callID, engine, until) && q.callID != callID && q.now <= until
    ensures Pinned(DeleteSession(sys, n, q).0, callID, engine, until)
  {}

  lemma StepKeepsPin(addresses: seq<string>, sys: System, op: Op, callID: Key, engine: nat, until: int)
    requires Good(sys, |addresses|) && engine < |addresses| && callID.bytes != []
    requires Pinned(sys, callID, engine, until) && Spares(op, callID) && op.Time() <= until
    ensures Pinned(Apply(addresses, sys, op), callID, engine, until)
  {
    match op
    case AnswerOp(q) => AnswerKeepsPin(sys, |addresses|, q, callID, engine, until);
    case DeleteOp(q) => DeleteKeepsPin(sys, |addresses|, q, callID, engine, until);
    case _ =>
  }

  ghost function After(addresses: seq<string>, sys: System, run: seq<Op>): (sys': System)
    requires Good(sys, |addresses|)
    ensures Good(sys', |addresses|)
    decreases |run|
  {
    if run == [] then sys else After(addresses, Apply(addresses, sys, run[0]), run[1..])
  }

  /** GetEngine keeps returning the engine a call was pinned to through any run of
      offers, answers, deletes and lookups, until the call itself fails over, is
      deleted, or its session expires. */
  lemma {:induction false} PinHolds(addresses: seq<string>, sys: System, run: seq<Op>, callID: Key, engine: nat,
      until: int, now: int)
    requires Good(sys, |addresses|) && engine < |addresses| && callID.bytes != []
    requires Pinned(sys, callID, engine, until) && now <= until
    requires forall k :: 0 <= k < |run| ==> Spares(run[k], callID) && run[k].Time() <= until
    ensures GetEngine(After(addresses, sys, run), |addresses|, callID, now).1 == engine
    decreases |run|
  {
    if run != [] {
      StepKeepsPin(addresses, sys, run[0], callID, engine, until);
      PinHolds(addresses, Apply(addresses, sys, run[0]), run[1..], callID, engine, until, now);
    }
  }

  /** An answer that fails over leaves the system as it was, but for an expired session,
      if no other engine takes it. Otherwise the first that does is active, the session
      has the answer's tags, and through any later run GetEngine keeps returning it for that call for a day, until the
      call fails over again or is deleted. */
  lemma FailoverPins(addresses: seq<string>, sys: System, q: Request, run: seq<Op>, now: int)
    requires Good(sys, |addresses|) && q.callID.bytes != [] && q.first.Fails? && now <= q.now + 24 * HOUR
    requires forall k :: 0 <= k < |run| ==> Spares(run[k], q.callID) && run[k].Time() <= q.now + 24 * HOUR
    ensures var n := |addresses|;
            var winner := Winner(TryOrder(n, sys.manager.activeIdx), Succeeds(q));
            var after := ProcessAnswer(sys, n, q).0;
            && Good(after, n)
            && if winner.None? then after == sys.(sessions := GetEngine(sys, n, q.callID, q.now).0)
               else
                 && after.manager == sys.manager.(activeIdx := winner.value)
                 && q.callID in after.sessions.items
                 && after.sessions.items[q.callID].body == Session(winner.value, q.fromTag, q.toTag)
                 && GetEngine(After(addresses, after, run), n, q.callID, now).1 == winner.value
  {
    var n := |addresses|;
    var sys1 := sys.(sessions := GetEngine(sys, n, q.callID, q.now).0);
    var winner := Winner(TryOrder(n, sys.manager.activeIdx), Succeeds(q));
    AnswerStaysGood(sys, n, q);
    FailoverEffect(sys1, n, q);
    WinnerExistsIff(n, sys.manager.activeIdx, q);
    if winner.Some? {
      PinHolds(addresses, ProcessAnswer(sys, n, q).0, run, q.callID, winner.value, q.now + 24 * HOUR, now);
    }
  }

  /** Nothing in a run of offers, answers, deletes and lookups makes an engine healthy
      again or lowers its failure count. */
  lemma {:induction false} UnhealthyForGood(addresses: seq<string>, sys: System, run: seq<Op>, i: nat)
    requires Good(sys, |addresses|) && sys.manager.status.Some? && i < |addresses|
    ensures var end := After(addresses, sys, run).manager;
            && end.status.Some? && i < |end.status.value|
            && (end.status.value[i].isHealthy ==> sys.manager.status.value[i].isHealthy)
            && sys.manager.status.value[i].failCount <= end.status.value[i].failCount
    decreases |run|
  {
    if run != [] {
      StepKeepsUnhealthy(addresses, sys, run[0], i);
      UnhealthyForGood(addresses, Apply(addresses, sys, run[0]), run[1..], i);
    }
  }

  lemma StepKeepsUnhealthy(addresses: seq<string>, sys: System, op: Op, i: nat)
    requires Good(sys, |addresses|) && sys.manager.status.Some? && i < |addresses|
    ensures var next := Apply(addresses, sys, op).manager;
            && next.status.Some? && i < |next.status.value|
            && (next.status.value[i].isHealthy ==> sys.manager.status.value[i].isHealthy)
            && sys.manager.status.value[i].failCount <= next.status.value[i].failCount
  {
    if op.OfferOp? {
      OfferKeepsUnhealthy(addresses, sys.manager, op.first, op.retry, i);
    }
  }

  // ---------------------------------------------------------- what the counts are

  /** The offers of a run that failed on an active engine whose failures are booked on i. */
  ghost function Failures(addresses: seq<string>, sys: System, run: seq<Op>, i: nat): nat
    requires Good(sys, |addresses|)
    decreases |run|
  {
    if run == [] then 0
    else
      var booked := run[0].OfferOp? && run[0].first.Fails?
                    && FirstWith(addresses, addresses[sys.manager.activeIdx]) == i;
      Failures(addresses, Apply(addresses, sys, run[0]), run[1..], i) + if booked then 1 else 0
  }

  function StatusAt(m: Manager, i: nat): EngineStatus
    requires m.status.Some? ==> i < |m.status.value|
  {
    if m.status.None? then EngineStatus(true, 0) else m.status.value[i]
  }

  function Limit(m: Manager): int {
    if m.status.None? && m.threshold <= 0 then 3 else m.threshold
  }

  lemma StepCounts(addresses: seq<string>, sys: System, op: Op, i: nat)
    requires Good(sys, |addresses|) && i < |addresses|
    requires var s := StatusAt(sys.manager, i); s.isHealthy <==> s.failCount < Limit(sys.manager)
    ensures var (m, m') := (sys.manager, Apply(addresses, sys, op).manager);
            var s := StatusAt(m', i);
            && Limit(m') == Limit(m) && (m'.status.Some? <==> m.status.Some? || op.OfferOp?)
            && s.failCount == StatusAt(m, i).failCount + Failures(addresses, sys, [op], i)
            && (s.isHealthy <==> s.failCount < Limit(m))
  {
    hide FirstWith, FirstHealthy, GetEngine, Winner, TryOrder, Succeeds;
    assert [op][1..] == [];
    assert Failures(addresses, Apply(addresses, sys, op), [], i) == 0;
    match op {
      case OfferOp(first, retry, _) => OfferCounts(addresses, sys.manager, first, retry, i);
      case _ =>
    }
  }

  lemma BookingCounts(addresses: seq<string>, m: Manager, i: nat)
    requires Usable(m, |addresses|) && m.status.Some? && i < |addresses|
    requires StatusAt(m, i).isHealthy <==> StatusAt(m, i).failCount < m.threshold
    ensures var m' := RecordFailure(addresses, m, m.activeIdx);
            var booked := FirstWith(addresses, addresses[m.activeIdx]) == i;
            && m'.status.Some? && Limit(m') == Limit(m) && m'.activeIdx == m.activeIdx
            && StatusAt(m', i).failCount == StatusAt(m, i).failCount + (if booked then 1 else 0)
            && (StatusAt(m', i).isHealthy <==> StatusAt(m', i).failCount < m.threshold)
  {}

  function Ready(m: Manager, n: nat): Manager {
    if m.status.None? then InitStatus(m, n) else m
  }

  lemma ReadyKeeps(m: Manager, n: nat, i: nat)
    requires Usable(m, n) && i < n
    ensures Usable(Ready(m, n), n) && Limit(Ready(m, n)) == Ready(m, n).threshold == Limit(m)
    ensures StatusAt(Ready(m, n), i) == StatusAt(m, i) && Ready(m, n).activeIdx == m.activeIdx
  {}

  lemma OfferBooks(addresses: seq<string>, m: Manager, first: Outcome, retry: Outcome)
    requires Usable(m, |addresses|)
    ensures var (m', ready) := (Offer(addresses, m, first, retry).0, Ready(m, |addresses|));
            var booked := if first.Fails? then RecordFailure(addresses, ready, m.activeIdx) else ready;
            m'.status == booked.status && m'.threshold == booked.threshold
  {
    hide RecordFailure, FirstHealthy, InitStatus;
  }

  lemma OfferCounts(addresses: seq<string>, m: Manager, first: Outcome, retry: Outcome, i: nat)
    requires Usable(m, |addresses|) && i < |addresses|
    requires StatusAt(m, i).isHealthy <==> StatusAt(m, i).failCount < Limit(m)
    ensures var m' := Offer(addresses, m, first, retry).0;
            var booked := first.Fails? && FirstWith(addresses, addresses[m.activeIdx]) == i;
            && m'.status.Some? && Limit(m') == Limit(m)
            && StatusAt(m', i).failCount == StatusAt(m, i).failCount + (if booked then 1 else 0)
            && (StatusAt(m', i).isHealthy <==> StatusAt(m', i).failCount < Limit(m))
  {
    hide FirstHealthy, RecordFailure, Offer, Ready, FirstWith;
    ReadyKeeps(m, |addresses|, i);
    OfferBooks(addresses, m, first, retry);
    ReadyIsSome(m, |addresses|);
    BookingCounts(addresses, Ready(m, |addresses|), i);
  }

  lemma ReadyIsSome(m: Manager, n: nat)
    ensures Ready(m, n).status.Some?
  {}

  /** From the start on, an engine is unhealthy exactly when the failed offers booked on
      it are as many as the threshold, or three if there is none; the first offer is what
      brings the statuses about. */
  lemma UnhealthyIff(addresses: seq<string>, sys: System, run: seq<Op>, i: nat)
    requires Good(sys, |addresses|) && sys.manager.status.None? && i < |addresses|
    ensures var (m, failures) := (After(addresses, sys, run).manager, Failures(addresses, sys, run, i));
            && (m.status.Some? <==> exists k :: 0 <= k < |run| && run[k].OfferOp?)
            && (m.status.Some? ==>
                  && |m.status.value| == |addresses| && m.status.value[i].failCount == failures
                  && (!m.status.value[i].isHealthy <==>
                        failures >= if sys.manager.threshold > 0 then sys.manager.threshold else 3))
  {
    hide Apply, After, Failures;
    RunCounts(addresses, sys, run, i);
  }

  lemma {:induction false} RunCounts(addresses: seq<string>, sys: System, run: seq<Op>, i: nat)
    requires Good(sys, |addresses|) && i < |addresses|
    requires var s := StatusAt(sys.manager, i); s.isHealthy <==> s.failCount < Limit(sys.manager)
    ensures var m := After(addresses, sys, run).manager;
            var s := StatusAt(m, i);
            && (m.status.Some? <==> sys.manager.status.Some? || exists k :: 0 <= k < |run| && run[k].OfferOp?)
            && s.failCount == StatusAt(sys.manager, i).failCount + Failures(addresses, sys, run, i)
            && (s.isHealthy <==> s.failCount < Limit(sys.manager))
    decreases |run|
  {
    hide Apply;
    if run != [] {
      StepCounts(addresses, sys, run[0], i);
      FirstOpCounts(addresses, sys, run, i);
      RunCounts(addresses, Apply(addresses, sys, run[0]), run[1..], i);
      if k :| 0 <= k < |run| && run[k].OfferOp? {
        assert k > 0 ==> run[1..][k - 1].OfferOp?;
      }
      assert forall k :: 0 <= k < |run| - 1 ==> run[1..][k] == run[k + 1];
    }
  }

  lemma FirstOpCounts(addresses: seq<string>, sys: System, run: seq<Op>, i: nat)
    requires Good(sys, |addresses|) && run != []
    ensures Failures(addresses, sys, run, i)
        == Failures(addresses, sys, [run[0]], i) + Failures(addresses, Apply(addresses, sys, run[0]), run[1..], i)
  {
    hide Apply;
    assert [run[0]][1..] == [];
    assert Failures(addresses, Apply(addresses, sys, run[0]), [], i) == 0;
  }

  // ---------------------------------------------------------- what the callers see

  /** What an offer is answered with: the active engine's reply unless it failed, then the
      retry's, if there was one. */
  lemma OfferReplyIs(addresses: seq<string>, m: Manager, first: Outcome, retry: Outcome)
    requires Usable(m, |addresses|)
    ensures var r := Offer(addresses, m, first, retry).1;
            var last := if first.Fails? then retry else first;
            && (r.retriedOn.Some? ==> first.Fails?)
            && (r.reply.Answered? <==> last == Sdp && (first.Fails? ==> r.retriedOn.Some?))
            && (r.reply.MissingSdp? <==> last == NoSdp && (first.Fails? ==> r.retriedOn.Some?))
            && (r.reply.NoHealthyEngine? ==> r.retriedOn.None?)
  {
    hide FirstHealthy, RecordFailure;
  }

  /** And where the next offer goes: to the engine that was retried. */
  lemma ActiveAfterOffer(addresses: seq<string>, m: Manager, first: Outcome, retry: Outcome)
    requires Usable(m, |addresses|)
    ensures var (m', r) := Offer(addresses, m, first, retry);
            && (!first.Fails? || (r.reply.Failed? && r.retriedOn.None?) ==> m'.activeIdx == m.activeIdx)
            && (r.retriedOn.Some? ==> m'.activeIdx == r.retriedOn.value)
            && (r.reply.NoHealthyEngine? ==> m'.activeIdx != m.activeIdx && !StatusAt(m', m.activeIdx).isHealthy)
  {}

  /** An answer that its engine gives leaves the call where it is; the session gets the
      answer's tag and keeps the rest. */
  lemma AnswerKeepsEngine(sys: System, n: nat, q: Request, engine: nat, until: int)
    requires Good(sys, n) && q.callID.bytes != [] && engine < n && q.now <= until
    requires Pinned(sys, q.callID, engine, until) && q.first == Sdp
    ensures var (after, reply) := ProcessAnswer(sys, n, q);
            && reply == Answered && after.manager == sys.manager
            && Pinned(after, q.callID, engine, until)
            && after.sessions.items[q.callID].body
                 == Session(engine, sys.sessions.items[q.callID].body.fromTag, q.toTag)
  {}

  /** What an answer is answered with. */
  lemma AnswerReplyIs(sys: System, n: nat, q: Request)
    requires Good(sys, n)
    ensures var winner := Winner(TryOrder(n, sys.manager.activeIdx), Succeeds(q));
            var reply := ProcessAnswer(sys, n, q).1;
            var sdp := q.first == Sdp || (q.first.Fails? && winner.Some? && q.outcome(winner.value) == Sdp);
            && (reply.Answered? <==> sdp)
            && (reply.Failed? <==> q.first.Fails? && winner.None?)
            && !reply.NoHealthyEngine?
  {
    hide TryOrder, Winner, GetEngine;
    WinnerSucceeds(TryOrder(n, sys.manager.activeIdx), q);
  }

  lemma WinnerSucceeds(order: seq<nat>, q: Request)
    ensures Winner(order, Succeeds(q)).Some? ==> !q.outcome(Winner(order, Succeeds(q)).value).Fails?
  {}

  /** A delete that some engine took leaves no session; one that none took leaves
      everything but an expired session as it was. */
  lemma DeleteEndsSession(sys: System, n: nat, q: Request)
    requires Good(sys, n)
    ensures var (after, ok) := DeleteSession(sys, n, q);
            && (ok <==> !q.first.Fails? || exists e: nat :: e < n && e != sys.manager.activeIdx && !q.outcome(e).Fails?)
            && (ok && q.callID.bytes != [] ==> q.callID !in after.sessions.items)
            && (!ok ==> after == sys.(sessions := GetEngine(sys, n, q.callID, q.now).0))
  {
    hide TryOrder, Winner, Succeeds;
    WinnerExistsIff(n, sys.manager.activeIdx, q);
  }

  /** Whether a call has a live session, and on which engine. */
  predicate LiveOn(sys: System, callID: Key, engine: nat, now: int) {
    && callID.bytes != [] && callID in sys.sessions.items
    && sys.sessions.items[callID].body.engineIdx == engine
    && (sys.sessions.items[callID].expireTime.Some? ==> now <= sys.sessions.items[callID].expireTime.value)
  }

  /** A call goes to the engine of its live session, else to the active one. */
  lemma EngineIs(sys: System, n: nat, callID: Key, now: int, engine: nat)
    requires Good(sys, n) && engine < n
    ensures LiveOn(sys, callID, engine, now) ==> GetEngine(sys, n, callID, now).1 == engine
    ensures (forall e: nat :: e < n ==> !LiveOn(sys, callID, e, now)) ==>
              GetEngine(sys, n, callID, now).1 == sys.manager.activeIdx
  {
    var e := GetEngine(sys, n, callID, now).1;
    assert LiveOn(sys, callID, e, now) || e == sys.manager.activeIdx;
  }
}
