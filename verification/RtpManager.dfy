/** The RTPEngine manager as the object it is: an atomic index, a status array that
    is nil until the first offer, stored sessions, and a mutex that must not be
    taken twice. */
module RtpManagerObjects {
  import opened Ttl
  import opened ShardHash
  import opened MemoryModel
  import opened MemoryStorage
  import Addresses
  import R = RtpFailover

  /** Go's mutexes are not reentrant: in a sequential run, Lock on one that is held never
      returns. Then `returned` is false, and nothing after the call is executed: every
      method below that hears it gives up at once and says so to its own caller. */
  class Mutex {
    var held: bool

    constructor ()
      ensures !held
    {
      held := false;
    }

    method Lock() returns (returned: bool)
      modifies this
      ensures held && returned == !old(held)
    {
      returned := !held;
      held := true;
    }

    method Unlock()
      requires held
      modifies this
      ensures !held
    {
      held := false;
    }
  }

  class Manager {
    const addresses: seq<string>
    const mutex: Mutex
    const sessions: TypedStore<R.Session>
    var activeIdx: nat
    var engineStatus: array?<R.EngineStatus>
    var failureThreshold: int

    function State(): R.Manager
      reads this, engineStatus
    {
      R.Manager(activeIdx, if engineStatus == null then None else Some(engineStatus[..]), failureThreshold)
    }

    function System(): R.System
      reads this, engineStatus, sessions
    {
      R.System(State(), sessions.State())
    }

    predicate Valid()
      reads this, engineStatus
    {
      R.Usable(State(), |addresses|) && sessions.kind == RtpSessions
    }

    constructor (engines: seq<string>)
      requires engines != []
      ensures Valid() && !mutex.held && fresh(mutex) && fresh(sessions) && addresses == engines
      ensures System() == R.System(R.Manager(0, None, 0), Typed(map[], 0, 0))
    {
      addresses := engines;
      mutex := new Mutex();
      sessions := new TypedStore<R.Session>(RtpSessions);
      activeIdx, engineStatus, failureThreshold := 0, null, 0;
    }

    /** Takes the mutex itself, so it returns exactly when its caller does not hold it. */
    method InitEngineStatus() returns (returned: bool)
      requires Valid()
      modifies this, mutex
      ensures Valid() && returned == !old(mutex.held)
      ensures returned ==>
                && !mutex.held && fresh(engineStatus) && engineStatus != null
                && State() == R.InitStatus(old(State()), |addresses|)
      ensures !returned ==> mutex.held && engineStatus == old(engineStatus) && State() == old(State())
    {
      returned := mutex.Lock();
      if !returned {
        return;
      }
      if failureThreshold <= 0 {
        failureThreshold := 3;
      }
      var status := new R.EngineStatus[|addresses|](_ => R.EngineStatus(false, 0));
      for i := 0 to status.Length
        modifies status
        invariant forall j :: 0 <= j < i ==> status[j] == R.EngineStatus(true, 0)
        invariant forall j :: i <= j < status.Length ==> status[j] == R.EngineStatus(false, 0)
      {
        status[i] := status[i].(isHealthy := true);
      }
      engineStatus := status;
      mutex.Unlock();
      assert engineStatus[..] == seq(|addresses|, _ => R.EngineStatus(true, 0));
    }

    /** Initialises a nil status with the mutex held, and so waits for itself then. */
    method RecordEngineFailure(engineAddr: string, ghost failed: nat) returns (returned: bool)
      requires Valid() && !mutex.held && failed < |addresses| && addresses[failed] == engineAddr
      modifies this, mutex, engineStatus
      ensures Valid() && engineStatus == old(engineStatus) && returned == (engineStatus != null)
      ensures returned ==> !mutex.held && State() == R.RecordFailure(addresses, old(State()), failed)
      ensures !returned ==> mutex.held && State() == old(State())
    {
      returned := mutex.Lock();
      assert returned;
      if engineStatus == null {
        returned := InitEngineStatus();
        return;
      }
      var i := 0;
      while i < |addresses|
        invariant i <= Addresses.FirstWith(addresses, engineAddr) && mutex.held
        invariant engineStatus == old(engineStatus) && State() == old(State())
      {
        if addresses[i] == engineAddr {
          ghost var was := engineStatus[..];
          engineStatus[i] := engineStatus[i].(failCount := engineStatus[i].failCount + 1);
          if engineStatus[i].failCount >= failureThreshold {
            engineStatus[i] := engineStatus[i].(isHealthy := false);
          }
          assert engineStatus[..] == was[i := engineStatus[i]];
          break;
        }
        i := i + 1;
      }
      mutex.Unlock();
    }

    method SimplifyMigration(oldEngineIdx: nat, newEngineIdx: nat) returns (returned: bool)
      requires Valid()
      modifies `activeIdx, mutex
      ensures returned == (oldEngineIdx == newEngineIdx || !old(mutex.held))
      ensures returned && oldEngineIdx != newEngineIdx ==> !mutex.held
      ensures activeIdx == if returned && oldEngineIdx != newEngineIdx && oldEngineIdx < |addresses|
          && newEngineIdx < |addresses|
                           then newEngineIdx else old(activeIdx)
    {
      if oldEngineIdx == newEngineIdx {
        return true;
      }
      returned := mutex.Lock();
      if !returned {
        return;
      }
      if oldEngineIdx >= |addresses| || newEngineIdx >= |addresses| {
        mutex.Unlock();
        return;
      }
      activeIdx := newEngineIdx;
      mutex.Unlock();
    }

    /** Gives the mutex up around SimplifyMigration, which takes it again; waits for
        itself when the status is nil. */
    method TryFailover() returns (returned: bool, chosen: Option<nat>)
      requires Valid() && !mutex.held
      modifies this, mutex
      ensures Valid() && engineStatus == old(engineStatus) && returned == (engineStatus != null)
      ensures returned ==>
                && !mutex.held && chosen == R.FirstHealthy(engineStatus[..], old(activeIdx), 0)
                && State() == old(State()).(activeIdx := if chosen.Some? then chosen.value else old(activeIdx))
      ensures !returned ==> mutex.held && State() == old(State())
    {
      chosen := None;
      returned := mutex.Lock();
      assert returned;
      if engineStatus == null {
        returned := InitEngineStatus();
        return;
      }
      var currentIdx := activeIdx;
      for i := 0 to |addresses|
        invariant mutex.held && engineStatus == old(engineStatus) && State() == old(State())
        invariant R.FirstHealthy(engineStatus[..], currentIdx, 0) == R.FirstHealthy(engineStatus[..], currentIdx, i)
      {
        if i != currentIdx && engineStatus[i].isHealthy {
          mutex.Unlock();
          returned := SimplifyMigration(currentIdx, i);
          assert returned;
          returned := mutex.Lock();
          assert returned;
          mutex.Unlock();
          return true, Some(i);
        }
      }
      mutex.Unlock();
    }

    /** Takes the mutex once for each engine it looks at, which is none but the others;
        waits for itself when there is one and the status is nil. */
    method FailoverOffer(retry: R.Outcome) returns (returned: bool, r: R.OfferResult)
      requires Valid() && !mutex.held
      modifies this, mutex
      ensures Valid() && engineStatus == old(engineStatus)
      ensures returned == (engineStatus != null || |addresses| == 1)
      ensures returned ==>
                var target := if engineStatus == null
                    then None else R.FirstHealthy(engineStatus[..], old(activeIdx), 0);
                && !mutex.held
                && State() == old(State()).(activeIdx := if target.Some? then target.value else old(activeIdx))
                && r == R.OfferResult(target, if target.Some? then R.ReplyOf(retry) else R.NoHealthyEngine)
      ensures !returned ==> mutex.held && State() == old(State())
    {
      r := R.OfferResult(None, R.NoHealthyEngine);
      returned := mutex.Lock();
      assert returned;
      var oldIdx := activeIdx;
      mutex.Unlock();

      var healthy: Option<nat> := None;
      var i := 0;
      while i < |addresses|
        invariant i <= |addresses| && !mutex.held && engineStatus == old(engineStatus) && State() == old(State())
        invariant healthy.None? && returned
            && (engineStatus == null ==> i == 0 || |addresses| == 1 || (i == 1 && oldIdx == 0))
        invariant engineStatus != null ==>
                    R.FirstHealthy(engineStatus[..], oldIdx, 0) == R.FirstHealthy(engineStatus[..], oldIdx, i)
      {
        if i != oldIdx {
          returned := mutex.Lock();
          assert returned;
          if engineStatus == null {
            returned := InitEngineStatus();
            return;
          }
          var isHealthy := engineStatus[i].isHealthy;
          mutex.Unlock();
          if isHealthy {
            healthy := Some(i);
            break;
          }
        }
        i := i + 1;
      }
      if healthy.None? {
        return;
      }
      returned := SimplifyMigration(oldIdx, healthy.value);
      assert returned;
      r := R.OfferResult(healthy, R.ReplyOf(retry));
    }

    /** An offer always returns: because it initialises the status before it calls them,
        no helper ever waits for itself. It leaves the mutex free, one status per engine
        and the active index in range, whatever the engines reply. */
    method ProcessOffer(first: R.Outcome, retry: R.Outcome) returns (returned: bool, r: R.OfferResult)
      requires Valid() && !mutex.held
      modifies this, mutex, engineStatus
      ensures returned && Valid() && !mutex.held
      ensures engineStatus != null && engineStatus.Length == |addresses|
      ensures engineStatus == old(engineStatus) || fresh(engineStatus)
      ensures (State(), r) == R.Offer(addresses, old(State()), first, retry)
    {
      returned := mutex.Lock();
      assert returned;
      var engine := activeIdx;
      mutex.Unlock();
      if engineStatus == null {
        returned := InitEngineStatus();
        assert returned;
      }
      if first.Fails? {
        returned := RecordEngineFailure(addresses[engine], engine);
        assert returned;
        var chosen;
        returned, chosen := TryFailover();
        assert returned;
        if chosen.Some? {
          returned, r := FailoverOffer(retry);
          return;
        }
      }
      r := R.OfferResult(None, R.ReplyOf(first));
    }

    // -------------------------------------------------- answers and deletes

    method GetEngine(callID: Key, now: int) returns (engine: nat)
      requires Valid()
      modifies sessions
      ensures (sessions.State(), engine) == R.GetEngine(old(System()), |addresses|, callID, now)
    {
      if callID.bytes != [] {
        var session := sessions.Get(callID, now);
        if session.Ok? && 0 <= session.value.body.engineIdx < |addresses| {
          return session.value.body.engineIdx;
        }
      }
      return activeIdx;
    }

    /** The loop that failoverAnswer and failoverDelete share: the engines are sent the
        request in cyclic order from the active one, until one takes it. */
    method TryOthers(q: R.Request) returns (taker: Option<nat>, tried: seq<nat>)
      requires Valid()
      ensures taker == R.Winner(R.TryOrder(|addresses|, activeIdx), R.Succeeds(q))
      ensures tried == R.Attempts(R.TryOrder(|addresses|, activeIdx), R.Succeeds(q))
    {
      var n, currentIdx := |addresses|, activeIdx;
      ghost var order := R.TryOrder(n, currentIdx);
      hide R.TryOrder, R.EngineAt, R.Winner, R.Attempts, R.Succeeds, NoneOf;
      NoneYet(order, R.Succeeds(q));
      tried := [];
      for i := 0 to n
        invariant NoneOf(order, R.Succeeds(q), tried, if i < n then i else n - 1)
      {
        var idx := (currentIdx + i + 1) % n;
        Turn(n, currentIdx, i);
        if idx == currentIdx {
          continue;
        }
        NextEngine(order, q, tried, i);
        tried := tried + [idx];
        if q.outcome(idx).Fails? {
          continue;
        }
        return Some(idx), tried;
      }
      NoneLeft(order, R.Succeeds(q), tried);
      return None, tried;
    }

    /** The engine that takes the answer over becomes the active one and the call's. */
    method FailoverAnswer(q: R.Request) returns (reply: R.Reply, tried: seq<nat>)
      requires Valid()
      modifies `activeIdx, sessions
      ensures (System(), reply) == R.FailoverAnswer(old(System()), |addresses|, q)
      ensures tried == R.Attempts(R.TryOrder(|addresses|, old(activeIdx)), R.Succeeds(q))
    {
      hide R.TryOrder, R.Winner, R.Attempts, R.Succeeds;
      var taker;
      taker, tried := TryOthers(q);
      if taker.None? {
        return R.Failed, tried;
      }
      activeIdx := taker.value;
      var session := Record(q.callID, None, 0, R.Session(taker.value, q.fromTag, q.toTag));
      var _ := sessions.Store(q.callID, session, q.now);
      return R.ReplyOf(q.outcome(taker.value)), tried;
    }

    method ProcessAnswer(q: R.Request) returns (reply: R.Reply)
      requires Valid()
      modifies `activeIdx, sessions
      ensures (System(), reply) == R.ProcessAnswer(old(System()), |addresses|, q)
    {
      var engine := GetEngine(q.callID, q.now);
      match q.first
      case Fails =>
        var tried;
        reply, tried := FailoverAnswer(q);
      case NoSdp =>
        reply := R.MissingSdp;
      case Sdp =>
        var session := sessions.Get(q.callID, q.now);
        if session.Ok? {
          var record := session.value;
          var _ := sessions.Store(record.id, record.(body := record.body.(toTag := q.toTag)), q.now);
        }
        reply := R.Answered;
    }

    method FailoverDelete(q: R.Request) returns (ok: bool, tried: seq<nat>)
      requires Valid()
      modifies `activeIdx, sessions
      ensures (System(), ok) == R.FailoverDelete(old(System()), |addresses|, q)
      ensures tried == R.Attempts(R.TryOrder(|addresses|, old(activeIdx)), R.Succeeds(q))
    {
      hide R.TryOrder, R.Winner, R.Attempts, R.Succeeds;
      var taker;
      taker, tried := TryOthers(q);
      if taker.None? {
        return false, tried;
      }
      activeIdx := taker.value;
      var _ := sessions.Delete(q.callID);
      return true, tried;
    }

    method DeleteSession(q: R.Request) returns (ok: bool)
      requires Valid()
      modifies `activeIdx, sessions
      ensures (System(), ok) == R.DeleteSession(old(System()), |addresses|, q)
    {
      var engine := GetEngine(q.callID, q.now);
      if q.first.Fails? {
        var tried;
        ok, tried := FailoverDelete(q);
        return;
      }
      var _ := sessions.Delete(q.callID);
      return true;
    }
  }

  // ----------------------------------------------------- halfway through a loop

  /** The first `i` engines of the order were tried and none took the request. */
  predicate NoneOf(order: seq<nat>, ok: nat -> bool, tried: seq<nat>, i: nat) {
    && i <= |order| && tried == order[..i]
    && R.Winner(order, ok) == R.Winner(order[i..], ok)
    && R.Attempts(order, ok) == tried + R.Attempts(order[i..], ok)
  }

  lemma NoneYet(order: seq<nat>, ok: nat -> bool)
    ensures NoneOf(order, ok, [], 0)
  {
    assert order[0..] == order;
  }

  /** The loop index passes the active engine last, and the order up to then. */
  lemma Turn(n: nat, current: nat, i: nat)
    requires current < n && i < n
    ensures (current + i + 1) % n == R.EngineAt(n, current, i) < n
    ensures R.EngineAt(n, current, i) == current <==> i == n - 1
    ensures i < n - 1 ==> R.TryOrder(n, current)[i] == R.EngineAt(n, current, i)
  {
    R.EngineAtIs(n, current, i);
  }

  lemma NextFails(order: seq<nat>, ok: nat -> bool, tried: seq<nat>, i: nat)
    requires i < |order| && NoneOf(order, ok, tried, i) && !ok(order[i])
    ensures NoneOf(order, ok, tried + [order[i]], i + 1)
  {
    var (rest, later) := (order[i..], order[i + 1..]);
    assert rest[0] == order[i] && rest[1..] == later;
    assert tried + ([order[i]] + R.Attempts(later, ok)) == tried + [order[i]] + R.Attempts(later, ok);
  }

  lemma NextSucceeds(order: seq<nat>, ok: nat -> bool, tried: seq<nat>, i: nat)
    requires i < |order| && NoneOf(order, ok, tried, i) && ok(order[i])
    ensures R.Winner(order, ok) == Some(order[i]) && R.Attempts(order, ok) == tried + [order[i]]
  {
    assert order[i..][0] == order[i];
  }

  lemma NextEngine(order: seq<nat>, q: R.Request, tried: seq<nat>, i: nat)
    requires i < |order| && NoneOf(order, R.Succeeds(q), tried, i)
    ensures q.outcome(order[i]).Fails? ==> NoneOf(order, R.Succeeds(q), tried + [order[i]], i + 1)
    ensures !q.outcome(order[i]).Fails? ==>
              R.Winner(order, R.Succeeds(q)) == Some(order[i]) && R.Attempts(order, R.Succeeds(q)) == tried + [order[i]]
  {
    hide NoneOf, R.Winner, R.Attempts;
    if q.outcome(order[i]).Fails? {
      NextFails(order, R.Succeeds(q), tried, i);
    } else {
      NextSucceeds(order, R.Succeeds(q), tried, i);
    }
  }

  lemma NoneLeft(order: seq<nat>, ok: nat -> bool, tried: seq<nat>)
    requires NoneOf(order, ok, tried, |order|)
    ensures R.Winner(order, ok) == None && R.Attempts(order, ok) == tried
  {}
}
