/** The Coordinator and the store it shares, updated in place. */
module CoordinatorObjects {
  import opened Ttl
  import opened Coordination

  /** The one key of the shared storage that leadership uses. */
  class LeaderStore {
    var key: Key

    constructor ()
      ensures key == None
    {
      key := None;
    }

    method Get(now: int) returns (found: Option<LeaderInfo>)
      modifies this
      ensures (found, key) == KeyGet(old(key), now)
    {
      if key.Some? {
        if Lapsed(key.value.expiry, now) {
          key := None;
          return None;
        }
        return Some(key.value.value);
      }
      return None;
    }

    method Set(info: LeaderInfo, now: int, ttl: int)
      modifies this
      ensures key == KeySet(info, now, ttl)
    {
      var expiry := None;
      if ttl > 0 {
        expiry := Some(now + ttl);
      }
      key := Some(Entry(info, expiry));
    }

    method Delete()
      modifies this
      ensures key == None
    {
      key := None;
    }
  }

  class Coordinator {
    const instanceID: Id
    const store: LeaderStore
    const leaseTimeout: int
    var isLeader: bool
    var leaseExpiration: int
    var leadership: map<string, bool>

    function State(): Local
      reads this
    {
      Local(isLeader, leaseExpiration, leadership)
    }

    /** A non-positive timeout falls back to fifteen seconds. */
    constructor (id: Id, s: LeaderStore, timeout: int)
      ensures instanceID == id && store == s
      ensures leaseTimeout == (if timeout <= 0 then 15 * SECOND else timeout) && leaseTimeout > 0
      ensures State() == Local(false, 0, map[])
    {
      instanceID := id;
      store := s;
      leaseTimeout := if timeout <= 0 then 15 * SECOND else timeout;
      isLeader := false;
      leaseExpiration := 0;
      leadership := map[];
    }

    /** With no component: global leadership. With one: both levels are needed. */
    method IsLeader(component: Option<string>, now: int) returns (leads: bool)
      ensures leads == match component
                       case None => Leads(State(), now)
                       case Some(c) => LeadsComponent(State(), c, now)
    {
      var isGlobalLeader := isLeader && now < leaseExpiration;
      if component.None? {
        return isGlobalLeader;
      }
      if !isGlobalLeader {
        return false;
      }
      leads := component.value in leadership && leadership[component.value];
    }

    /** Reads the component map first and global leadership second; it agrees with IsLeader(c). */
    method IsComponentLeader(component: string, now: int) returns (leads: bool)
      ensures leads == LeadsComponent(State(), component, now)
    {
      if component !in leadership || !leadership[component] {
        return false;
      }
      leads := IsLeader(None, now);
    }

    method RegisterComponentLeadership(component: string)
      modifies this
      ensures State() == old(State()).(leadership := old(leadership)[component := false])
    {
      leadership := leadership[component := false];
    }

    method TryAcquireLeadership(t: Times)
      modifies this, store
      ensures (State(), store.key) == TryAcquire(instanceID, leaseTimeout, old(State()), old(store.key), t)
    {
      var found := store.Get(t.get);
      if found.Some? {
        if t.check < found.value.expireTime * SECOND {
          return;
        }
      }
      var info := LeaderInfo(instanceID, Unix(t.stamp), Unix(t.stamp + leaseTimeout));
      store.Set(info, t.put, leaseTimeout);
      var verify := store.Get(t.verify);
      if verify.Some? && verify.value.instanceID == instanceID {
        isLeader := true;
        leaseExpiration := t.lease + leaseTimeout;
      }
    }

    method RenewLeadership(t: Times)
      modifies this, store
      ensures (State(), store.key) == Renew(instanceID, leaseTimeout, old(State()), old(store.key), t)
    {
      var found := store.Get(t.get);
      if found.None? {
        isLeader := false;
        return;
      }
      var info := found.value;
      if info.instanceID != instanceID {
        isLeader := false;
        return;
      }
      info := info.(expireTime := Unix(t.stamp + leaseTimeout));
      store.Set(info, t.put, leaseTimeout);
      leaseExpiration := t.lease + leaseTimeout;
    }

    /** The body of the ticker loop started by Start. */
    method OnTick(t: Times)
      modifies this, store
      ensures (State(), store.key) == Heartbeat(instanceID, leaseTimeout, old(State()), old(store.key), t)
    {
      var leads := IsLeader(None, t.tick);
      if leads {
        RenewLeadership(t);
      } else {
        TryAcquireLeadership(t);
      }
    }

    method ReleaseLeadership(now: int)
      modifies this, store
      ensures var (found, key1) := KeyGet(old(store.key), now);
              var mine := found.Some? && found.value.instanceID == instanceID;
              && State() == (if mine then old(State()).(isLeader := false) else old(State()))
              && store.key == (if mine then None else key1)
    {
      var found := store.Get(now);
      if found.None? || found.value.instanceID != instanceID {
        return;
      }
      store.Delete();
      isLeader := false;
    }

    method Stop(t: Times)
      modifies this, store
      ensures (State(), store.key) == Release(instanceID, old(State()), old(store.key), t)
    {
      var leads := IsLeader(None, t.tick);
      if leads {
        ReleaseLeadership(t.get);
      }
    }

    /** Visits the components one by one, in no particular order. */
    method MonitorComponentLeadership(now: int)
      modifies this
      ensures State() == Monitor(old(State()), now)
    {
      var leads := IsLeader(None, now);
      var remaining := leadership.Keys;
      while remaining != {}
        invariant remaining <= leadership.Keys == old(leadership).Keys
        invariant isLeader == old(isLeader) && leaseExpiration == old(leaseExpiration)
        invariant leads == Leads(old(State()), now)
        invariant forall c :: c in leadership.Keys - remaining ==> leadership[c] == leads
        decreases remaining
      {
        var component :| component in remaining;
        if leadership[component] != leads {
          leadership := leadership[component := leads];
        }
        remaining := remaining - {component};
      }
    }
  }
}
