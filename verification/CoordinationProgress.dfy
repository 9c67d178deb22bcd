/** What the heartbeats achieve: who leads after them and for how long, what the key
    then says, and how a leader that ticks in time stays one. Everything is stated in
    terms of what an observer can ask: Leads, and what Get returns. */
module CoordinationProgress {
  import opened Ttl
  import opened Coordination

  /** From `from` to `until`, both included, Get returns this leader's record, and not after. */
  ghost predicate KeyLives(key: Key, info: LeaderInfo, from: int, until: int) {
    && (forall now :: from <= now <= until ==> KeyGet(key, now).0 == Some(info))
    && (forall now :: now > until ==> KeyGet(key, now).0 == None)
  }

  /** A leader that still finds its own key at its tick leads on for exactly one lease,
      and its key lives on for exactly one lease from when it was written, with the
      time it was first acquired and a new expiry in whole seconds. */
  lemma RenewalExtendsLease(w: World, i: Id, t: Times, ttl: int)
    requires ttl > 0 && Enabled(w, Tick(i, t)) && Leads(w.locals[i], t.tick)
    requires KeyGet(w.key, t.get).0.Some? && KeyGet(w.key, t.get).0.value.instanceID == i
    ensures var w' := Step(w, Tick(i, t), ttl);
            && (forall now :: Leads(w'.locals[i], now) <==> now < t.lease + ttl)
            && (var acquired := KeyGet(w.key, t.get).0.value.acquireTime;
                KeyLives(w'.key, LeaderInfo(i, acquired, Unix(t.stamp + ttl)), t.put, t.put + ttl))
            && w'.takeover == w.takeover
  {}

  /** A leader that finds no key, or another's, does not lead any more, at any time. */
  lemma LostKeyEndsLeadership(w: World, i: Id, t: Times, ttl: int)
    requires Enabled(w, Tick(i, t)) && Leads(w.locals[i], t.tick)
    requires KeyGet(w.key, t.get).0.Some? ==> KeyGet(w.key, t.get).0.value.instanceID != i
    ensures var w' := Step(w, Tick(i, t), ttl);
            && (forall now :: !Leads(w'.locals[i], now))
            && (forall now :: now >= t.get ==> KeyGet(w'.key, now).0 == KeyGet(w.key, now).0)
  {}

  predicate Tries(w: World, a: Action)
    requires a.i in w.locals
  {
    a.Startup? || (a.Tick? && !Leads(w.locals[a.i], a.t.tick))
  }

  /** An instance that does not lead takes the key exactly when Get returns nothing or a
      record whose expiry, in whole seconds, has been reached. It then leads for exactly
      one lease, provided it still reads its own key back; else it changes nothing. */
  lemma TakeoverIff(w: World, a: Action, ttl: int)
    requires ttl > 0 && Enabled(w, a) && Tries(w, a)
    ensures var (w', seen) := (Step(w, a, ttl), KeyGet(w.key, a.t.get).0);
            if seen.None? || seen.value.expireTime * SECOND <= a.t.check then
              && w'.takeover == a.t.put && w'.lastHolder == Some(a.i)
              && (a.t.verify <= a.t.put + ttl ==>
                    && (forall now :: Leads(w'.locals[a.i], now) <==> now < a.t.lease + ttl)
                    && (var info := LeaderInfo(a.i, Unix(a.t.stamp), Unix(a.t.stamp + ttl));
                        KeyLives(w'.key, info, a.t.put, a.t.put + ttl)))
              && (a.t.verify > a.t.put + ttl ==> w'.locals == w.locals && w'.key == None)
            else
              && w'.locals == w.locals && w'.takeover == w.takeover && w'.lastHolder == w.lastHolder
              && (forall now :: now >= a.t.get ==> KeyGet(w'.key, now).0 == KeyGet(w.key, now).0)
  {
    assert w.locals[a.i := w.locals[a.i]] == w.locals;
  }

  /** A leader that stops and finds its own key leaves nothing behind: it does not lead,
      and Get finds no key, so that the next instance to try takes it over. */
  lemma StopFreesTheKey(w: World, i: Id, t: Times, ttl: int)
    requires Enabled(w, Stop(i, t)) && Leads(w.locals[i], t.tick)
    requires KeyGet(w.key, t.get).0.Some? && KeyGet(w.key, t.get).0.value.instanceID == i
    ensures var w' := Step(w, Stop(i, t), ttl);
            && (forall now :: !Leads(w'.locals[i], now)) && (forall now :: KeyGet(w'.key, now).0 == None)
            && w'.locals[i].leadership == w.locals[i].leadership
  {}

  /** Any other stop changes nobody's leadership and not what Get returns. */
  lemma StopWithoutTheKey(w: World, i: Id, t: Times, ttl: int)
    requires Enabled(w, Stop(i, t))
    requires !Leads(w.locals[i], t.tick) || KeyGet(w.key, t.get).0.None? || KeyGet(w.key, t.get).0.value.instanceID != i
    ensures var w' := Step(w, Stop(i, t), ttl);
            w'.locals == w.locals && forall now :: now >= t.get ==> KeyGet(w'.key, now).0 == KeyGet(w.key, now).0
  {
    assert w.locals[i := w.locals[i]] == w.locals;
  }

  /** A registered component leads exactly if its instance led at the latest check of the
      components and still does; one that has only been registered does not. */
  lemma ComponentLeadsIff(w: World, i: Id, t: Times, ttl: int, c: string, now: int)
    requires Enabled(w, MonitorComponents(i, t))
    ensures LeadsComponent(Step(w, MonitorComponents(i, t), ttl).locals[i], c, now)
            <==> c in w.locals[i].leadership && Leads(w.locals[i], t.tick) && Leads(w.locals[i], now)
    ensures !LeadsComponent(Step(w, RegisterComponent(i, c, t), ttl).locals[i], c, now)
    ensures forall d :: d != c ==>
              var w' := Step(w, RegisterComponent(i, c, t), ttl);
              LeadsComponent(w'.locals[i], d, now) <==> LeadsComponent(w.locals[i], d, now)
  {}

  // ------------------------------------------------------------ staying a leader

  /** Before `until` the instance leads, and Get returns its key, which nobody may take. */
  predicate Secure(w: World, i: Id, until: int) {
    && i in w.locals && Leads(w.locals[i], until - 1)
    && var seen := KeyGet(w.key, until - 1).0;
       seen.Some? && seen.value.instanceID == i && until <= seen.value.expireTime * SECOND
  }

  lemma TakeoverSecures(w: World, a: Action, ttl: int)
    requires ttl > 0 && Enabled(w, a) && Tries(w, a) && a.t.verify <= a.t.put + ttl
    requires var seen := KeyGet(w.key, a.t.get).0; seen.None? || seen.value.expireTime * SECOND <= a.t.check
    ensures Secure(Step(w, a, ttl), a.i, Unix(a.t.stamp + ttl) * SECOND)
  {
    UnixBounds(a.t.stamp + ttl);
  }

  /** Every action ends before the leader's key may be taken, which each of its own ticks
      puts off, and the leader does not stop. */
  predicate KeepsUp(run: seq<Action>, i: Id, until: int, ttl: int)
    decreases |run|
  {
    run == [] ||
    (run[0].t.lease < until && run[0] != Stop(i, run[0].t)
     && KeepsUp(run[1..], i, Later(run[0], i, until, ttl), ttl))
  }

  function Later(a: Action, i: Id, until: int, ttl: int): int {
    if a.Tick? && a.i == i then Unix(a.t.stamp + ttl) * SECOND else until
  }

  function Until(run: seq<Action>, i: Id, until: int, ttl: int): int
    decreases |run|
  {
    if run == [] then until else Until(run[1..], i, Later(run[0], i, until, ttl), ttl)
  }

  lemma StepKeepsSecure(w: World, a: Action, i: Id, until: int, ttl: int)
    requires ttl > 0 && Enabled(w, a) && Secure(w, i, until) && a.t.lease < until && a != Stop(i, a.t)
    ensures Secure(Step(w, a, ttl), i, Later(a, i, until, ttl))
    ensures Step(w, a, ttl).takeover == w.takeover
  {
    UnixBounds(a.t.stamp + ttl);
  }

  /** An instance that leads with its own key in place, and ticks often enough for that
      key, leads at every point of the run, whatever the other instances do and however
      many they are; none of them ever takes the key. */
  lemma {:induction false} LeaderStaysLeader(w: World, run: seq<Action>, i: Id, until: int, ttl: int)
    requires ttl > 0 && IsRun(w, run, ttl) && Secure(w, i, until) && KeepsUp(run, i, until, ttl)
    ensures var end := After(w, run, ttl);
            && Secure(end, i, Until(run, i, until, ttl)) && end.takeover == w.takeover
            && forall now :: now < Until(run, i, until, ttl) ==> Leads(end.locals[i], now)
    decreases |run|
  {
    if run != [] {
      StepKeepsSecure(w, run[0], i, until, ttl);
      LeaderStaysLeader(Step(w, run[0], ttl), run[1..], i, Later(run[0], i, until, ttl), ttl);
    }
  }

  /** Ticks come at most `period` after one another, each action of the system taking at
      most `d` and none coming later than that after the leader's last tick. */
  predicate Regular(run: seq<Action>, i: Id, last: int, period: int, d: int)
    decreases |run|
  {
    run == [] ||
    (run[0] != Stop(i, run[0].t) && last <= run[0].t.tick <= last + period
     && run[0].t.tick <= run[0].t.stamp <= run[0].t.lease <= run[0].t.tick + d
     && Regular(run[1..], i, if run[0].Tick? && run[0].i == i then run[0].t.tick else last, period, d))
  }

  lemma {:induction false} RegularKeepsUp(run: seq<Action>, i: Id, last: int, until: int, period: int, d: int, ttl: int)
    requires Regular(run, i, last, period, d) && period + d + SECOND <= ttl && last + ttl - SECOND < until
    ensures KeepsUp(run, i, until, ttl)
    decreases |run|
  {
    if run != [] {
      var a := run[0];
      UnixBounds(a.t.stamp + ttl);
      var mine := a.Tick? && a.i == i;
      RegularKeepsUp(run[1..], i, if mine then a.t.tick else last, Later(a, i, until, ttl), period, d, ttl);
    }
  }

  /** In particular, with the lease longer than the tick period, the duration of a
      heartbeat and one second together, an instance that has taken the key over and
      ticks regularly leads from then on. */
  lemma RegularLeaderStays(w: World, a: Action, run: seq<Action>, period: int, d: int, ttl: int, now: int)
    requires Enabled(w, a) && Tries(w, a) && period >= 0 && d >= 0 && period + d + SECOND <= ttl
    requires a.t.verify <= a.t.put + ttl
    requires var seen := KeyGet(w.key, a.t.get).0; seen.None? || seen.value.expireTime * SECOND <= a.t.check
    requires IsRun(Step(w, a, ttl), run, ttl) && Regular(run, a.i, a.t.stamp, period, d)
    requires now < Until(run, a.i, Unix(a.t.stamp + ttl) * SECOND, ttl)
    ensures var end := After(Step(w, a, ttl), run, ttl); a.i in end.locals && Leads(end.locals[a.i], now)
  {
    var until := Unix(a.t.stamp + ttl) * SECOND;
    UnixBounds(a.t.stamp + ttl);
    TakeoverSecures(w, a, ttl);
    RegularKeepsUp(run, a.i, a.t.stamp, until, period, d, ttl);
    LeaderStaysLeader(Step(w, a, ttl), run, a.i, until, ttl);
  }
}
