/** Lease-based leader election: N instances compete for one key with a
    time-to-live, using only Get, Set and Delete.

    The functions describe one heartbeat as a transformation of the instance's
    own fields and of the shared key. A heartbeat reads the clock several times,
    so each carries the times of its own readings. The classes of module
    CoordinatorObjects update the fields in place and are proved against these functions. */
module Coordination {
  import opened Ttl

  type Id = string

  /** The JSON value stored under "coordinator:leader"; times are whole seconds. */
  datatype LeaderInfo = LeaderInfo(instanceID: Id, acquireTime: int, expireTime: int)

  type Key = Option<Entry<LeaderInfo>>

  /** The fields of one Coordinator that change. */
  datatype Local = Local(isLeader: bool, leaseExpiration: int, leadership: map<string, bool>)

  /** The clock readings of one heartbeat, in the order the code takes them. */
  datatype Times = Times(tick: int, get: int, check: int, stamp: int, put: int, verify: int, lease: int)
  {
    predicate Ordered() {
      tick <= get <= check <= stamp <= put <= verify <= lease
    }
  }

  // ---------------------------------------------------------------- storage

  /** Get drops an entry whose time-to-live has passed. */
  function KeyGet(key: Key, now: int): (Option<LeaderInfo>, Key) {
    if key.None? || Lapsed(key.value.expiry, now) then (None, None) else (Some(key.value.value), key)
  }

  function KeySet(info: LeaderInfo, now: int, ttl: int): Key {
    Some(Entry(info, if ttl > 0 then Some(now + ttl) else None))
  }

  // -------------------------------------------------------------- heartbeat

  /** IsLeader() with no component. */
  predicate Leads(l: Local, now: int) {
    l.isLeader && now < l.leaseExpiration
  }

  predicate LeadsComponent(l: Local, component: string, now: int) {
    Leads(l, now) && component in l.leadership && l.leadership[component]
  }

  /** A readable leader whose recorded expiry has not been reached blocks a takeover. */
  predicate Blocked(key: Key, t: Times) {
    var seen := KeyGet(key, t.get).0;
    seen.Some? && t.check < seen.value.expireTime * SECOND
  }

  function TryAcquire(me: Id, ttl: int, l: Local, key: Key, t: Times): (Local, Key) {
    if Blocked(key, t) then (l, KeyGet(key, t.get).1)
    else
      var key1 := KeySet(LeaderInfo(me, Unix(t.stamp), Unix(t.stamp + ttl)), t.put, ttl);
      var (seen, key2) := KeyGet(key1, t.verify);
      if seen.Some? && seen.value.instanceID == me then
        (l.(isLeader := true, leaseExpiration := t.lease + ttl), key2)
      else (l, key2)
  }

  function Renew(me: Id, ttl: int, l: Local, key: Key, t: Times): (Local, Key) {
    var (seen, key1) := KeyGet(key, t.get);
    if seen.None? || seen.value.instanceID != me then (l.(isLeader := false), key1)
    else (l.(leaseExpiration := t.lease + ttl),
          KeySet(seen.value.(expireTime := Unix(t.stamp + ttl)), t.put, ttl))
  }

  function Heartbeat(me: Id, ttl: int, l: Local, key: Key, t: Times): (Local, Key) {
    if Leads(l, t.tick) then Renew(me, ttl, l, key, t) else TryAcquire(me, ttl, l, key, t)
  }

  /** Stop(): a leader gives the key back if it still holds it. */
  function Release(me: Id, l: Local, key: Key, t: Times): (Local, Key) {
    if !Leads(l, t.tick) then (l, key)
    else
      var (seen, key1) := KeyGet(key, t.get);
      if seen.None? || seen.value.instanceID != me then (l, key1) else (l.(isLeader := false), None)
  }

  function Monitor(l: Local, now: int): Local {
    l.(leadership := map c | c in l.leadership :: Leads(l, now))
  }

  // ------------------------------------------------------------------- runs

  datatype Action =
    | Startup(i: Id, t: Times)
    | Tick(i: Id, t: Times)
    | Stop(i: Id, t: Times)
    | MonitorComponents(i: Id, t: Times)
    | RegisterComponent(i: Id, component: string, t: Times)

  /** All instances, the shared key and the clock. `takeover` and `lastHolder`
      record when and by whom the key was last taken over; no step reads them. */
  datatype World = World(locals: map<Id, Local>, key: Key, clock: int, takeover: int, lastHolder: Option<Id>)

  function Outcome(a: Action, ttl: int, l: Local, key: Key): (Local, Key) {
    match a
    case Startup(i, t) => TryAcquire(i, ttl, l, key, t)
    case Tick(i, t) => Heartbeat(i, ttl, l, key, t)
    case Stop(i, t) => Release(i, l, key, t)
    case MonitorComponents(_, t) => (Monitor(l, t.tick), key)
    case RegisterComponent(_, c, _) => (l.(leadership := l.leadership[c := false]), key)
  }

  /** The action overwrites the key without having held it: a takeover. */
  predicate TakesOver(a: Action, l: Local, key: Key) {
    (a.Startup? || (a.Tick? && !Leads(l, a.t.tick))) && !Blocked(key, a.t)
  }

  predicate Enabled(w: World, a: Action) {
    a.i in w.locals && a.t.Ordered() && w.clock <= a.t.tick
  }

  function Step(w: World, a: Action, ttl: int): World
    requires a.i in w.locals
  {
    var l := w.locals[a.i];
    var (l', key') := Outcome(a, ttl, l, w.key);
    var took := TakesOver(a, l, w.key);
    World(w.locals[a.i := l'], key', a.t.lease,
          if took then a.t.put else w.takeover, if took then Some(a.i) else w.lastHolder)
  }

  ghost predicate IsRun(w: World, run: seq<Action>, ttl: int)
    decreases |run|
  {
    run == [] || (Enabled(w, run[0]) && IsRun(Step(w, run[0], ttl), run[1..], ttl))
  }

  ghost function After(w: World, run: seq<Action>, ttl: int): World
    requires IsRun(w, run, ttl)
    decreases |run|
  {
    if run == [] then w else After(Step(w, run[0], ttl), run[1..], ttl)
  }

  /** Before anybody has taken the key. */
  predicate Fresh(w: World) {
    w.key.None? && w.lastHolder.None? && w.takeover <= w.clock && forall i :: i in w.locals ==> !w.locals[i].isLeader
  }

  // ----------------------------------------------------------------- safety

  /** How far the local lease of this heartbeat may outlast what it stored. */
  predicate Within(slack: int, ttl: int, t: Times) {
    && t.lease + ttl <= Unix(t.stamp + ttl) * SECOND + slack
    && t.lease - t.put <= slack
  }

  ghost predicate AllWithin(slack: int, ttl: int, run: seq<Action>) {
    forall k :: 0 <= k < |run| ==> Within(slack, ttl, run[k].t)
  }

  /** The lease an instance may still be running on. */
  ghost predicate LeaseUpTo(w: World, i: Id, bound: int)
    requires i in w.locals
  {
    w.locals[i].isLeader ==> w.locals[i].leaseExpiration <= bound
  }

  /** The holder's lease may outlast the key, in either of its expiries, by the slack only. */
  ghost predicate HolderLease(w: World, i: Id, slack: int)
    requires i in w.locals
  {
    match w.key
    case None => LeaseUpTo(w, i, w.clock + slack)
    case Some(e) =>
      && LeaseUpTo(w, i, e.value.expireTime * SECOND + slack)
      && (e.expiry.Some? ==> LeaseUpTo(w, i, e.expiry.value + slack))
  }

  ghost predicate Invariant(w: World, slack: int) {
    && w.takeover <= w.clock
    && (w.key.Some? ==> w.lastHolder == Some(w.key.value.value.instanceID))
    && forall i :: i in w.locals ==>
         LeaseUpTo(w, i, w.takeover + slack) || (Some(i) == w.lastHolder && HolderLease(w, i, slack))
  }

  lemma StepKeepsInvariant(w: World, a: Action, ttl: int, slack: int)
    requires ttl > 0 && slack >= 0
    requires Invariant(w, slack) && Enabled(w, a) && Within(slack, ttl, a.t)
    ensures Invariant(Step(w, a, ttl), slack)
  {
    var w' := Step(w, a, ttl);
    match a {
      case Tick(i, t) => if Leads(w.locals[i], t.tick) { assert w'.takeover == w.takeover; }
      case _ =>
    }
    forall i | i in w'.locals
      ensures LeaseUpTo(w', i, w'.takeover + slack) || (Some(i) == w'.lastHolder && HolderLease(w', i, slack))
    {
      assert LeaseUpTo(w, i, w.takeover + slack) || HolderLease(w, i, slack);
    }
  }

  lemma {:induction false} RunKeepsInvariant(w: World, run: seq<Action>, ttl: int, slack: int)
    requires ttl > 0 && slack >= 0
    requires Invariant(w, slack) && IsRun(w, run, ttl) && AllWithin(slack, ttl, run)
    ensures Invariant(After(w, run, ttl), slack)
    decreases |run|
  {
    if run != [] {
      assert Within(slack, ttl, run[0].t);
      StepKeepsInvariant(w, run[0], ttl, slack);
      RunKeepsInvariant(Step(w, run[0], ttl), run[1..], ttl, slack);
    }
  }

  /** In every run of heartbeats that do not overlap and each take at most `d`,
      two instances can lead together only during the second (plus `d`) after the
      latest takeover. */
  lemma OverlapIsBounded(w: World, run: seq<Action>, ttl: int, d: int, i: Id, j: Id, now: int)
    requires ttl > 0 && d >= 0 && Fresh(w) && IsRun(w, run, ttl)
    requires forall k :: 0 <= k < |run| ==> run[k].t.lease - run[k].t.stamp <= d
    requires i in After(w, run, ttl).locals && j in After(w, run, ttl).locals && i != j
    requires After(w, run, ttl).clock <= now
    requires Leads(After(w, run, ttl).locals[i], now) && Leads(After(w, run, ttl).locals[j], now)
    ensures After(w, run, ttl).takeover <= now < After(w, run, ttl).takeover + SECOND - 1 + d
  {
    var slack := SECOND - 1 + d;
    forall k | 0 <= k < |run| ensures Within(slack, ttl, run[k].t) {
      UnixBounds(run[k].t.stamp + ttl);
      RunTimesOrdered(w, run, ttl, k);
    }
    RunKeepsInvariant(w, run, ttl, slack);
  }

  lemma {:induction false} RunTimesOrdered(w: World, run: seq<Action>, ttl: int, k: nat)
    requires IsRun(w, run, ttl) && k < |run|
    ensures run[k].t.Ordered()
    decreases k
  {
    if k > 0 {
      RunTimesOrdered(Step(w, run[0], ttl), run[1..], ttl, k - 1);
    }
  }

  /** With a whole-second lease and instantaneous heartbeats on whole seconds
      there is never more than one leader. */
  lemma SingleLeaderOnWholeSeconds(w: World, run: seq<Action>, ttl: int, i: Id, j: Id, now: int)
    requires ttl > 0 && ttl % SECOND == 0 && Fresh(w) && IsRun(w, run, ttl)
    requires forall k :: 0 <= k < |run| ==> run[k].t.tick == run[k].t.lease && run[k].t.tick % SECOND == 0
    requires i in After(w, run, ttl).locals && j in After(w, run, ttl).locals && i != j
    requires After(w, run, ttl).clock <= now
    ensures !(Leads(After(w, run, ttl).locals[i], now) && Leads(After(w, run, ttl).locals[j], now))
  {
    forall k | 0 <= k < |run| ensures Within(0, ttl, run[k].t) {
      RunTimesOrdered(w, run, ttl, k);
      assert (run[k].t.stamp + ttl) % SECOND == 0;
    }
    RunKeepsInvariant(w, run, ttl, 0);
  }

  /** A run of instantaneous heartbeats on whole seconds, from a fresh system. */
  ghost predicate WholeSecondRun(w: World, run: seq<Action>, ttl: int) {
    && Fresh(w) && IsRun(w, run, ttl)
    && forall k :: 0 <= k < |run| ==> run[k].t.tick == run[k].t.lease && run[k].t.tick % SECOND == 0
  }

  /** Two different instances lead at this time, which the clock has reached. */
  ghost predicate TwoLead(w: World, now: int) {
    && w.clock <= now
    && exists i, j :: i in w.locals && j in w.locals && i != j && Leads(w.locals[i], now) && Leads(w.locals[j], now)
  }

  /** A whole-second run that ends with two leaders. */
  ghost predicate Overlaps(w: World, run: seq<Action>, ttl: int, now: int) {
    WholeSecondRun(w, run, ttl) && TwoLead(After(w, run, ttl), now)
  }

  /** With a lease that is not whole seconds, "b" finds the truncated expiry passed a
      fraction of a second before the lease of "a" ends. */
  lemma FractionalLeaseOverlaps(ttl: int) returns (w: World, run: seq<Action>, now: int)
    requires ttl > 0 && ttl % SECOND != 0
    ensures Overlaps(w, run, ttl, now)
  {
    var idle := Local(false, 0, map[]);
    w := World(map["a" := idle, "b" := idle], None, 0, 0, None);
    now := Unix(ttl) * SECOND;
    var first, second := Startup("a", Instant(0)), Tick("b", Instant(now));
    run := [first, second];
    var w1 := Step(w, first, ttl);
    assert Unix(0) == 0 && 0 <= now < ttl && now % SECOND == 0;
    assert w1.locals["a"] == Local(true, ttl, map[]);
    var w2 := Step(w1, second, ttl);
    assert run[1..] == [second] && [second][1..] == [];
    assert After(w1, [second], ttl) == w2;
    assert "a" in w2.locals && "b" in w2.locals && Leads(w2.locals["a"], now) && Leads(w2.locals["b"], now);
  }

  /** No whole-second run ever has two leaders exactly when the lease is whole seconds. */
  lemma SingleLeaderIff(ttl: int)
    requires ttl > 0
    ensures (forall w, run, now :: !Overlaps(w, run, ttl, now)) <==> ttl % SECOND == 0
  {
    if ttl % SECOND == 0 {
      forall w, run, now ensures !Overlaps(w, run, ttl, now) {
        NeverTwoLead(w, run, ttl, now);
      }
    } else {
      var w, run, now := FractionalLeaseOverlaps(ttl);
      assert Overlaps(w, run, ttl, now);
    }
  }

  lemma NeverTwoLead(w: World, run: seq<Action>, ttl: int, now: int)
    requires ttl > 0 && ttl % SECOND == 0
    ensures !Overlaps(w, run, ttl, now)
  {
    if WholeSecondRun(w, run, ttl) && After(w, run, ttl).clock <= now {
      var end := After(w, run, ttl);
      forall i, j | i in end.locals && j in end.locals && i != j
        ensures !(Leads(end.locals[i], now) && Leads(end.locals[j], now))
      {
        SingleLeaderOnWholeSeconds(w, run, ttl, i, j, now);
      }
    }
  }

  /** Component leadership inherits the bound. */
  lemma ComponentOverlapIsBounded(w: World, run: seq<Action>, ttl: int, d: int, i: Id, j: Id, c: string, now: int)
    requires ttl > 0 && d >= 0 && Fresh(w) && IsRun(w, run, ttl)
    requires forall k :: 0 <= k < |run| ==> run[k].t.lease - run[k].t.stamp <= d
    requires i in After(w, run, ttl).locals && j in After(w, run, ttl).locals && i != j
    requires After(w, run, ttl).clock <= now
    requires LeadsComponent(After(w, run, ttl).locals[i], c, now)
        && LeadsComponent(After(w, run, ttl).locals[j], c, now)
    ensures now < After(w, run, ttl).takeover + SECOND - 1 + d
  {
    OverlapIsBounded(w, run, ttl, d, i, j, now);
  }

  function Instant(t: int): Times {
    Times(t, t, t, t, t, t, t)
  }

  /** For every lease of a second, or a nanosecond less, and above, the bound is reached
      to the nanosecond: "a" takes the key so that its lease ends one nanosecond before a
      full second, and "b" takes it over when the truncated expiry is reached. */
  lemma OverlapIsReached(ttl: int) returns (w: World, run: seq<Action>, now: int)
    requires ttl >= SECOND - 1
    ensures Fresh(w) && IsRun(w, run, ttl) && forall k :: 0 <= k < |run| ==> run[k].t.lease == run[k].t.tick
    ensures After(w, run, ttl).clock <= now == After(w, run, ttl).takeover + SECOND - 2
    ensures TwoLead(After(w, run, ttl), now)
  {
    var idle := Local(false, 0, map[]);
    w := World(map["a" := idle, "b" := idle], None, 0, 0, None);
    var start, expiry := SECOND - 1 - ttl % SECOND, Unix(ttl) * SECOND;
    var first, second := Startup("a", Instant(start)), Tick("b", Instant(expiry));
    run := [first, second];
    now := expiry + SECOND - 2;
    assert start + ttl == expiry + SECOND - 1 && Unix(start + ttl) == Unix(ttl) && start <= expiry;
    var w1 := Step(w, first, ttl);
    assert w1.locals["a"] == Local(true, start + ttl, map[]);
    var w2 := Step(w1, second, ttl);
    assert run[1..] == [second] && [second][1..] == [];
    assert After(w1, [second], ttl) == w2;
    assert w2.locals["b"] == Local(true, expiry + ttl, map[]) && w2.takeover == expiry;
    assert "a" in w2.locals && "b" in w2.locals && Leads(w2.locals["a"], now) && Leads(w2.locals["b"], now);
  }

  // ---------------------------------------------------- self-stabilisation

  predicate Fits(t: Times, start: int, end: int) {
    t.Ordered() && start <= t.tick && t.lease <= end
  }

  /** One round: every instance in `todo` ticks exactly once, between `start` and `end`. */
  ghost predicate IsRound(todo: set<Id>, clock: int, round: seq<Action>, start: int, end: int)
    decreases |round|
  {
    if round == [] then todo == {}
    else
      && round[0].Tick? && round[0].i in todo && Fits(round[0].t, start, end) && clock <= round[0].t.tick
      && IsRound(todo - {round[0].i}, round[0].t.lease, round[1..], start, end)
  }

  /** What the part of the round played so far guarantees: only the one instance
      that wrote the key can lead, and the key it wrote stays valid until `end`. */
  ghost predicate RoundInvariant(w: World, ticked: set<Id>, writer: Option<Id>, end: int, slack: int) {
    && ticked <= w.locals.Keys
    && (forall i :: i in ticked && Some(i) != writer ==> !Leads(w.locals[i], w.clock))
    && (writer.Some? ==>
          && writer.value in ticked && HolderLease(w, writer.value, slack)
          && w.key.Some? && w.key.value.value.instanceID == writer.value
          && end < w.key.value.value.expireTime * SECOND
          && w.key.value.expiry.Some? && end < w.key.value.expiry.value)
  }

  lemma TickKeepsRoundInvariant(w: World, ticked: set<Id>, writer: Option<Id>, a: Action, ttl: int, start: int,
      end: int, slack: int)
    returns (writer': Option<Id>)
    requires end <= start + ttl - SECOND && slack >= 0 && Within(slack, ttl, a.t)
    requires RoundInvariant(w, ticked, writer, end, slack)
    requires a.Tick? && Enabled(w, a) && Fits(a.t, start, end) && a.i !in ticked
    ensures RoundInvariant(Step(w, a, ttl), ticked + {a.i}, writer', end, slack)
  {
    UnixBounds(a.t.stamp + ttl);
    var leads := Leads(w.locals[a.i], a.t.tick);
    var seen := KeyGet(w.key, a.t.get).0;
    var writes := if leads then seen.Some? && seen.value.instanceID == a.i else !Blocked(w.key, a.t);
    if writes {
      assert writer.None?;
      writer' := Some(a.i);
    } else {
      writer' := writer;
      assert !Leads(Step(w, a, ttl).locals[a.i], a.t.lease);
    }
  }

  lemma {:induction false} RoundSettles(w: World, ticked: set<Id>, writer: Option<Id>, todo: set<Id>,
                                        round: seq<Action>, ttl: int, start: int, end: int, slack: int)
    returns (writer': Option<Id>)
    requires end <= start + ttl - SECOND && slack >= 0 && AllWithin(slack, ttl, round)
    requires RoundInvariant(w, ticked, writer, end, slack)
    requires todo !! ticked && w.locals.Keys == todo + ticked && IsRound(todo, w.clock, round, start, end)
    ensures IsRun(w, round, ttl) && After(w, round, ttl).locals.Keys == w.locals.Keys
    ensures RoundInvariant(After(w, round, ttl), w.locals.Keys, writer', end, slack)
    decreases |round|
  {
    if round == [] {
      writer' := writer;
      assert ticked == w.locals.Keys;
    } else {
      var a := round[0];
      var next := TickKeepsRoundInvariant(w, ticked, writer, a, ttl, start, end, slack);
      assert ticked + {a.i} + (todo - {a.i}) == w.locals.Keys;
      writer' := RoundSettles(Step(w, a, ttl), ticked + {a.i}, next, todo - {a.i}, round[1..], ttl, start, end, slack);
    }
  }

  ghost predicate AtMostOneLeader(w: World) {
    forall i, j, now :: i in w.locals && j in w.locals && w.clock <= now ==>
      Leads(w.locals[i], now) && Leads(w.locals[j], now) ==> i == j
  }

  /** From any state at all, such as a split brain, one round in which every
      instance ticks once, in any order, within the lease timeout less one second,
      leaves at most one leader. It also re-establishes the invariant, with the end
      of the round standing for the latest takeover, so later runs are safe again. */
  lemma OneRoundHeals(w: World, round: seq<Action>, ttl: int, start: int, end: int, slack: int)
    returns (holder: Option<Id>)
    requires end <= start + ttl - SECOND && slack >= 0 && AllWithin(slack, ttl, round)
    requires IsRound(w.locals.Keys, w.clock, round, start, end)
    ensures IsRun(w, round, ttl) && After(w, round, ttl).locals.Keys == w.locals.Keys
    ensures AtMostOneLeader(After(w, round, ttl))
    ensures var healed := After(w, round, ttl);
            Invariant(healed.(takeover := healed.clock, lastHolder := holder), slack)
  {
    var writer := RoundSettles(w, {}, None, w.locals.Keys, round, ttl, start, end, slack);
    var healed := After(w, round, ttl);
    holder := if healed.key.Some? then Some(healed.key.value.value.instanceID) else writer;
  }

  /** After the round every later run obeys the same bound as a fresh system. */
  lemma SafeAgainAfterRound(w: World, round: seq<Action>, run: seq<Action>, ttl: int, start: int, end: int, slack: int,
                            i: Id, j: Id, now: int)
    returns (healed: World)
    requires ttl > 0 && end <= start + ttl - SECOND && slack >= 0 && AllWithin(slack, ttl, round)
        && AllWithin(slack, ttl, run)
    requires IsRound(w.locals.Keys, w.clock, round, start, end)
    requires i in w.locals && j in w.locals && i != j
    ensures IsRun(w, round, ttl)
    ensures var at := After(w, round, ttl); healed == at.(takeover := at.clock, lastHolder := healed.lastHolder)
    ensures IsRun(healed, run, ttl) ==>
              var last := After(healed, run, ttl);
              i in last.locals && j in last.locals && last.clock <= now && Leads(last.locals[i], now)
                && Leads(last.locals[j], now)
              ==> now < last.takeover + slack
  {
    var holder := OneRoundHeals(w, round, ttl, start, end, slack);
    var at := After(w, round, ttl);
    healed := at.(takeover := at.clock, lastHolder := holder);
    if IsRun(healed, run, ttl) {
      RunKeepsInvariant(healed, run, ttl, slack);
    }
  }
}
