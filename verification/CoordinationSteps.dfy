/** The same protocol with every storage call and every local update a step of
    its own, so that the heartbeats of different instances may interleave. */
module CoordinationSteps {
  import opened Ttl
  import opened Coordination

  /** Where an instance is inside a call; a constructor carries what it has read. */
  datatype Pc =
    | Idle
    | AcqGet | AcqCheck(seen: LeaderInfo) | AcqStamp | AcqPut(info: LeaderInfo) | AcqVerify | AcqCommit
    | RenGet | RenStamp(held: LeaderInfo) | RenPut(info: LeaderInfo) | RenCommit
    | RelGet | RelDelete | RelCommit

  datatype Call = CallStartup | CallTick | CallStop

  datatype Sys = Sys(locals: map<Id, Local>, pcs: map<Id, Pc>, key: Key, clock: int)
  {
    ghost predicate Valid() {
      locals.Keys == pcs.Keys
    }
  }

  datatype Move = Begin(i: Id, call: Call, now: int) | Go(i: Id, now: int)

  function StartOf(call: Call, l: Local, now: int): Pc {
    match call
    case CallStartup => AcqGet
    case CallTick => if Leads(l, now) then RenGet else AcqGet
    case CallStop => if Leads(l, now) then RelGet else Idle
  }

  /** One storage call or one local update of an instance that is inside a call. */
  function Advance(me: Id, pc: Pc, l: Local, key: Key, now: int, ttl: int): (Pc, Local, Key) {
    match pc
    case Idle => (Idle, l, key)
    case AcqGet =>
      var (seen, key1) := KeyGet(key, now);
      (if seen.Some? then AcqCheck(seen.value) else AcqStamp, l, key1)
    case AcqCheck(seen) => (if now < seen.expireTime * SECOND then Idle else AcqStamp, l, key)
    case AcqStamp => (AcqPut(LeaderInfo(me, Unix(now), Unix(now + ttl))), l, key)
    case AcqPut(info) => (AcqVerify, l, KeySet(info, now, ttl))
    case AcqVerify =>
      var (seen, key1) := KeyGet(key, now);
      (if seen.Some? && seen.value.instanceID == me then AcqCommit else Idle, l, key1)
    case AcqCommit => (Idle, l.(isLeader := true, leaseExpiration := now + ttl), key)
    case RenGet =>
      var (seen, key1) := KeyGet(key, now);
      if seen.None? || seen.value.instanceID != me then (Idle, l.(isLeader := false), key1)
      else (RenStamp(seen.value), l, key1)
    case RenStamp(held) => (RenPut(held.(expireTime := Unix(now + ttl))), l, key)
    case RenPut(info) => (RenCommit, l, KeySet(info, now, ttl))
    case RenCommit => (Idle, l.(leaseExpiration := now + ttl), key)
    case RelGet =>
      var (seen, key1) := KeyGet(key, now);
      (if seen.None? || seen.value.instanceID != me then Idle else RelDelete, l, key1)
    case RelDelete => (RelCommit, l, None)
    case RelCommit => (Idle, l.(isLeader := false), key)
  }

  predicate CanMove(s: Sys, m: Move) {
    m.i in s.locals && m.i in s.pcs && s.clock <= m.now && (m.Begin? <==> s.pcs[m.i].Idle?)
  }

  function Apply(s: Sys, m: Move, ttl: int): Sys
    requires m.i in s.locals && m.i in s.pcs
  {
    match m
    case Begin(i, call, now) => s.(pcs := s.pcs[i := StartOf(call, s.locals[i], now)], clock := now)
    case Go(i, now) =>
      var (pc, l, key) := Advance(i, s.pcs[i], s.locals[i], s.key, now, ttl);
      Sys(s.locals[i := l], s.pcs[i := pc], key, now)
  }

  // ------------------------------------- uninterrupted calls are heartbeats

  function Rank(pc: Pc): nat {
    match pc
    case Idle => 0
    case AcqGet => 6 case AcqCheck(_) => 5 case AcqStamp => 4 case AcqPut(_) => 3 case AcqVerify => 2
        case AcqCommit => 1
    case RenGet => 4 case RenStamp(_) => 3 case RenPut(_) => 2 case RenCommit => 1
    case RelGet => 3 case RelDelete => 2 case RelCommit => 1
  }

  /** Which of the heartbeat's clock readings a step uses. */
  function TimeAt(pc: Pc, t: Times): int {
    match pc
    case Idle => t.tick
    case AcqGet | RenGet | RelGet => t.get
    case AcqCheck(_) => t.check
    case AcqStamp | RenStamp(_) => t.stamp
    case AcqPut(_) | RenPut(_) | RelDelete => t.put
    case AcqVerify => t.verify
    case AcqCommit | RenCommit | RelCommit => t.lease
  }

  /** Steps one instance, with no other moving, until its call returns. */
  function Finish(me: Id, pc: Pc, l: Local, key: Key, t: Times, ttl: int): (Local, Key)
    decreases Rank(pc)
  {
    if pc.Idle? then (l, key)
    else
      var (pc', l', key') := Advance(me, pc, l, key, TimeAt(pc, t), ttl);
      Finish(me, pc', l', key', t, ttl)
  }

  function AsAction(i: Id, call: Call, t: Times): Action {
    match call
    case CallStartup => Action.Startup(i, t)
    case CallTick => Action.Tick(i, t)
    case CallStop => Action.Stop(i, t)
  }

  /** A call that no other instance interrupts does exactly what the heartbeat
      functions of module Coordination say. */
  lemma UninterruptedCallIsAtomic(i: Id, call: Call, l: Local, key: Key, t: Times, ttl: int)
    ensures Finish(i, StartOf(call, l, t.tick), l, key, t, ttl) == Outcome(AsAction(i, call, t), ttl, l, key)
  {
    match StartOf(call, l, t.tick)
    case Idle =>
    case AcqGet => FinishAcquire(i, l, key, t, ttl);
    case RenGet => FinishRenew(i, l, key, t, ttl);
    case RelGet => FinishRelease(i, l, key, t, ttl);
  }

  lemma FinishAcquire(i: Id, l: Local, key: Key, t: Times, ttl: int)
    ensures Finish(i, AcqGet, l, key, t, ttl) == TryAcquire(i, ttl, l, key, t)
  {
    var info := LeaderInfo(i, Unix(t.stamp), Unix(t.stamp + ttl));
    var (seen, key1) := KeyGet(key, t.get);
    if seen.Some? {
      assert Finish(i, AcqGet, l, key, t, ttl) == Finish(i, AcqCheck(seen.value), l, key1, t, ttl);
    }
    if Blocked(key, t) {
      assert Finish(i, AcqCheck(seen.value), l, key1, t, ttl) == (l, key1);
    } else {
      assert Finish(i, AcqGet, l, key, t, ttl) == Finish(i, AcqStamp, l, key1, t, ttl);
      assert Finish(i, AcqStamp, l, key1, t, ttl) == Finish(i, AcqPut(info), l, key1, t, ttl);
      assert Finish(i, AcqPut(info), l, key1, t, ttl) == Finish(i, AcqVerify, l, KeySet(info, t.put, ttl), t, ttl);
      var (seen2, key2) := KeyGet(KeySet(info, t.put, ttl), t.verify);
      if seen2.Some? {
        assert Finish(i, AcqVerify, l, KeySet(info, t.put, ttl), t, ttl) == Finish(i, AcqCommit, l, key2, t, ttl);
      }
    }
  }

  lemma FinishRenew(i: Id, l: Local, key: Key, t: Times, ttl: int)
    ensures Finish(i, RenGet, l, key, t, ttl) == Renew(i, ttl, l, key, t)
  {
    var (seen, key1) := KeyGet(key, t.get);
    if seen.Some? && seen.value.instanceID == i {
      var info := seen.value.(expireTime := Unix(t.stamp + ttl));
      assert Finish(i, RenGet, l, key, t, ttl) == Finish(i, RenStamp(seen.value), l, key1, t, ttl);
      assert Finish(i, RenStamp(seen.value), l, key1, t, ttl) == Finish(i, RenPut(info), l, key1, t, ttl);
      assert Finish(i, RenPut(info), l, key1, t, ttl) == Finish(i, RenCommit, l, KeySet(info, t.put, ttl), t, ttl);
    }
  }

  lemma FinishRelease(i: Id, l: Local, key: Key, t: Times, ttl: int)
    requires Leads(l, t.tick)
    ensures Finish(i, RelGet, l, key, t, ttl) == Release(i, l, key, t)
  {
    var (seen, key1) := KeyGet(key, t.get);
    if seen.Some? && seen.value.instanceID == i {
      assert Finish(i, RelGet, l, key, t, ttl) == Finish(i, RelDelete, l, key1, t, ttl);
      assert Finish(i, RelDelete, l, key1, t, ttl) == Finish(i, RelCommit, l, None, t, ttl);
    }
  }

  // ----------------------------------------------------------- split brain

  ghost predicate IsRunOf(s: Sys, moves: seq<Move>, ttl: int)
    decreases |moves|
  {
    moves == [] || (CanMove(s, moves[0]) && IsRunOf(Apply(s, moves[0], ttl), moves[1..], ttl))
  }

  ghost function EndOf(s: Sys, moves: seq<Move>, ttl: int): Sys
    requires IsRunOf(s, moves, ttl)
    decreases |moves|
  {
    if moves == [] then s else EndOf(Apply(s, moves[0], ttl), moves[1..], ttl)
  }

  lemma Prepend(s: Sys, m: Move, s': Sys, moves: seq<Move>, end: Sys, ttl: int) returns (moves': seq<Move>)
    requires CanMove(s, m) && Apply(s, m, ttl) == s' && m.now == 0
    requires Reaches(s', moves, end, ttl)
    ensures moves' == [m] + moves && Reaches(s, moves', end, ttl)
  {
    moves' := [m] + moves;
    assert moves'[1..] == moves;
  }

  /** The moves, all made at time 0, lead from one state to the other. */
  ghost predicate Reaches(s: Sys, moves: seq<Move>, end: Sys, ttl: int) {
    IsRunOf(s, moves, ttl) && EndOf(s, moves, ttl) == end && forall k :: 0 <= k < |moves| ==> moves[k].now == 0
  }

  /** Two instances at time 0. */
  function Pair(leadA: bool, leadB: bool, ttl: int, pcA: Pc, pcB: Pc, key: Key): Sys {
    Sys(map["a" := Local(leadA, if leadA then ttl else 0, map[]), "b" := Local(leadB, if leadB then ttl else 0, map[])],
        map["a" := pcA, "b" := pcB], key, 0)
  }

  lemma PrependA(leadB: bool, pcA: Pc, pcB: Pc, key: Key, pcA': Pc, lead': bool, key': Key, moves: seq<Move>, end: Sys,
      ttl: int)
    returns (moves': seq<Move>)
    requires pcA != Idle
    requires Advance("a", pcA, Local(false, 0, map[]), key, 0, ttl)
        == (pcA', Local(lead', if lead' then ttl else 0, map[]), key')
    requires Reaches(Pair(lead', leadB, ttl, pcA', pcB, key'), moves, end, ttl)
    ensures Reaches(Pair(false, leadB, ttl, pcA, pcB, key), moves', end, ttl)
  {
    var (s, s') := (Pair(false, leadB, ttl, pcA, pcB, key), Pair(lead', leadB, ttl, pcA', pcB, key'));
    var next := Apply(s, Go("a", 0), ttl);
    assert next.locals == s'.locals && next.pcs == s'.pcs;
    moves' := Prepend(s, Go("a", 0), s', moves, end, ttl);
  }

  lemma PrependB(leadA: bool, pcA: Pc, pcB: Pc, key: Key, pcB': Pc, lead': bool, key': Key, moves: seq<Move>, end: Sys,
      ttl: int)
    returns (moves': seq<Move>)
    requires pcB != Idle
    requires Advance("b", pcB, Local(false, 0, map[]), key, 0, ttl)
        == (pcB', Local(lead', if lead' then ttl else 0, map[]), key')
    requires Reaches(Pair(leadA, lead', ttl, pcA, pcB', key'), moves, end, ttl)
    ensures Reaches(Pair(leadA, false, ttl, pcA, pcB, key), moves', end, ttl)
  {
    var (s, s') := (Pair(leadA, false, ttl, pcA, pcB, key), Pair(leadA, lead', ttl, pcA, pcB', key'));
    var next := Apply(s, Go("b", 0), ttl);
    assert next.locals == s'.locals && next.pcs == s'.pcs;
    moves' := Prepend(s, Go("b", 0), s', moves, end, ttl);
  }

  /** Built from the last move back to the first: "b" writes over the key that "a"
      has already verified. */
  lemma RaceAfterReading(ttl: int, end: Sys) returns (moves: seq<Move>)
    requires ttl == 15 * SECOND
        && end == Pair(true, true, ttl, Idle, Idle, Some(Entry(LeaderInfo("b", 0, 15), Some(ttl))))
    ensures Reaches(Pair(false, false, ttl, AcqStamp, AcqStamp, None), moves, end, ttl)
  {
    var infoA, infoB := LeaderInfo("a", 0, 15), LeaderInfo("b", 0, 15);
    var keyA, keyB := Some(Entry(infoA, Some(ttl))), Some(Entry(infoB, Some(ttl)));
    moves := [];
    moves := PrependB(true, Idle, AcqCommit, keyB, Idle, true, keyB, moves, end, ttl);
    moves := PrependB(true, Idle, AcqVerify, keyB, AcqCommit, false, keyB, moves, end, ttl);
    moves := PrependB(true, Idle, AcqPut(infoB), keyA, AcqVerify, false, keyB, moves, end, ttl);
    moves := PrependB(true, Idle, AcqStamp, keyA, AcqPut(infoB), false, keyA, moves, end, ttl);
    moves := PrependA(false, AcqCommit, AcqStamp, keyA, Idle, true, keyA, moves, end, ttl);
    moves := PrependA(false, AcqVerify, AcqStamp, keyA, AcqCommit, false, keyA, moves, end, ttl);
    moves := PrependA(false, AcqPut(infoA), AcqStamp, None, AcqVerify, false, keyA, moves, end, ttl);
    moves := PrependA(false, AcqStamp, AcqStamp, None, AcqPut(infoA), false, None, moves, end, ttl);
  }

  /** Both instances read the missing key before either writes it; each then sees
      its own write. Nothing in the protocol prevents this, even on a whole-second
      clock, and both lead for the whole lease. */
  lemma SplitBrain() returns (s: Sys, moves: seq<Move>, ttl: int)
    ensures s.Valid() && s.key.None? && (forall i :: i in s.locals ==> !s.locals[i].isLeader && s.pcs[i].Idle?)
    ensures ttl == 15 * SECOND && IsRunOf(s, moves, ttl) && forall k :: 0 <= k < |moves| ==> moves[k].now == 0
    ensures var end := EndOf(s, moves, ttl);
            && "a" in end.locals && "b" in end.locals && (forall i :: i in end.pcs ==> end.pcs[i].Idle?)
            && forall now :: 0 <= now < ttl ==> Leads(end.locals["a"], now) && Leads(end.locals["b"], now)
  {
    ttl := 15 * SECOND;
    var end := Pair(true, true, ttl, Idle, Idle, Some(Entry(LeaderInfo("b", 0, 15), Some(ttl))));
    moves := RaceAfterReading(ttl, end);
    moves := PrependB(false, AcqStamp, AcqGet, None, AcqStamp, false, None, moves, end, ttl);
    moves := Prepend(Pair(false, false, ttl, AcqStamp, Idle, None), Begin("b", CallTick, 0),
                     Pair(false, false, ttl, AcqStamp, AcqGet, None), moves, end, ttl);
    moves := PrependA(false, AcqGet, Idle, None, AcqStamp, false, None, moves, end, ttl);
    s := Pair(false, false, ttl, Idle, Idle, None);
    moves := Prepend(s, Begin("a", CallTick, 0), Pair(false, false, ttl, AcqGet, Idle, None), moves, end, ttl);
  }

  // ------------------------------------------------------------- recovery

  /** An interleaved system between calls, seen as a world of module Coordination. */
  function AsWorld(s: Sys): World {
    World(s.locals, s.key, s.clock, s.clock, None)
  }

  /** The instances finish one tick after the other. */
  function PlayRound(s: Sys, round: seq<Action>, ttl: int): Sys
    decreases |round|
  {
    if round == [] || !round[0].Tick? || round[0].i !in s.locals then s
    else
      var (i, t) := (round[0].i, round[0].t);
      var (l, key) := Finish(i, StartOf(CallTick, s.locals[i], t.tick), s.locals[i], s.key, t, ttl);
      PlayRound(s.(locals := s.locals[i := l], key := key, clock := t.lease), round[1..], ttl)
  }

  /** Whatever interleaving led here, such as SplitBrain, once no call is in
      flight a single round heals the system. */
  lemma InterleavedSystemHeals(s: Sys, round: seq<Action>, ttl: int, start: int, end: int, slack: int)
    requires s.Valid() && forall i :: i in s.pcs ==> s.pcs[i].Idle?
    requires end <= start + ttl - SECOND && slack >= 0 && AllWithin(slack, ttl, round)
    requires IsRound(s.locals.Keys, s.clock, round, start, end)
    ensures PlayRound(s, round, ttl).locals.Keys == s.locals.Keys
    ensures AtMostOneLeader(AsWorld(PlayRound(s, round, ttl)))
  {
    var holder := OneRoundHeals(AsWorld(s), round, ttl, start, end, slack);
    RoundIsRun(s, AsWorld(s), s.locals.Keys, round, ttl, start, end);
  }

  lemma {:induction false} RoundIsRun(s: Sys, w: World, todo: set<Id>, round: seq<Action>, ttl: int, start: int,
      end: int)
    requires w.locals == s.locals && w.key == s.key && w.clock == s.clock
    requires todo <= s.locals.Keys && IsRound(todo, w.clock, round, start, end) && IsRun(w, round, ttl)
    ensures var played, world := PlayRound(s, round, ttl), After(w, round, ttl);
            played.locals == world.locals && played.key == world.key && played.clock == world.clock
    decreases |round|
  {
    if round != [] {
      var (i, t) := (round[0].i, round[0].t);
      UninterruptedCallIsAtomic(i, CallTick, s.locals[i], s.key, t, ttl);
      var (l, key) := Heartbeat(i, ttl, s.locals[i], s.key, t);
      RoundIsRun(s.(locals := s.locals[i := l], key := key, clock := t.lease), Step(w, round[0], ttl),
                 todo - {i}, round[1..], ttl, start, end);
    }
  }
}
