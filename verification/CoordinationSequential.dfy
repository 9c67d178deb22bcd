/** Step runs in which calls do not overlap are runs of heartbeats: while at most one
    instance at a time is inside a call, everything proved about heartbeats as atomic
    steps holds of the single storage calls too. */
module CoordinationSequential {
  import opened Ttl
  import opened Coordination
  import opened CoordinationSteps

  ghost predicate Quiet(s: Sys) {
    forall i :: i in s.pcs ==> s.pcs[i].Idle?
  }

  ghost predicate OneBusy(s: Sys) {
    forall i, j :: i in s.pcs && j in s.pcs && !s.pcs[i].Idle? && !s.pcs[j].Idle? ==> i == j
  }

  /** A run in which no call begins, except one that returns at once, before the one
      in progress has ended. */
  ghost predicate Sequential(s: Sys, moves: seq<Move>, ttl: int)
    decreases |moves|
  {
    && s.Valid() && OneBusy(s)
    && (moves == [] || (CanMove(s, moves[0]) && Sequential(Apply(s, moves[0], ttl), moves[1..], ttl)))
  }

  lemma {:induction false} SequentialIsRun(s: Sys, moves: seq<Move>, ttl: int)
    requires Sequential(s, moves, ttl)
    ensures IsRunOf(s, moves, ttl) && s.clock <= EndOf(s, moves, ttl).clock
    decreases |moves|
  {
    if moves != [] {
      SequentialIsRun(Apply(s, moves[0], ttl), moves[1..], ttl);
    }
  }

  /** Each call ends at most `d` after it began; `since` is when the one in progress did. */
  ghost predicate CallsTake(s: Sys, moves: seq<Move>, ttl: int, since: int, d: int)
    requires Sequential(s, moves, ttl)
    decreases |moves|
  {
    moves == [] ||
    var start := if Quiet(s) then moves[0].now else since;
    && (moves[0].Go? ==> moves[0].now - start <= d)
    && CallsTake(Apply(s, moves[0], ttl), moves[1..], ttl, start, d)
  }

  // ------------------------------------------------------ the times of one call

  /** The place in a heartbeat's clock readings of the one a step uses. */
  function Position(pc: Pc): nat {
    match pc
    case AcqGet | RenGet | RelGet => 1
    case AcqCheck(_) => 2
    case AcqStamp | RenStamp(_) => 3
    case AcqPut(_) | RenPut(_) | RelDelete => 4
    case AcqVerify => 5
    case AcqCommit | RenCommit | RelCommit => 6
    case Idle => 7
  }

  predicate AgreeFrom(n: nat, t: Times, u: Times) {
    && (n <= 1 ==> t.get == u.get) && (n <= 2 ==> t.check == u.check) && (n <= 3 ==> t.stamp == u.stamp)
    && (n <= 4 ==> t.put == u.put) && (n <= 5 ==> t.verify == u.verify) && (n <= 6 ==> t.lease == u.lease)
  }

  /** The readings up to the n-th all made at `now`. */
  function Upto(n: nat, t: Times, now: int): Times {
    Times(now,
          if n >= 1 then now else t.get,
          if n >= 2 then now else t.check,
          if n >= 3 then now else t.stamp,
          if n >= 4 then now else t.put,
          if n >= 5 then now else t.verify,
          if n >= 6 then now else t.lease)
  }

  lemma {:induction false} FinishUsesLaterTimes(me: Id, pc: Pc, l: Local, key: Key, t: Times, u: Times, ttl: int)
    requires AgreeFrom(Position(pc), t, u)
    ensures Finish(me, pc, l, key, t, ttl) == Finish(me, pc, l, key, u, ttl)
    decreases Rank(pc)
  {
    if !pc.Idle? {
      var (pc', l', key') := Advance(me, pc, l, key, TimeAt(pc, t), ttl);
      assert TimeAt(pc, t) == TimeAt(pc, u);
      FinishUsesLaterTimes(me, pc', l', key', t, u, ttl);
    }
  }

  lemma StepThenFinish(me: Id, pc: Pc, l: Local, key: Key, t: Times, now: int, ttl: int)
    requires !pc.Idle?
    ensures var (pc', l', key') := Advance(me, pc, l, key, now, ttl);
            Finish(me, pc, l, key, Upto(Position(pc), t, now), ttl) == Finish(me, pc', l', key', t, ttl)
  {
    var u := Upto(Position(pc), t, now);
    var (pc', l', key') := Advance(me, pc, l, key, now, ttl);
    assert TimeAt(pc, u) == now;
    FinishUsesLaterTimes(me, pc', l', key', u, t, ttl);
  }

  lemma UptoInstant(n: nat, now: int)
    ensures Upto(n, Instant(now), now) == Instant(now)
  {}

  lemma UptoIsOrdered(pc: Pc, t: Times, now: int)
    requires t.Ordered() && now <= t.tick
    ensures var u := Upto(Position(pc), t, now);
            u.Ordered() && u.tick == now && (Position(pc) < 6 ==> u.lease == t.lease)
  {}

  lemma LastStepCommits(me: Id, pc: Pc, l: Local, key: Key, now: int, ttl: int)
    ensures !Advance(me, pc, l, key, now, ttl).0.Idle? ==> Position(pc) < 6
  {}

  // ------------------------------------------------------------ one whole call

  lemma OnlyBusyMoves(s: Sys, m: Move, i: Id, ttl: int)
    requires s.Valid() && OneBusy(s) && CanMove(s, m) && i in s.pcs && !s.pcs[i].Idle? && OneBusy(Apply(s, m, ttl))
    ensures m.Go? ==> m.i == i
    ensures m.Begin? ==> Apply(s, m, ttl) == s.(clock := m.now)
  {
    if m.Begin? {
      var s' := Apply(s, m, ttl);
      assert s'.pcs[i] == s.pcs[i];
      assert s'.pcs[m.i].Idle?;
      assert s'.pcs == s.pcs;
    }
  }

  lemma LocalsChangeLast(me: Id, pc: Pc, l: Local, key: Key, now: int, ttl: int)
    ensures var (pc', l', _) := Advance(me, pc, l, key, now, ttl); !pc'.Idle? ==> l' == l
  {}

  /** The call that `i` is in either ends within the run, as a heartbeat at suitable
      times would, or has changed nobody's fields by the end of it. */
  lemma {:induction false} CallEnds(s: Sys, moves: seq<Move>, i: Id, ttl: int, since: int, d: int)
    returns (ended: bool, t: Times, end: Sys, rest: seq<Move>)
    requires Sequential(s, moves, ttl) && i in s.pcs && !s.pcs[i].Idle? && CallsTake(s, moves, ttl, since, d)
    ensures !ended ==> IsRunOf(s, moves, ttl) && EndOf(s, moves, ttl).locals == s.locals && !Quiet(EndOf(s, moves, ttl))
    ensures ended ==>
              && Sequential(end, rest, ttl) && CallsTake(end, rest, ttl, since, d) && |rest| < |moves| && Quiet(end)
              && IsRunOf(s, moves, ttl) && IsRunOf(end, rest, ttl) && EndOf(s, moves, ttl) == EndOf(end, rest, ttl)
              && i in end.locals && end.locals == s.locals[i := end.locals[i]]
              && Finish(i, s.pcs[i], s.locals[i], s.key, t, ttl) == (end.locals[i], end.key)
              && t.Ordered() && s.clock <= t.tick && t.lease == end.clock && end.clock - since <= d
    decreases |moves|
  {
    SequentialIsRun(s, moves, ttl);
    hide Finish, Upto, StartOf;
    if moves == [] {
      ended, t, end, rest := false, Instant(0), s, [];
    } else {
      var m := moves[0];
      var next := Apply(s, m, ttl);
      OnlyBusyMoves(s, m, i, ttl);
      assert !Quiet(s);
      if m.Begin? {
        ended, t, end, rest := CallEnds(next, moves[1..], i, ttl, since, d);
      } else {
        LocalsChangeLast(i, s.pcs[i], s.locals[i], s.key, m.now, ttl);
        if next.pcs[i].Idle? {
          ended, t, end, rest := true, Instant(m.now), next, moves[1..];
          QuietAfter(s, next, i);
          StepThenFinish(i, s.pcs[i], s.locals[i], s.key, t, m.now, ttl);
          SequentialIsRun(end, rest, ttl);
          UptoInstant(Position(s.pcs[i]), m.now);
        } else {
          ended, t, end, rest := CallEnds(next, moves[1..], i, ttl, since, d);
          if ended {
            StepThenFinish(i, s.pcs[i], s.locals[i], s.key, t, m.now, ttl);
            assert end.locals == s.locals[i := end.locals[i]];
            UptoIsOrdered(s.pcs[i], t, m.now);
            LastStepCommits(i, s.pcs[i], s.locals[i], s.key, m.now, ttl);
            t := Upto(Position(s.pcs[i]), t, m.now);
          } else {
            assert next.locals == s.locals;
          }
        }
      }
    }
  }

  lemma QuietAfter(s: Sys, next: Sys, i: Id)
    requires OneBusy(s) && i in s.pcs && !s.pcs[i].Idle? && next.pcs == s.pcs[i := Idle]
    ensures Quiet(next)
  {}

  // ------------------------------------------------------------ whole runs

  /** The heartbeats that a sequential step run consists of, none longer than `d`. They
      lead to the same fields of every instance, at every point of the run, and between
      calls to the same key. */
  lemma {:induction false} SequentialRefines(s: Sys, moves: seq<Move>, w: World, ttl: int, since: int, d: int)
    returns (run: seq<Action>)
    requires Sequential(s, moves, ttl) && Quiet(s) && CallsTake(s, moves, ttl, since, d)
    requires w.locals == s.locals && w.key == s.key && w.clock <= s.clock
    ensures IsRun(w, run, ttl) && IsRunOf(s, moves, ttl)
    ensures After(w, run, ttl).locals == EndOf(s, moves, ttl).locals
        && After(w, run, ttl).clock <= EndOf(s, moves, ttl).clock
    ensures Quiet(EndOf(s, moves, ttl)) ==> After(w, run, ttl).key == EndOf(s, moves, ttl).key
    ensures forall k :: 0 <= k < |run| ==> run[k].t.lease - run[k].t.stamp <= d
    decreases |moves|
  {
    SequentialIsRun(s, moves, ttl);
    hide Finish, Outcome, Step, Apply, StartOf, OneBusy;
    if moves == [] {
      run := [];
    } else {
      var m := moves[0];
      var next := Apply(s, m, ttl);
      BeginsCall(s, m, ttl);
      if next.pcs[m.i].Idle? {
        run := SequentialRefines(next, moves[1..], w, ttl, m.now, d);
      } else {
        var ended, t, end, rest := CallEnds(next, moves[1..], m.i, ttl, m.now, d);
        if ended {
          var a := AsAction(m.i, m.call, t.(tick := m.now));
          ActionReaches(s, m, t, end, w, ttl);
          var later := SequentialRefines(end, rest, Step(w, a, ttl), ttl, m.now, d);
          run := [a] + later;
          assert run[1..] == later;
        } else {
          run := [];
        }
      }
    }
  }

  lemma CallIsAction(s: Sys, m: Move, t: Times, ttl: int)
    requires m.Begin? && m.i in s.locals
    ensures Finish(m.i, StartOf(m.call, s.locals[m.i], m.now), s.locals[m.i], s.key, t, ttl)
            == Outcome(AsAction(m.i, m.call, t.(tick := m.now)), ttl, s.locals[m.i], s.key)
  {
    var u := t.(tick := m.now);
    var pc := StartOf(m.call, s.locals[m.i], m.now);
    FinishUsesLaterTimes(m.i, pc, s.locals[m.i], s.key, t, u, ttl);
    UninterruptedCallIsAtomic(m.i, m.call, s.locals[m.i], s.key, u, ttl);
  }

  lemma BeginsCall(s: Sys, m: Move, ttl: int)
    requires Quiet(s) && CanMove(s, m)
    ensures m.Begin? && Apply(s, m, ttl) == s.(clock := m.now, pcs := Apply(s, m, ttl).pcs)
    ensures m.i in Apply(s, m, ttl).pcs && Apply(s, m, ttl).pcs[m.i] == StartOf(m.call, s.locals[m.i], m.now)
    ensures Apply(s, m, ttl).pcs[m.i].Idle? ==> Apply(s, m, ttl).pcs == s.pcs
  {}

  lemma ActionReaches(s: Sys, m: Move, t: Times, end: Sys, w: World, ttl: int)
    requires w.locals == s.locals && w.key == s.key && w.clock <= m.now <= t.tick && t.Ordered()
    requires m.Begin? && m.i in s.locals && m.i in end.locals && end.locals == s.locals[m.i := end.locals[m.i]]
    requires Finish(m.i, StartOf(m.call, s.locals[m.i], m.now), s.locals[m.i], s.key, t, ttl)
        == (end.locals[m.i], end.key)
    ensures var a := AsAction(m.i, m.call, t.(tick := m.now));
            && Enabled(w, a) && a.t == t.(tick := m.now)
            && Step(w, a, ttl).locals == end.locals && Step(w, a, ttl).key == end.key
            && Step(w, a, ttl).clock == t.lease
  {
    hide Finish, Outcome, TakesOver;
    CallIsAction(s, m, t, ttl);
  }

  /** So two instances can lead together, in the middle of a call or between calls, only
      in the second (plus `d`) after the latest takeover: without overlapping calls there
      is no split brain. */
  lemma SequentialOverlapIsBounded(s: Sys, moves: seq<Move>, ttl: int, d: int, i: Id, j: Id,
      now: int) returns (run: seq<Action>)
    requires ttl > 0 && d >= 0 && Sequential(s, moves, ttl) && Quiet(s) && CallsTake(s, moves, ttl, s.clock, d)
    requires s.key.None? && forall k :: k in s.locals ==> !s.locals[k].isLeader
    ensures IsRunOf(s, moves, ttl) && IsRun(AsWorld(s), run, ttl)
    ensures After(AsWorld(s), run, ttl).locals == EndOf(s, moves, ttl).locals
    ensures var end := EndOf(s, moves, ttl);
            i in end.locals && j in end.locals && i != j && end.clock <= now && Leads(end.locals[i], now)
              && Leads(end.locals[j], now)
            ==> After(AsWorld(s), run, ttl).takeover <= now < After(AsWorld(s), run, ttl).takeover + SECOND - 1 + d
  {
    run := SequentialRefines(s, moves, AsWorld(s), ttl, s.clock, d);
    var end := EndOf(s, moves, ttl);
    if i in end.locals && j in end.locals && i != j && end.clock <= now && Leads(end.locals[i], now)
        && Leads(end.locals[j], now) {
      OverlapIsBounded(AsWorld(s), run, ttl, d, i, j, now);
    }
  }
}
