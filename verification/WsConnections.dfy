/** The WebSocket server's connection table and the life of one client socket, with
    the goroutines that admit, write to and close connections interleaved step by step. */
module WsConnections {
  import opened Ttl

  type Thread = nat

  // ---------------------------------------------------------------- admission

  /** The connection IDs in the table, and the handshakes that have passed the capacity
      check but not stored their connection yet. */
  datatype Table = Table(ids: set<nat>, passed: set<Thread>)

  datatype Move =
    | Check(t: Thread)
    | GiveUp(t: Thread)
    | Insert(t: Thread, id: nat)
    | Remove(id: nat)

  /** The check and the insert take the lock separately; in between the handshake may
      fail. Any thread may remove a connection at any time. */
  function Next(max: int, s: Table, move: Move): Table {
    match move
    case Check(t) => if |s.ids| >= max then s else s.(passed := s.passed + {t})
    case GiveUp(t) => s.(passed := s.passed - {t})
    case Insert(t, id) => if t !in s.passed then s else Table(s.ids + {id}, s.passed - {t})
    case Remove(id) => s.(ids := s.ids - {id})
  }

  const EMPTY := Table({}, {})

  function Reached(max: int, moves: seq<Move>): Table
    decreases |moves|
  {
    if moves == [] then EMPTY else Next(max, Reached(max, moves[..|moves| - 1]), moves[|moves| - 1])
  }

  /** At no time are more than `k` handshakes between their check and their insert. */
  ghost predicate AtMost(max: int, moves: seq<Move>, k: nat)
    decreases |moves|
  {
    |Reached(max, moves).passed| <= k && (moves != [] ==> AtMost(max, moves[..|moves| - 1], k))
  }

  lemma NextKeepsBound(max: int, s: Table, move: Move, k: nat)
    requires |s.ids| + |s.passed| <= (if max > 0 then max - 1 + k else 0) && |Next(max, s, move).passed| <= k
    ensures var s' := Next(max, s, move); |s'.ids| + |s'.passed| <= if max > 0 then max - 1 + k else 0
  {
    match move
    case Check(t) =>
    case GiveUp(t) => RemoveOne(s.passed, t);
    case Insert(t, id) =>
      RemoveOne(s.passed, t);
      AddOne(s.ids, id);
    case Remove(id) => RemoveOne(s.ids, id);
  }

  lemma AddOne(s: set<nat>, x: nat)
    ensures |s + {x}| <= |s| + 1
  {
    if x in s {
      assert s + {x} == s;
    }
  }

  lemma RemoveOne(s: set<nat>, x: nat)
    ensures |s - {x}| == if x in s then |s| - 1 else |s|
  {
    if x in s {
      assert s == (s - {x}) + {x};
    } else {
      assert s - {x} == s;
    }
  }

  /** Under every interleaving the table holds at most MaxConnections + k - 1
      connections; with a limit of zero or less it stays empty. */
  lemma {:induction false} TableIsBounded(max: int, moves: seq<Move>, k: nat)
    requires AtMost(max, moves, k)
    ensures var s := Reached(max, moves); |s.ids| + |s.passed| <= if max > 0 then max - 1 + k else 0
    decreases |moves|
  {
    hide Next;
    if moves != [] {
      var before := moves[..|moves| - 1];
      TableIsBounded(max, before, k);
      NextKeepsBound(max, Reached(max, before), moves[|moves| - 1], k);
    }
  }

  /** A handshake that passed the check before move i stored this connection there. */
  predicate StoredAt(max: int, moves: seq<Move>, id: nat, i: nat) {
    i < |moves| && moves[i].Insert? && moves[i].id == id && moves[i].t in Reached(max, moves[..i]).passed
  }

  /** At move i the table was not full for this handshake. */
  predicate PassedAt(max: int, moves: seq<Move>, t: Thread, i: nat) {
    i < |moves| && moves[i] == Check(t) && |Reached(max, moves[..i]).ids| < max
  }

  predicate RemovedSince(moves: seq<Move>, id: nat, i: nat) {
    exists m :: i < m < |moves| && moves[m] == Remove(id)
  }

  predicate EndedSince(moves: seq<Move>, t: Thread, i: nat) {
    exists m :: i < m < |moves| && (moves[m] == GiveUp(t) || (moves[m].Insert? && moves[m].t == t))
  }

  /** A connection is in the table exactly when an admitted handshake stored it and nobody
      has removed it since; a handshake is admitted exactly when it found room, and has
      neither given up nor stored its connection since. */
  lemma {:induction false} InTableIff(max: int, moves: seq<Move>, id: nat, t: Thread)
    ensures id in Reached(max, moves).ids <==>
              exists i: nat :: StoredAt(max, moves, id, i) && !RemovedSince(moves, id, i)
    ensures t in Reached(max, moves).passed <==>
              exists i: nat :: PassedAt(max, moves, t, i) && !EndedSince(moves, t, i)
    decreases |moves|
  {
    if moves != [] {
      InTableIff(max, moves[..|moves| - 1], id, t);
      StoredByLast(max, moves, id);
      PassedByLast(max, moves, t);
    }
  }

  lemma StoredByLast(max: int, moves: seq<Move>, id: nat)
    requires moves != []
    ensures var (before, last) := (moves[..|moves| - 1], |moves| - 1);
            (exists i: nat :: StoredAt(max, moves, id, i) && !RemovedSince(moves, id, i)) <==>
              || StoredAt(max, moves, id, last)
              || (moves[last] != Remove(id)
                  && exists i: nat :: StoredAt(max, before, id, i) && !RemovedSince(before, id, i))
  {
    hide Reached;
    var (before, last) := (moves[..|moves| - 1], |moves| - 1);
    forall i: nat | i < last
      ensures StoredAt(max, moves, id, i) <==> StoredAt(max, before, id, i)
      ensures RemovedSince(moves, id, i) <==> RemovedSince(before, id, i) || moves[last] == Remove(id)
    {
      assert before[..i] == moves[..i];
      if RemovedSince(before, id, i) {
        var m :| i < m < last && before[m] == Remove(id);
        assert moves[m] == Remove(id);
      }
    }
    assert !RemovedSince(moves, id, last);
  }

  lemma PassedByLast(max: int, moves: seq<Move>, t: Thread)
    requires moves != []
    ensures var (before, last) := (moves[..|moves| - 1], |moves| - 1);
            var ends := moves[last] == GiveUp(t) || (moves[last].Insert? && moves[last].t == t);
            (exists i: nat :: PassedAt(max, moves, t, i) && !EndedSince(moves, t, i)) <==>
              || PassedAt(max, moves, t, last)
              || (!ends && exists i: nat :: PassedAt(max, before, t, i) && !EndedSince(before, t, i))
  {
    hide Reached;
    var (before, last) := (moves[..|moves| - 1], |moves| - 1);
    forall i: nat | i < last
      ensures PassedAt(max, moves, t, i) <==> PassedAt(max, before, t, i)
      ensures EndedSince(moves, t, i) <==>
        EndedSince(before, t, i) || moves[last] == GiveUp(t) || (moves[last].Insert? && moves[last].t == t)
    {
      assert before[..i] == moves[..i];
      if EndedSince(before, t, i) {
        var m :| i < m < last && (before[m] == GiveUp(t) || (before[m].Insert? && before[m].t == t));
        assert moves[m] == before[m];
      }
    }
    assert !EndedSince(moves, t, last);
  }

  /** The set of the numbers from lo to hi. */
  function Range(lo: nat, hi: nat): set<nat>
    requires lo <= hi
    decreases hi - lo
  {
    if lo == hi then {} else Range(lo, hi - 1) + {hi - 1}
  }

  lemma {:induction false} RangeMembers(lo: nat, hi: nat)
    requires lo <= hi
    ensures forall x: nat :: x in Range(lo, hi) <==> lo <= x < hi
    decreases hi - lo
  {
    if lo < hi {
      RangeMembers(lo, hi - 1);
    }
  }

  lemma {:induction false} RangeSize(lo: nat, hi: nat)
    requires lo <= hi
    ensures |Range(lo, hi)| == hi - lo
    decreases hi - lo
  {
    if lo < hi {
      RangeMembers(lo, hi - 1);
      RangeSize(lo, hi - 1);
    }
  }

  lemma RangeDropsFirst(lo: nat, hi: nat)
    requires lo < hi
    ensures lo in Range(lo, hi) && Range(lo, hi) - {lo} == Range(lo + 1, hi)
  {
    hide Range;
    RangeMembers(lo, hi);
    RangeMembers(lo + 1, hi);
  }

  /** n handshakes one after the other. */
  function Fill(n: nat): seq<Move> {
    if n == 0 then [] else Fill(n - 1) + [Check(0)] + [Insert(0, n - 1)]
  }

  /** Then k checks in a row. */
  function Queue(n: nat, k: nat): seq<Move> {
    if k == 0 then Fill(n) else Queue(n, k - 1) + [Check(k - 1)]
  }

  /** Then the inserts of the first of them. */
  function Crowd(n: nat, k: nat, inserted: nat): seq<Move> {
    if inserted == 0 then Queue(n, k) else Crowd(n, k, inserted - 1) + [Insert(inserted - 1, n + inserted - 1)]
  }

  lemma OneMore(max: int, moves: seq<Move>, move: Move, k: nat)
    ensures Reached(max, moves + [move]) == Next(max, Reached(max, moves), move)
    ensures AtMost(max, moves, k) && |Next(max, Reached(max, moves), move).passed| <= k ==>
        AtMost(max, moves + [move], k)
  {
    assert (moves + [move])[..|moves + [move]| - 1] == moves;
  }

  lemma {:induction false} FillReaches(max: int, n: nat, k: nat)
    requires n < max && k > 0
    ensures Reached(max, Fill(n)) == Table(Range(0, n), {}) && AtMost(max, Fill(n), k)
  {
    if n > 0 {
      FillReaches(max, n - 1, k);
      RangeSize(0, n - 1);
      hide Reached, AtMost;
      OneMore(max, Fill(n - 1), Check(0), k);
      OneMore(max, Fill(n - 1) + [Check(0)], Insert(0, n - 1), k);
      assert {} + {0} == {0} && {0} - {0} == {};
    }
  }

  lemma {:induction false} QueueReaches(max: int, n: nat, waiting: nat, k: nat)
    requires n < max && waiting <= k && k > 0
    ensures Reached(max, Queue(n, waiting)) == Table(Range(0, n), Range(0, waiting))
        && AtMost(max, Queue(n, waiting), k)
    decreases waiting
  {
    if waiting == 0 {
      FillReaches(max, n, k);
    } else {
      QueueReaches(max, n, waiting - 1, k);
      RangeSize(0, n);
      RangeSize(0, waiting);
      hide Reached, AtMost;
      OneMore(max, Queue(n, waiting - 1), Check(waiting - 1), k);
    }
  }

  lemma InsertReaches(max: int, moves: seq<Move>, size: nat, i: nat, k: nat)
    requires i < k && Reached(max, moves) == Table(Range(0, size), Range(i, k)) && AtMost(max, moves, k)
    ensures var next := moves + [Insert(i, size)];
            Reached(max, next) == Table(Range(0, size + 1), Range(i + 1, k)) && AtMost(max, next, k)
  {
    RangeDropsFirst(i, k);
    RangeSize(i + 1, k);
    RangeAddsLast(size);
    hide Reached, AtMost, Range;
    OneMore(max, moves, Insert(i, size), k);
  }

  lemma RangeAddsLast(size: nat)
    ensures Range(0, size) + {size} == Range(0, size + 1)
  {}

  lemma {:induction false} CrowdReaches(max: int, n: nat, k: nat, inserted: nat)
    requires n < max && inserted <= k && k > 0
    ensures Reached(max, Crowd(n, k, inserted)) == Table(Range(0, n + inserted), Range(inserted, k))
    ensures AtMost(max, Crowd(n, k, inserted), k)
    decreases inserted
  {
    hide Reached, AtMost, Range, Queue;
    if inserted == 0 {
      QueueReaches(max, n, k, k);
    } else {
      CrowdReaches(max, n, k, inserted - 1);
      InsertReaches(max, Crowd(n, k, inserted - 1), n + inserted - 1, inserted - 1, k);
    }
  }

  /** And the bound is reached, for every limit and every number of handshakes. */
  lemma BoundIsReached(max: int, k: nat)
    requires max > 0 && k > 0
    ensures exists moves :: AtMost(max, moves, k) && |Reached(max, moves).ids| == max + k - 1
  {
    hide Reached, AtMost, Crowd, Range;
    CrowdReaches(max, max - 1, k, k);
    RangeSize(0, max - 1 + k);
    var moves := Crowd(max - 1, k, k);
    assert AtMost(max, moves, k) && |Reached(max, moves).ids| == max + k - 1;
  }

  // ------------------------------------------------------- closing and writing

  datatype Event = WriteStarts(t: Thread) | WriteEnds(t: Thread) | Closed(t: Thread) | TornDown(t: Thread)

  datatype Kind = Closer | Writer

  /** Where a thread is: waiting for closeMu, holding it, with the flag just set,
      writing, about to release, past the release with the teardown to do, finished. */
  datatype Pc = Waiting | Holding | Marked | Writing | Releasing | Tearing | Done

  datatype Agent = Agent(kind: Kind, pc: Pc)

  datatype Socket = Socket(holder: Option<Thread>, closed: bool, threads: map<Thread, Agent>, log: seq<Event>)

  const OPEN := Socket(None, false, map[], [])

  datatype Step = Spawn(t: Thread, kind: Kind) | Go(t: Thread)

  function At(s: Socket, t: Thread, pc: Pc): map<Thread, Agent>
    requires t in s.threads
  {
    s.threads[t := s.threads[t].(pc := pc)]
  }

  /** One step of one thread. A thread waiting for a held mutex does not move. */
  function Do(s: Socket, step: Step): Socket {
    match step
    case Spawn(t, kind) => if t in s.threads then s else s.(threads := s.threads[t := Agent(kind, Waiting)])
    case Go(t) =>
      if t !in s.threads then s
      else
        match s.threads[t].pc
        case Waiting => if s.holder.Some? then s else s.(holder := Some(t), threads := At(s, t, Holding))
        case Holding =>
          if s.closed then s.(threads := At(s, t, Releasing))
          else if s.threads[t].kind == Writer then s.(threads := At(s, t, Writing), log := s.log + [WriteStarts(t)])
          else s.(closed := true, threads := At(s, t, Marked), log := s.log + [Closed(t)])
        case Writing => s.(threads := At(s, t, Releasing), log := s.log + [WriteEnds(t)])
        case Marked => s.(holder := None, threads := At(s, t, Tearing))
        case Releasing => s.(holder := None, threads := At(s, t, Done))
        case Tearing => s.(threads := At(s, t, Done), log := s.log + [TornDown(t)])
        case Done => s
  }

  function Then(s: Socket, steps: seq<Step>): Socket
    decreases |steps|
  {
    if steps == [] then s else Do(Then(s, steps[..|steps| - 1]), steps[|steps| - 1])
  }

  /** The write under way at the end of a log, if any. */
  function OpenWrite(log: seq<Event>): Option<Thread>
    decreases |log|
  {
    if log == [] then None
    else
      match log[|log| - 1]
      case WriteStarts(t) => Some(t)
      case WriteEnds(_) => None
      case _ => OpenWrite(log[..|log| - 1])
  }

  function ClosedBy(log: seq<Event>): Option<Thread>
    decreases |log|
  {
    if log == [] then None
    else if log[|log| - 1].Closed? then Some(log[|log| - 1].t)
    else ClosedBy(log[..|log| - 1])
  }

  predicate TornDownIn(log: seq<Event>)
    decreases |log|
  {
    log != [] && (log[|log| - 1].TornDown? || TornDownIn(log[..|log| - 1]))
  }

  /** Writes start only when none is under way and the socket is not closed; it is
      closed once, with no write under way; and torn down once, by the thread that
      closed it. */
  predicate Legal(log: seq<Event>)
    decreases |log|
  {
    log == [] ||
    var before := log[..|log| - 1];
    Legal(before) &&
    match log[|log| - 1]
    case WriteStarts(t) => OpenWrite(before).None? && ClosedBy(before).None?
    case WriteEnds(t) => OpenWrite(before) == Some(t)
    case Closed(t) => OpenWrite(before).None? && ClosedBy(before).None?
    case TornDown(t) => OpenWrite(before).None? && ClosedBy(before) == Some(t) && !TornDownIn(before)
  }

  predicate Inside(pc: Pc) {
    pc == Holding || pc == Marked || pc == Writing || pc == Releasing
  }

  ghost predicate Invariant(s: Socket) {
    && Legal(s.log)
    && s.closed == ClosedBy(s.log).Some?
    && (s.holder.Some? ==> s.holder.value in s.threads)
    && (forall t :: t in s.threads ==> (Inside(s.threads[t].pc) <==> s.holder == Some(t)))
    && (OpenWrite(s.log).Some? ==> s.holder == OpenWrite(s.log))
    && (forall t :: t in s.threads ==> (s.threads[t].pc == Writing <==> OpenWrite(s.log) == Some(t)))
    && (forall t :: t in s.threads ==>
          (s.threads[t].pc == Marked || s.threads[t].pc == Tearing <==>
            ClosedBy(s.log) == Some(t) && !TornDownIn(s.log)))
    && (TornDownIn(s.log) ==> ClosedBy(s.log).Some?)
    && (ClosedBy(s.log).Some? ==> OpenWrite(s.log).None?)
    && (ClosedBy(s.log).Some? ==> ClosedBy(s.log).value in s.threads)
    && (forall t :: t in s.threads && s.threads[t].kind == Closer && s.threads[t].pc !in {Waiting, Holding} ==>
         s.closed)
  }

  lemma Appended(log: seq<Event>, e: Event)
    ensures OpenWrite(log + [e])
        == match e case WriteStarts(t) => Some(t) case WriteEnds(_) => None case _ => OpenWrite(log)
    ensures ClosedBy(log + [e]) == if e.Closed? then Some(e.t) else ClosedBy(log)
    ensures TornDownIn(log + [e]) == (e.TornDown? || TornDownIn(log))
    ensures Legal(log + [e]) ==
      (Legal(log) &&
       match e
       case WriteStarts(t) => OpenWrite(log).None? && ClosedBy(log).None?
       case WriteEnds(t) => OpenWrite(log) == Some(t)
       case Closed(t) => OpenWrite(log).None? && ClosedBy(log).None?
       case TornDown(t) => OpenWrite(log).None? && ClosedBy(log) == Some(t) && !TornDownIn(log))
  {
    assert (log + [e])[..|log + [e]| - 1] == log;
  }

  lemma TestKeepsInvariant(s: Socket, t: Thread)
    requires Invariant(s) && t in s.threads && s.threads[t].pc == Holding
    ensures Invariant(Do(s, Go(t)))
  {
    hide Legal, OpenWrite, ClosedBy, TornDownIn;
    Appended(s.log, WriteStarts(t));
    Appended(s.log, Closed(t));
  }

  lemma WriteKeepsInvariant(s: Socket, t: Thread)
    requires Invariant(s) && t in s.threads && s.threads[t].pc == Writing
    ensures Invariant(Do(s, Go(t)))
  {
    hide Legal, OpenWrite, ClosedBy, TornDownIn;
    Appended(s.log, WriteEnds(t));
  }

  lemma TeardownKeepsInvariant(s: Socket, t: Thread)
    requires Invariant(s) && t in s.threads && s.threads[t].pc == Tearing
    ensures Invariant(Do(s, Go(t)))
  {
    hide Legal, OpenWrite, ClosedBy, TornDownIn;
    Appended(s.log, TornDown(t));
  }

  lemma MutexKeepsInvariant(s: Socket, t: Thread)
    requires Invariant(s) && t in s.threads && s.threads[t].pc in {Waiting, Marked, Releasing, Done}
    ensures Invariant(Do(s, Go(t)))
  {
    hide Legal, OpenWrite, ClosedBy, TornDownIn;
  }

  lemma SpawnKeepsInvariant(s: Socket, t: Thread, kind: Kind)
    requires Invariant(s)
    ensures Invariant(Do(s, Spawn(t, kind)))
  {
    hide Legal, OpenWrite, ClosedBy, TornDownIn;
  }

  lemma StepKeepsInvariant(s: Socket, step: Step)
    requires Invariant(s)
    ensures Invariant(Do(s, step))
  {
    hide Invariant;
    match step {
      case Spawn(t, kind) => SpawnKeepsInvariant(s, t, kind);
      case Go(t) =>
        if t in s.threads {
          match s.threads[t].pc {
            case Holding => TestKeepsInvariant(s, t);
            case Writing => WriteKeepsInvariant(s, t);
            case Tearing => TeardownKeepsInvariant(s, t);
            case _ => MutexKeepsInvariant(s, t);
          }
        }
    }
  }

  lemma {:induction false} RunKeepsInvariant(steps: seq<Step>)
    ensures Invariant(Then(OPEN, steps))
    decreases |steps|
  {
    hide Invariant, Do;
    if steps == [] {
      assert Invariant(OPEN) by { OpenIsFine(); }
    } else {
      var before := steps[..|steps| - 1];
      RunKeepsInvariant(before);
      StepKeepsInvariant(Then(OPEN, before), steps[|steps| - 1]);
    }
  }

  lemma OpenIsFine()
    ensures Invariant(OPEN)
  {}

  // ---------------------------------------------------------------- what it means

  lemma {:induction false} ClosedStays(log: seq<Event>, i: nat)
    requires Legal(log) && i < |log|
    ensures log[i].Closed? ==> ClosedBy(log) == Some(log[i].t)
    ensures log[i].TornDown? ==> TornDownIn(log)
    decreases |log|
  {
    if i < |log| - 1 {
      ClosedStays(log[..|log| - 1], i);
    }
  }

  lemma {:induction false} LegalPrefix(log: seq<Event>, n: nat)
    requires Legal(log) && n <= |log|
    ensures Legal(log[..n])
    decreases |log|
  {
    if n < |log| {
      LegalPrefix(log[..|log| - 1], n);
      assert log[..|log| - 1][..n] == log[..n];
    } else {
      assert log[..n] == log;
    }
  }

  lemma LastStepIsLegal(log: seq<Event>, j: nat)
    requires Legal(log) && j < |log|
    ensures Legal(log[..j]) && Legal(log[..j + 1]) && log[..j + 1][..j] == log[..j] && log[..j + 1][j] == log[j]
  {
    LegalPrefix(log, j + 1);
    LegalPrefix(log, j);
  }

  /** In every interleaving of any number of closers and writers: once the socket is
      marked closed no write starts, it is not closed again, and it is torn down at
      most once. */
  lemma ClosingIsFinal(steps: seq<Step>, i: nat, j: nat)
    requires i < j < |Then(OPEN, steps).log|
    ensures var log := Then(OPEN, steps).log;
            && (log[i].Closed? ==> !log[j].WriteStarts? && !log[j].Closed?)
            && (log[i].TornDown? ==> !log[j].TornDown?)
            && (log[j].TornDown? ==> ClosedBy(log[..j]) == Some(log[j].t))
  {
    RunKeepsInvariant(steps);
    var log := Then(OPEN, steps).log;
    hide Then;
    LastStepIsLegal(log, j);
    ClosedStays(log[..j], i);
  }

  /** Message writes never overlap: whatever follows the start of a write is its end. */
  lemma WritesDoNotOverlap(steps: seq<Step>, i: nat)
    requires i + 1 < |Then(OPEN, steps).log| && Then(OPEN, steps).log[i].WriteStarts?
    ensures var log := Then(OPEN, steps).log; log[i + 1] == WriteEnds(log[i].t)
  {
    RunKeepsInvariant(steps);
    var log := Then(OPEN, steps).log;
    hide Then;
    LastStepIsLegal(log, i + 1);
    assert OpenWrite(log[..i + 1]) == Some(log[i].t);
  }

  /** When every thread has finished and one of them was a closer, the teardown has
      been done, so exactly once. */
  lemma TornDownInTheEnd(steps: seq<Step>)
    requires var s := Then(OPEN, steps);
             && (forall t :: t in s.threads ==> s.threads[t].pc == Done)
             && exists t :: t in s.threads && s.threads[t].kind == Closer
    ensures TornDownIn(Then(OPEN, steps).log) && Then(OPEN, steps).closed
  {
    RunKeepsInvariant(steps);
  }

  /** Nobody waits for ever: while a thread is unfinished some thread can move. */
  lemma NoDeadlock(steps: seq<Step>, t: Thread)
    requires var s := Then(OPEN, steps); t in s.threads && s.threads[t].pc != Done
    ensures var s := Then(OPEN, steps); exists u :: u in s.threads && Do(s, Go(u)) != s
  {
    RunKeepsInvariant(steps);
    var s := Then(OPEN, steps);
    hide Then, Legal, OpenWrite, ClosedBy, TornDownIn;
    var u := if s.holder.Some? then s.holder.value else t;
    assert u in s.threads && s.threads[u].pc != Done;
    assert Do(s, Go(u)).threads[u].pc != s.threads[u].pc;
  }

  /** A closer that is not interrupted does what closeConnection does as one step. */
  lemma UninterruptedClose(s: Socket, t: Thread)
    requires t !in s.threads && s.holder.None?
    ensures var s' := Then(s, [Spawn(t, Closer), Go(t), Go(t), Go(t), Go(t)]);
            && s'.closed && s'.holder.None?
            && s'.log == (if s.closed then s.log else s.log + [Closed(t), TornDown(t)])
            && s'.threads == s.threads[t := Agent(Closer, Done)]
  {
    FiveSteps(s, Spawn(t, Closer), Go(t), Go(t), Go(t), Go(t));
  }

  lemma FiveSteps(s: Socket, a: Step, b: Step, c: Step, d: Step, e: Step)
    ensures Then(s, [a, b, c, d, e]) == Do(Do(Do(Do(Do(s, a), b), c), d), e)
  {
    hide Do;
    assert [a, b, c, d, e][..4] == [a, b, c, d] && [a, b, c, d][..3] == [a, b, c];
    assert [a, b, c][..2] == [a, b] && [a, b][..1] == [a] && [a][..0] == [];
    assert Then(s, []) == s;
    assert Then(s, [a]) == Do(s, a);
    assert Then(s, [a, b]) == Do(Then(s, [a]), b);
    assert Then(s, [a, b, c]) == Do(Then(s, [a, b]), c);
    assert Then(s, [a, b, c, d]) == Do(Then(s, [a, b, c]), d);
  }

  // ------------------------------------------------------------------ writers write

  /** A writer that is not interrupted writes its message, unless the socket is closed. */
  lemma UninterruptedWrite(s: Socket, t: Thread)
    requires t !in s.threads && s.holder.None?
    ensures var s' := Then(s, [Spawn(t, Writer), Go(t), Go(t), Go(t), Go(t)]);
            && s'.holder.None? && s'.closed == s.closed
            && s'.log == (if s.closed then s.log else s.log + [WriteStarts(t), WriteEnds(t)])
            && s'.threads == s.threads[t := Agent(Writer, Done)]
  {
    FiveSteps(s, Spawn(t, Writer), Go(t), Go(t), Go(t), Go(t));
  }

  /** The thread's message has been written, all of it. */
  predicate Wrote(log: seq<Event>, t: Thread) {
    exists i :: 0 <= i < |log| - 1 && log[i] == WriteStarts(t) && log[i + 1] == WriteEnds(t)
  }

  ghost predicate WritersWrote(s: Socket) {
    forall t :: t in s.threads && s.threads[t].kind == Writer && s.threads[t].pc in {Releasing, Done} ==>
      s.closed || Wrote(s.log, t)
  }

  lemma OpenWriteIsLast(log: seq<Event>, t: Thread)
    requires Legal(log) && OpenWrite(log) == Some(t)
    ensures log != [] && log[|log| - 1] == WriteStarts(t)
  {}

  lemma WroteStays(log: seq<Event>, e: Event, t: Thread)
    ensures Wrote(log, t) ==> Wrote(log + [e], t)
    ensures log != [] && log[|log| - 1] == WriteStarts(t) && e == WriteEnds(t) ==> Wrote(log + [e], t)
  {
    var longer := log + [e];
    if Wrote(log, t) {
      var i :| 0 <= i < |log| - 1 && log[i] == WriteStarts(t) && log[i + 1] == WriteEnds(t);
      assert longer[i] == WriteStarts(t) && longer[i + 1] == WriteEnds(t);
    }
    if log != [] && log[|log| - 1] == WriteStarts(t) && e == WriteEnds(t) {
      assert longer[|log| - 1] == WriteStarts(t) && longer[|log| - 1 + 1] == WriteEnds(t);
    }
  }

  lemma StepKeepsWritten(s: Socket, step: Step)
    requires Invariant(s) && WritersWrote(s)
    ensures WritersWrote(Do(s, step))
  {
    hide Legal, OpenWrite, ClosedBy, TornDownIn, Wrote;
    forall e, t ensures Wrote(s.log, t) ==> Wrote(s.log + [e], t) {
      WroteStays(s.log, e, t);
    }
    if step.Go? && step.t in s.threads && s.threads[step.t].pc == Writing {
      OpenWriteIsLast(s.log, step.t);
      WroteStays(s.log, WriteEnds(step.t), step.t);
    }
  }

  /** Whatever the interleaving, a writer that has finished has written its message, or
      the socket is closed. */
  lemma {:induction false} FinishedWritersWrote(steps: seq<Step>)
    ensures WritersWrote(Then(OPEN, steps))
    decreases |steps|
  {
    hide Do, Wrote;
    if steps != [] {
      var before := steps[..|steps| - 1];
      FinishedWritersWrote(before);
      RunKeepsInvariant(before);
      hide WritersWrote;
      StepKeepsWritten(Then(OPEN, before), steps[|steps| - 1]);
    }
  }
}
