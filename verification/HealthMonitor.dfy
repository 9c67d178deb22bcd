/** Health checks of the OpenSIPS backends: every round probes all of them, keeps a
    failure count for each, and moves the active mark when the active backend did not
    answer but another did. A probe is an oracle: it is answered or it is not. */
module HealthMonitor {
  datatype Status = Healthy | Degraded | Unhealthy

  datatype Backend = Backend(status: Status, failCount: nat, isActive: bool)

  /** A failover event with the failure count its reason names. */
  datatype Event = Event(from: string, to: string, failCount: nat)

  datatype Stats = Stats(totalChecks: nat, success: nat, failure: nat, failovers: nat)

  datatype Config = Config(addresses: seq<string>, threshold: int, enabled: bool)

  datatype Monitor = Monitor(backends: seq<Backend>, stats: Stats, history: seq<Event>, overall: Status)

  /** What NewHealthMonitor makes of its settings. */
  function NewConfig(addresses: seq<string>, primary: string, threshold: int, enabled: bool): (c: Config)
    ensures c.threshold > 0
  {
    Config(if addresses == [] && primary != "" then [primary] else addresses,
           if threshold > 0 then threshold else 3, enabled)
  }

  function Start(c: Config): Monitor {
    Monitor(seq(|c.addresses|, i => Backend(Unhealthy, 0, i == 0)), Stats(0, 0, 0, 0), [], Unhealthy)
  }

  function FirstActive(backends: seq<Backend>): (i: nat)
    ensures i <= |backends| && (i < |backends| ==> backends[i].isActive)
    ensures forall j :: 0 <= j < i ==> !backends[j].isActive
  {
    if backends == [] || backends[0].isActive then 0 else FirstActive(backends[1..]) + 1
  }

  function FirstAnswer(answers: seq<bool>): (i: nat)
    ensures i <= |answers| && (i < |answers| ==> answers[i]) && forall j :: 0 <= j < i ==> !answers[j]
  {
    if answers == [] || answers[0] then 0 else FirstAnswer(answers[1..]) + 1
  }

  function Count(answers: seq<bool>): (k: nat)
    ensures k <= |answers| && (k == 0 <==> true !in answers) && (k == |answers| <==> false !in answers)
  {
    if answers == [] then 0
    else
      var k := Count(answers[1..]);
      assert answers == [answers[0]] + answers[1..];
      if answers[0] then k + 1 else k
  }

  lemma CountNext(answers: seq<bool>, i: nat)
    requires i < |answers|
    ensures Count(answers[i..]) == Count(answers[i + 1..]) + if answers[i] then 1 else 0
  {
    assert answers[i..][1..] == answers[i + 1..];
  }

  function Probe(b: Backend, answered: bool, threshold: int): Backend {
    if answered then b.(status := Healthy, failCount := 0)
    else b.(failCount := b.failCount + 1, status := if b.failCount + 1 >= threshold then Unhealthy else b.status)
  }

  function Overall(answers: seq<bool>): Status {
    if Count(answers) == |answers| then Healthy else if Count(answers) > 0 then Degraded else Unhealthy
  }

  /** The backend that checks start from: the one marked active, else the first. */
  function ActiveOf(backends: seq<Backend>): (i: nat)
    requires backends != []
    ensures i < |backends|
  {
    if FirstActive(backends) == |backends| then 0 else FirstActive(backends)
  }

  function ProbeEach(backends: seq<Backend>, answers: seq<bool>, threshold: int): (r: seq<Backend>)
    requires |answers| == |backends|
    ensures |r| == |backends|
  {
    seq(|backends|, i requires 0 <= i < |backends| => Probe(backends[i], answers[i], threshold))
  }

  function Probed(c: Config, backends: seq<Backend>, answers: seq<bool>): (r: seq<Backend>)
    requires backends != [] && |answers| == |backends|
    ensures |r| == |backends|
  {
    var marked := backends[ActiveOf(backends) := backends[ActiveOf(backends)].(isActive := true)];
    ProbeEach(marked, answers, c.threshold)
  }

  predicate FailsOver(c: Config, backends: seq<Backend>, answers: seq<bool>)
    requires backends != [] && |answers| == |backends|
  {
    c.enabled && !answers[ActiveOf(backends)] && true in answers
  }

  function Moved(backends: seq<Backend>, to: nat): (r: seq<Backend>)
    ensures |r| == |backends|
  {
    seq(|backends|, i requires 0 <= i < |backends| => backends[i].(isActive := i == to))
  }

  lemma MovedKeepsCounts(backends: seq<Backend>, to: nat, i: nat)
    requires i < |backends|
    ensures Moved(backends, to)[i].failCount == backends[i].failCount
  {}

  /** checkOpenSIPSBackends */
  function Round(c: Config, m: Monitor, answers: seq<bool>): (m': Monitor)
    requires |m.backends| == |c.addresses| == |answers|
    ensures |m'.backends| == |c.addresses|
  {
    if c.addresses == [] then m
    else
      var active := ActiveOf(m.backends);
      var probed := Probed(c, m.backends, answers);
      var counted := if Count(answers) > 0
          then m.stats.(totalChecks := m.stats.totalChecks + 1, success := m.stats.success + 1)
                     else m.stats.(totalChecks := m.stats.totalChecks + 1, failure := m.stats.failure + 1);
      if !FailsOver(c, m.backends, answers) then Monitor(probed, counted, m.history, Overall(answers))
      else
        var to := FirstAnswer(answers);
        Monitor(Moved(probed, to), counted.(failovers := counted.failovers + 1),
                m.history + [Event(c.addresses[active], c.addresses[to], probed[active].failCount)], Overall(answers))
  }

  type Rounds = seq<seq<bool>>

  predicate IsRun(c: Config, rounds: Rounds) {
    forall r :: 0 <= r < |rounds| ==> |rounds[r]| == |c.addresses|
  }

  function After(c: Config, rounds: Rounds): (m: Monitor)
    requires IsRun(c, rounds)
    ensures |m.backends| == |c.addresses|
    decreases |rounds|
  {
    if rounds == [] then Start(c) else Round(c, After(c, rounds[..|rounds| - 1]), rounds[|rounds| - 1])
  }

  // ------------------------------------------------------- one active backend

  predicate OnlyActive(backends: seq<Backend>, a: nat) {
    a < |backends| && forall i :: 0 <= i < |backends| ==> (backends[i].isActive <==> i == a)
  }

  /** Each event leaves the backend the one before it went to, the first leaves the
      first backend, and the last one went to `at`. */
  predicate Chained(history: seq<Event>, first: string, at: string)
    decreases |history|
  {
    if history == [] then at == first
    else
      var last := history[|history| - 1];
      last.to == at && Chained(history[..|history| - 1], first, last.from)
  }

  lemma RoundKeepsActive(c: Config, m: Monitor, answers: seq<bool>)
    requires c.addresses != [] && |m.backends| == |c.addresses| == |answers|
    requires OnlyActive(m.backends, ActiveOf(m.backends))
    requires Chained(m.history, c.addresses[0], c.addresses[ActiveOf(m.backends)]) && m.stats.failovers == |m.history|
    ensures var m' := Round(c, m, answers);
            && OnlyActive(m'.backends, ActiveOf(m'.backends))
            && ActiveOf(m'.backends)
                 == (if FailsOver(c, m.backends, answers) then FirstAnswer(answers) else ActiveOf(m.backends))
            && Chained(m'.history, c.addresses[0], c.addresses[ActiveOf(m'.backends)])
            && m'.stats.failovers == |m'.history|
  {
    hide Count, Overall, Chained, FirstActive, FirstAnswer, Probed, ActiveOf, OnlyActive;
    var m' := Round(c, m, answers);
    var active := ActiveOf(m.backends);
    ProbedKeepsActive(c, m.backends, answers, active);
    OnlyActiveIsActive(m'.backends, if FailsOver(c, m.backends, answers) then FirstAnswer(answers) else active);
    if FailsOver(c, m.backends, answers) {
      ChainExtends(m.history, c.addresses[0], m'.history[|m.history|]);
    }
  }

  lemma ProbedKeepsActive(c: Config, backends: seq<Backend>, answers: seq<bool>, a: nat)
    requires backends != [] && |answers| == |backends| && OnlyActive(backends, a) && a == ActiveOf(backends)
    ensures OnlyActive(Probed(c, backends, answers), a)
    ensures forall to: nat :: to < |backends| ==> OnlyActive(Moved(Probed(c, backends, answers), to), to)
  {
    hide FirstActive, ActiveOf;
  }

  lemma OnlyActiveIsActive(backends: seq<Backend>, a: nat)
    requires OnlyActive(backends, a)
    ensures ActiveOf(backends) == a
  {
    hide FirstActive;
    assert backends[a].isActive;
  }

  lemma ChainExtends(history: seq<Event>, first: string, event: Event)
    requires Chained(history, first, event.from)
    ensures Chained(history + [event], first, event.to)
  {
    assert (history + [event])[..|history|] == history;
  }

  /** In every run exactly one backend is active, and the failover events are a chain
      from the first backend to that one, as many as the failover counter says. */
  lemma {:induction false} OneActiveBackend(c: Config, rounds: Rounds)
    requires c.addresses != [] && IsRun(c, rounds)
    ensures var m := After(c, rounds);
            && OnlyActive(m.backends, ActiveOf(m.backends))
            && Chained(m.history, c.addresses[0], c.addresses[ActiveOf(m.backends)])
            && m.stats.failovers == |m.history|
    decreases |rounds|
  {
    hide Round, OnlyActive;
    if rounds == [] {
      StartHasOneActive(c);
    } else {
      var before := rounds[..|rounds| - 1];
      OneActiveBackend(c, before);
      RoundKeepsActive(c, After(c, before), rounds[|rounds| - 1]);
    }
  }

  lemma StartHasOneActive(c: Config)
    requires c.addresses != []
    ensures OnlyActive(Start(c).backends, ActiveOf(Start(c).backends)) && ActiveOf(Start(c).backends) == 0
  {}

  /** With failover on, the active backend answered the last round if any backend did.
      With failover off, the first backend stays active for ever. */
  lemma ActiveAnswered(c: Config, rounds: Rounds)
    requires c.addresses != [] && IsRun(c, rounds) && rounds != []
    ensures var (a, answers) := (ActiveOf(After(c, rounds).backends), rounds[|rounds| - 1]);
            && (c.enabled && true in answers ==> answers[a])
            && (!c.enabled ==> a == 0)
    decreases |rounds|
  {
    hide Round, OnlyActive, Chained, ActiveOf;
    var before := rounds[..|rounds| - 1];
    OneActiveBackend(c, before);
    RoundKeepsActive(c, After(c, before), rounds[|rounds| - 1]);
    if before != [] {
      ActiveAnswered(c, before);
    } else {
      StartHasOneActive(c);
    }
  }

  // ------------------------------------------------------------ failure counts

  /** How many of the last rounds in a row this backend left unanswered. */
  function Unanswered(rounds: Rounds, i: nat): (k: nat)
    requires forall r :: 0 <= r < |rounds| ==> i < |rounds[r]|
    ensures k <= |rounds|
    decreases |rounds|
  {
    if rounds == [] || rounds[|rounds| - 1][i] then 0 else Unanswered(rounds[..|rounds| - 1], i) + 1
  }

  predicate EverAnswered(rounds: Rounds, i: nat)
    requires forall r :: 0 <= r < |rounds| ==> i < |rounds[r]|
  {
    exists r :: 0 <= r < |rounds| && rounds[r][i]
  }

  /** How many of the last rounds in a row nobody answered. */
  function Silent(rounds: Rounds): (k: nat)
    ensures k <= |rounds|
    decreases |rounds|
  {
    if rounds == [] || true in rounds[|rounds| - 1] then 0 else Silent(rounds[..|rounds| - 1]) + 1
  }

  lemma RoundProbes(c: Config, m: Monitor, answers: seq<bool>, i: nat)
    requires i < |m.backends| == |c.addresses| == |answers|
    ensures var b := Round(c, m, answers).backends[i];
            b.failCount == (if answers[i] then 0 else m.backends[i].failCount + 1)
            && b.status == if answers[i] then Healthy
                           else if b.failCount >= c.threshold then Unhealthy
                           else m.backends[i].status
  {
    hide Count, FirstAnswer, FirstActive;
  }

  /** The failure count is the length of the run of unanswered rounds. A backend is
      shown healthy exactly when it has answered before and that run is shorter than
      the threshold. */
  lemma {:induction false} BackendStatusIff(c: Config, rounds: Rounds, i: nat)
    requires c.threshold > 0 && i < |c.addresses| && IsRun(c, rounds)
    ensures var b := After(c, rounds).backends[i];
            && b.failCount == Unanswered(rounds, i)
            && b.status == if EverAnswered(rounds, i) && Unanswered(rounds, i) < c.threshold then Healthy else Unhealthy
    decreases |rounds|
  {
    hide Round;
    if rounds != [] {
      var (before, answers) := (rounds[..|rounds| - 1], rounds[|rounds| - 1]);
      BackendStatusIff(c, before, i);
      RoundProbes(c, After(c, before), answers, i);
      LastAnswer(rounds, i);
    }
  }

  lemma LastAnswer(rounds: Rounds, i: nat)
    requires rounds != [] && forall r :: 0 <= r < |rounds| ==> i < |rounds[r]|
    ensures EverAnswered(rounds, i) <==> EverAnswered(rounds[..|rounds| - 1], i) || rounds[|rounds| - 1][i]
    ensures !EverAnswered(rounds, i) ==> Unanswered(rounds, i) == |rounds|
    decreases |rounds|
  {
    var before := rounds[..|rounds| - 1];
    if EverAnswered(before, i) {
      var r :| 0 <= r < |before| && before[r][i];
      assert rounds[r][i];
    }
    if before != [] {
      LastAnswer(before, i);
    }
  }

  /** While failover is on, the active backend has failed only in rounds nobody answered. */
  lemma {:induction false} ActiveFailsWithAll(c: Config, rounds: Rounds)
    requires c.addresses != [] && c.enabled && IsRun(c, rounds)
    ensures var m := After(c, rounds); m.backends[ActiveOf(m.backends)].failCount == Silent(rounds)
    decreases |rounds|
  {
    hide Round, OnlyActive, Chained, ActiveOf;
    if rounds == [] {
      StartHasOneActive(c);
    } else {
      var (before, answers) := (rounds[..|rounds| - 1], rounds[|rounds| - 1]);
      ActiveFailsWithAll(c, before);
      OneActiveBackend(c, before);
      RoundKeepsActive(c, After(c, before), answers);
      ActiveAnswered(c, rounds);
      RoundProbes(c, After(c, before), answers, ActiveOf(After(c, rounds).backends));
    }
  }

  /** A round fails over exactly when failover is on and the active backend is silent
      while another answers, at its first such failure: the threshold plays no part.
      It goes to the first backend that answered, and the count in the recorded
      reason exceeds one only by the rounds before in which no backend answered. */
  lemma FailoverIgnoresThreshold(c: Config, rounds: Rounds, answers: seq<bool>)
    requires c.addresses != [] && IsRun(c, rounds) && |answers| == |c.addresses|
    ensures var (m, m') := (After(c, rounds), Round(c, After(c, rounds), answers));
            var a := ActiveOf(m.backends);
            if c.enabled && !answers[a] && true in answers
            then m'.history ==
                   m.history + [Event(c.addresses[a], c.addresses[FirstAnswer(answers)], Silent(rounds) + 1)]
            else m'.history == m.history
  {
    hide ActiveOf, FirstAnswer, Count, Silent;
    var m := After(c, rounds);
    if FailsOver(c, m.backends, answers) {
      ActiveFailsWithAll(c, rounds);
    }
  }

  // -------------------------------------------------------------------- counts

  /** The rounds that somebody answered. */
  function Answered(rounds: Rounds): (k: nat)
    ensures k <= |rounds|
    decreases |rounds|
  {
    if rounds == [] then 0
    else Answered(rounds[..|rounds| - 1]) + if true in rounds[|rounds| - 1] then 1 else 0
  }

  /** Every round is counted once, as a success exactly when some backend answered. */
  lemma {:induction false} CountsAreExact(c: Config, rounds: Rounds)
    requires c.addresses != [] && IsRun(c, rounds)
    ensures var s := After(c, rounds).stats;
            s.totalChecks == |rounds| && s.success == Answered(rounds) && s.success + s.failure == s.totalChecks
    decreases |rounds|
  {
    hide Probed, Moved, FirstAnswer, ActiveOf;
    if rounds != [] {
      CountsAreExact(c, rounds[..|rounds| - 1]);
    }
  }

  /** The overall status speaks of the last round alone: healthy if every backend answered
      it, unhealthy if none did, or there was none, and degraded otherwise; the failure
      counts play no part. */
  lemma OverallIs(c: Config, rounds: Rounds)
    requires c.addresses != [] && IsRun(c, rounds)
    ensures var overall := After(c, rounds).overall;
            && (overall == Healthy <==> rounds != [] && false !in rounds[|rounds| - 1])
            && (overall == Unhealthy <==> rounds == [] || true !in rounds[|rounds| - 1])
  {
    hide Probed, Moved, FirstAnswer, ActiveOf;
    if rounds != [] {
      assert rounds[|rounds| - 1][0] in rounds[|rounds| - 1];
    }
  }

  // -------------------------------------------------------------------- object

  class Checker {
    const config: Config
    const backends: array<Backend>
    var stats: Stats
    var history: seq<Event>
    var overall: Status

    function State(): Monitor
      reads this, backends
    {
      Monitor(backends[..], stats, history, overall)
    }

    predicate Valid()
      reads this
    {
      backends.Length == |config.addresses|
    }

    constructor (c: Config)
      ensures Valid() && config == c && State() == Start(c)
    {
      config := c;
      backends := new Backend[|c.addresses|](i => Backend(Unhealthy, 0, i == 0));
      stats := Stats(0, 0, 0, 0);
      history := [];
      overall := Unhealthy;
      new;
      assert backends[..] == seq(|c.addresses|, i => Backend(Unhealthy, 0, i == 0));
    }

    /** The goroutines that probe the backends finish in any order. */
    method ProbeAll(answers: seq<bool>) returns (results: array<bool>)
      requires Valid() && |answers| == backends.Length
      modifies backends
      ensures fresh(results) && results[..] == answers
      ensures backends[..] == ProbeEach(old(backends[..]), answers, config.threshold)
    {
      results := new bool[|answers|];
      var running: set<nat> := {};
      for i := 0 to |answers|
        invariant forall j :: j in running <==> 0 <= j < i
      {
        running := running + {i};
      }
      while running != {}
        invariant forall i :: i in running ==> 0 <= i < |answers|
        invariant forall i :: 0 <= i < |answers| && i !in running ==>
                    results[i] == answers[i] && backends[i] == Probe(old(backends[i]), answers[i], config.threshold)
        invariant forall i :: i in running ==> backends[i] == old(backends[i])
        decreases running
      {
        var idx :| idx in running;
        results[idx] := answers[idx];
        if answers[idx] {
          backends[idx] := backends[idx].(status := Healthy, failCount := 0);
        } else {
          backends[idx] := backends[idx].(failCount := backends[idx].failCount + 1);
          if backends[idx].failCount >= config.threshold {
            backends[idx] := backends[idx].(status := Unhealthy);
          }
        }
        running := running - {idx};
      }
    }

    method FindActive() returns (i: nat)
      requires Valid() && backends.Length > 0
      modifies backends
      ensures i == ActiveOf(old(backends[..]))
      ensures backends[..] == old(backends[..])[i := old(backends[i]).(isActive := true)]
    {
      i := 0;
      while i < backends.Length && !backends[i].isActive
        invariant i <= backends.Length && forall j :: 0 <= j < i ==> !backends[j].isActive
      {
        i := i + 1;
      }
      ghost var first := FirstActive(backends[..]);
      assert first < backends.Length ==> backends[..][first].isActive;
      assert i < backends.Length ==> backends[..][i].isActive;
      assert i == first;
      if i == backends.Length {
        i := 0;
        backends[0] := backends[0].(isActive := true);
      }
    }

    method Tally(results: array<bool>, active: nat) returns (healthyCount: nat, activeHealthy: bool)
      requires active < results.Length
      ensures healthyCount == Count(results[..]) && activeHealthy == results[active]
    {
      hide Count;
      healthyCount, activeHealthy := 0, false;
      for i := 0 to results.Length
        invariant healthyCount + Count(results[i..]) == Count(results[..])
        invariant activeHealthy == (active < i && results[active])
      {
        CountNext(results[..], i);
        if results[i] {
          healthyCount := healthyCount + 1;
          if i == active {
            activeHealthy := true;
          }
        }
      }
    }

    /** The first answering backend but the active one, as the code looks for it. */
    method FindOther(results: array<bool>, active: nat) returns (to: nat)
      requires active < results.Length && !results[active] && true in results[..]
      ensures to == FirstAnswer(results[..]) < results.Length
    {
      to := 0;
      ghost var first := FirstAnswer(results[..]);
      assert results[..][first];
      while !(results[to] && to != active)
        invariant to <= first < results.Length
        decreases results.Length - to
      {
        to := to + 1;
      }
      assert results[..][to];
    }

    method MarkActive(to: nat)
      modifies backends
      ensures backends[..] == Moved(old(backends[..]), to)
    {
      for i := 0 to backends.Length
        invariant forall j :: 0 <= j < i ==> backends[j] == old(backends[j]).(isActive := j == to)
        invariant forall j :: i <= j < backends.Length ==> backends[j] == old(backends[j])
      {
        backends[i] := backends[i].(isActive := i == to);
      }
    }

    method CheckOpenSIPSBackends(answers: seq<bool>)
      requires Valid() && |answers| == |config.addresses|
      modifies this, backends
      ensures Valid() && State() == Round(config, old(State()), answers)
    {
      hide FirstActive, FirstAnswer, Count, Moved, ActiveOf, ProbeEach;
      if |config.addresses| == 0 {
        return;
      }
      var active := FindActive();
      var results := ProbeAll(answers);
      ghost var probed := backends[..];
      assert probed == Probed(config, old(backends[..]), answers);

      var healthyCount, activeHealthy := Tally(results, active);
      stats := stats.(totalChecks := stats.totalChecks + 1);
      if healthyCount > 0 {
        stats := stats.(success := stats.success + 1);
      } else {
        stats := stats.(failure := stats.failure + 1);
      }
      if !activeHealthy && healthyCount > 0 && config.enabled {
        var to := FindOther(results, active);
        MarkActive(to);
        MovedKeepsCounts(probed, to, active);
        history := history + [Event(config.addresses[active], config.addresses[to], backends[active].failCount)];
        stats := stats.(failovers := stats.failovers + 1);
      }
      overall := if healthyCount == |config.addresses| then Healthy
                 else if healthyCount > 0 then Degraded
                 else Unhealthy;
    }
  }
}
