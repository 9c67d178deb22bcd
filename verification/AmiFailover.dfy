/** The AMI manager's SendAction: which client is active, which clients are still
    trusted, and how often a run of calls can switch between them.

    Clients are an oracle: each call is given the outcome of its first send, of
    the retry, and which clients are connected when a failover is tried. */
module AmiFailover {
  import opened Addresses
  import opened Ttl

  datatype ClientStatus = ClientStatus(isHealthy: bool, failCount: nat)

  /** `status` is nil until the first failure. */
  datatype Manager = Manager(activeIdx: nat, status: Option<seq<ClientStatus>>)

  datatype Env = Env(sends: bool, connected: seq<bool>, retrySends: bool)

  datatype Reply = Sent | Retried(client: nat, sends: bool) | Failed

  const THRESHOLD: nat := 3

  function Fresh(n: nat): seq<ClientStatus> {
    seq(n, _ => ClientStatus(true, 0))
  }

  function StatusOf(m: Manager, n: nat): seq<ClientStatus> {
    if m.status.None? then Fresh(n) else m.status.value
  }

  function Blame(s: ClientStatus): ClientStatus {
    ClientStatus(s.isHealthy && s.failCount + 1 < THRESHOLD, s.failCount + 1)
  }

  /** Failures are booked on the first client with the address that failed. */
  function RecordFailure(addresses: seq<string>, m: Manager, failed: nat): Manager
    requires failed < |addresses| == |StatusOf(m, |addresses|)|
  {
    var s, i := StatusOf(m, |addresses|), FirstWith(addresses, addresses[failed]);
    m.(status := Some(s[i := Blame(s[i])]))
  }

  predicate Eligible(s: seq<ClientStatus>, connected: seq<bool>, current: nat, i: nat)
    requires i < |s| == |connected|
  {
    i != current && connected[i] && s[i].isHealthy
  }

  /** The first eligible client from `from` on. */
  function FirstEligible(s: seq<ClientStatus>, connected: seq<bool>, current: nat, from: nat): (r: Option<nat>)
    requires from <= |s| == |connected|
    ensures r.Some? ==> from <= r.value < |s| && Eligible(s, connected, current, r.value)
    ensures r.Some? ==> forall i :: from <= i < r.value ==> !Eligible(s, connected, current, i)
    ensures r.None? ==> forall i :: from <= i < |s| ==> !Eligible(s, connected, current, i)
    decreases |s| - from
  {
    if from == |s| then None
    else if Eligible(s, connected, current, from) then Some(from)
    else FirstEligible(s, connected, current, from + 1)
  }

  function TryFailover(m: Manager, n: nat, connected: seq<bool>): (Manager, Option<nat>)
    requires n == |StatusOf(m, n)| == |connected|
  {
    var s := StatusOf(m, n);
    var next := FirstEligible(s, connected, m.activeIdx, 0);
    (Manager(if next.Some? then next.value else m.activeIdx, Some(s)), next)
  }

  predicate Fits(addresses: seq<string>, m: Manager, e: Env) {
    m.activeIdx < |addresses| == |StatusOf(m, |addresses|)| == |e.connected|
  }

  function SendAction(addresses: seq<string>, m: Manager, e: Env): (r: (Manager, Reply))
    requires Fits(addresses, m, e)
    ensures r.0.activeIdx < |addresses| == |StatusOf(r.0, |addresses|)|
  {
    if e.sends then (m, Sent)
    else
      var (m2, next) := TryFailover(RecordFailure(addresses, m, m.activeIdx), |addresses|, e.connected);
      (m2, if next.Some? then Retried(next.value, e.retrySends) else Failed)
  }

  // ------------------------------------------------------------------- runs

  ghost predicate IsRun(addresses: seq<string>, run: seq<Env>) {
    forall k :: 0 <= k < |run| ==> |run[k].connected| == |addresses|
  }

  /** The manager after a run of calls that started on client `start`. */
  ghost function After(addresses: seq<string>, start: nat, run: seq<Env>): (m: Manager)
    requires start < |addresses| && IsRun(addresses, run)
    ensures m.activeIdx < |addresses| == |StatusOf(m, |addresses|)|
  {
    if run == [] then Manager(start, None)
    else SendAction(addresses, After(addresses, start, run[..|run| - 1]), run[|run| - 1]).0
  }

  ghost predicate LastFailsOver(addresses: seq<string>, start: nat, run: seq<Env>)
    requires start < |addresses| && IsRun(addresses, run)
  {
    run != [] && SendAction(addresses, After(addresses, start, run[..|run| - 1]), run[|run| - 1]).1.Retried?
  }

  ghost function Failovers(addresses: seq<string>, start: nat, run: seq<Env>): nat
    requires start < |addresses| && IsRun(addresses, run)
  {
    if run == [] then 0
    else Failovers(addresses, start, run[..|run| - 1]) + (if LastFailsOver(addresses, start, run) then 1 else 0)
  }

  /** How often each client has been left. */
  ghost function Leaves(addresses: seq<string>, start: nat, run: seq<Env>): (leaves: seq<nat>)
    requires start < |addresses| && IsRun(addresses, run)
    ensures |leaves| == |addresses|
  {
    if run == [] then seq(|addresses|, _ => 0)
    else
      var before, i := Leaves(addresses, start, run[..|run| - 1]), After(addresses, start, run[..|run| - 1]).activeIdx;
      if LastFailsOver(addresses, start, run) then before[i := before[i] + 1] else before
  }

  function Sum(s: seq<nat>): nat {
    if s == [] then 0 else Sum(s[..|s| - 1]) + s[|s| - 1]
  }

  lemma {:induction false} SumOfUpdate(s: seq<nat>, i: nat, x: nat)
    requires i < |s|
    ensures Sum(s[i := x]) + s[i] == Sum(s) + x
  {
    var last := |s| - 1;
    if i == last {
      assert s[i := x][..last] == s[..last];
    } else {
      assert s[i := x][..last] == s[..last][i := x];
      SumOfUpdate(s[..last], i, x);
    }
  }

  lemma {:induction false} SumIsBounded(s: seq<nat>, bound: nat)
    requires forall i :: 0 <= i < |s| ==> s[i] <= bound
    ensures Sum(s) <= bound * |s|
  {
    if s != [] {
      SumIsBounded(s[..|s| - 1], bound);
      assert bound * |s| == bound * (|s| - 1) + bound;
    }
  }

  lemma {:induction false} SumOfZeros(n: nat)
    ensures Sum(seq(n, _ => 0)) == 0
  {
    if n > 0 {
      assert seq(n, _ => 0)[..n - 1] == seq(n - 1, _ => 0);
      SumOfZeros(n - 1);
    }
  }

  lemma {:induction false} FailoversAreLeaves(addresses: seq<string>, start: nat, run: seq<Env>)
    requires start < |addresses| && IsRun(addresses, run)
    ensures Failovers(addresses, start, run) == Sum(Leaves(addresses, start, run))
  {
    if run == [] {
      SumOfZeros(|addresses|);
    } else {
      var before := run[..|run| - 1];
      FailoversAreLeaves(addresses, start, before);
      var leaves, i := Leaves(addresses, start, before), After(addresses, start, before).activeIdx;
      SumOfUpdate(leaves, i, leaves[i] + 1);
    }
  }

  // -------------------------------------------------------------- the bound

  /** Client i has no earlier client with the same address. */
  predicate Unshadowed(addresses: seq<string>, i: nat)
    requires i < |addresses|
  {
    FirstWith(addresses, addresses[i]) == i
  }

  predicate Distinct(addresses: seq<string>) {
    forall i, j :: 0 <= i < j < |addresses| ==> addresses[i] != addresses[j]
  }

  /** An unshadowed client was left at most once per failure booked on it, and at
      most three times: its third failure makes it ineligible for good. */
  ghost predicate LeftAtMostThrice(addresses: seq<string>, m: Manager, leaves: seq<nat>, i: nat)
    requires i < |addresses| == |leaves| == |StatusOf(m, |addresses|)|
  {
    var s := StatusOf(m, |addresses|)[i];
    && (s.isHealthy <==> s.failCount < THRESHOLD)
    && leaves[i] <= s.failCount && leaves[i] <= THRESHOLD
    && (i == m.activeIdx ==> leaves[i] < THRESHOLD)
  }

  lemma {:induction false} EveryClientLeftAtMostThrice(addresses: seq<string>, start: nat, run: seq<Env>, i: nat)
    requires start < |addresses| && IsRun(addresses, run) && i < |addresses| && Unshadowed(addresses, i)
    ensures LeftAtMostThrice(addresses, After(addresses, start, run), Leaves(addresses, start, run), i)
  {
    if run != [] {
      EveryClientLeftAtMostThrice(addresses, start, run[..|run| - 1], i);
    }
  }

  /** Whatever the connectivity and the send outcomes, a run of SendAction calls over
      n clients with distinct addresses makes at most 3n - 1 failovers. */
  lemma FailoversAreBounded(addresses: seq<string>, start: nat, run: seq<Env>)
    requires start < |addresses| && IsRun(addresses, run) && Distinct(addresses)
    ensures Failovers(addresses, start, run) <= 3 * |addresses| - 1
  {
    var leaves, active := Leaves(addresses, start, run), After(addresses, start, run).activeIdx;
    forall i | 0 <= i < |addresses|
      ensures leaves[i] <= 3 && (i == active ==> leaves[i] <= 2)
    {
      EveryClientLeftAtMostThrice(addresses, start, run, i);
    }
    FailoversAreLeaves(addresses, start, run);
    SumOfUpdate(leaves, active, leaves[active] + 1);
    SumIsBounded(leaves[active := leaves[active] + 1], 3);
  }

  /** The statuses after q whole rounds of n clients failing in turn, and r more failures. */
  function InTurn(n: nat, q: nat, r: nat): (s: seq<ClientStatus>)
    ensures |s| == n
  {
    seq(n, i requires 0 <= i < n => var count := if i < r then q + 1 else q; ClientStatus(count < THRESHOLD, count))
  }

  lemma FailInTurn(addresses: seq<string>, m: Manager, q: nat, r: nat)
    requires Distinct(addresses) && r == m.activeIdx < |addresses| && |addresses| >= 2
    requires q < THRESHOLD && StatusOf(m, |addresses|) == InTurn(|addresses|, q, r)
    requires r == |addresses| - 1 ==> q + 1 < THRESHOLD
    ensures var (n, last) := (|addresses|, r == |addresses| - 1);
            var next := if last then 0 else r + 1;
            var (m', reply) := SendAction(addresses, m, OnlyUp(n, next));
            && reply == Retried(next, false) && m'.activeIdx == next
            && StatusOf(m', n) == InTurn(n, if last then q + 1 else q, next)
  {
    var n := |addresses|;
    var (q', next) := if r == n - 1 then (q + 1, 0) else (q, r + 1);
    assert FirstWith(addresses, addresses[r]) == r;
    var m1 := RecordFailure(addresses, m, r);
    assert m1.status.value == InTurn(n, q', next);
    assert Eligible(m1.status.value, OnlyUp(n, next).connected, r, next);
  }

  /** So many failovers into the turns, client r is active. */
  ghost predicate Turned(addresses: seq<string>, run: seq<Env>, q: nat, r: nat) {
    && q < THRESHOLD && r < |addresses| && IsRun(addresses, run)
    && After(addresses, 0, run).activeIdx == r
    && StatusOf(After(addresses, 0, run), |addresses|) == InTurn(|addresses|, q, r)
    && Failovers(addresses, 0, run) == q * |addresses| + r
  }

  lemma NextTurn(addresses: seq<string>, run: seq<Env>, q: nat, r: nat)
    requires Distinct(addresses) && |addresses| >= 2 && Turned(addresses, run, q, r)
    requires r == |addresses| - 1 ==> q + 1 < THRESHOLD
    ensures var (n, last) := (|addresses|, r == |addresses| - 1);
            var next := if last then 0 else r + 1;
            Turned(addresses, run + [OnlyUp(n, next)], if last then q + 1 else q, next)
  {
    var n := |addresses|;
    var longer := run + [OnlyUp(n, if r == n - 1 then 0 else r + 1)];
    assert longer[..|longer| - 1] == run;
    FailInTurn(addresses, After(addresses, 0, run), q, r);
    assert (q + 1) * n == q * n + n;
    hide InTurn, StatusOf, Distinct, SendAction;
  }

  lemma NothingTurned(addresses: seq<string>)
    requires |addresses| >= 2
    ensures Turned(addresses, [], 0, 0)
  {}

  /** The bound is reached, for any two or more clients: if they fail in turn, each is
      left three times, but for the last one, which there is then no client to leave for. */
  lemma BoundIsReached(addresses: seq<string>) returns (run: seq<Env>)
    requires Distinct(addresses) && |addresses| >= 2
    ensures IsRun(addresses, run) && Failovers(addresses, 0, run) == 3 * |addresses| - 1
  {
    var n := |addresses|;
    var q, r := 0, 0;
    run := [];
    NothingTurned(addresses);
    while !(q == 2 && r == n - 1)
      invariant q < THRESHOLD && r < n && Turned(addresses, run, q, r)
      decreases 2 - q, n - r
    {
      hide Turned, Distinct;
      NextTurn(addresses, run, q, r);
      run := run + [OnlyUp(n, if r == n - 1 then 0 else r + 1)];
      q, r := if r == n - 1 then q + 1 else q, if r == n - 1 then 0 else r + 1;
    }
  }

  /** Nothing in a run of sends makes a client healthy again or lowers its count. */
  lemma {:induction false} UnhealthyForGood(addresses: seq<string>, start: nat, run: seq<Env>, k: nat, i: nat)
    requires start < |addresses| && IsRun(addresses, run) && k <= |run| && i < |addresses|
    ensures var (was, is_) := (StatusOf(After(addresses, start, run[..k]), |addresses|)[i],
        StatusOf(After(addresses, start, run), |addresses|)[i]);
            (is_.isHealthy ==> was.isHealthy) && was.failCount <= is_.failCount
  {
    if k < |run| {
      assert run[..|run| - 1][..k] == run[..k];
      UnhealthyForGood(addresses, start, run[..|run| - 1], k, i);
    } else {
      assert run[..k] == run;
    }
  }

  // ------------------------------------------------------ shared addresses

  /** Two different clients each share an address with an earlier client. */
  ghost predicate TwoShadowed(addresses: seq<string>) {
    exists a, b :: 0 <= a < b < |addresses| && !Unshadowed(addresses, a) && !Unshadowed(addresses, b)
  }

  ghost predicate BoundedBy(addresses: seq<string>, bound: nat) {
    forall start: nat, run :: start < |addresses| && IsRun(addresses, run) ==> Failovers(addresses, start, run) <= bound
  }

  /** A client whose failures are booked elsewhere stays healthy for ever. */
  lemma {:induction false} ShadowedStaysHealthy(addresses: seq<string>, start: nat, run: seq<Env>, i: nat)
    requires start < |addresses| && IsRun(addresses, run) && i < |addresses| && !Unshadowed(addresses, i)
    ensures StatusOf(After(addresses, start, run), |addresses|)[i] == ClientStatus(true, 0)
  {
    if run != [] {
      ShadowedStaysHealthy(addresses, start, run[..|run| - 1], i);
      FirstIsUnshadowed(addresses, After(addresses, start, run[..|run| - 1]).activeIdx);
    }
  }

  lemma FirstIsUnshadowed(addresses: seq<string>, i: nat)
    requires i < |addresses|
    ensures Unshadowed(addresses, FirstWith(addresses, addresses[i]))
  {}

  /** Everything fails and only client i is connected. */
  function OnlyUp(n: nat, i: nat): Env {
    Env(false, seq(n, k => k == i), false)
  }

  lemma SwitchTo(addresses: seq<string>, m: Manager, next: nat)
    requires m.activeIdx < |addresses| == |StatusOf(m, |addresses|)| && next < |addresses| && next != m.activeIdx
    requires !Unshadowed(addresses, next) && StatusOf(m, |addresses|)[next].isHealthy
    ensures var r := SendAction(addresses, m, OnlyUp(|addresses|, next));
            r.1 == Retried(next, false) && r.0.activeIdx == next
  {
    FirstIsUnshadowed(addresses, m.activeIdx);
    var m1 := RecordFailure(addresses, m, m.activeIdx);
    assert Eligible(m1.status.value, OnlyUp(|addresses|, next).connected, m.activeIdx, next);
  }

  /** Two such clients can be made to fail over to each other any number of times. */
  lemma {:induction false} SwitchingForEver(addresses: seq<string>, a: nat, b: nat, k: nat) returns (run: seq<Env>)
    requires a < b < |addresses| && !Unshadowed(addresses, a) && !Unshadowed(addresses, b)
    ensures IsRun(addresses, run) && Failovers(addresses, 0, run) == k
    ensures k == 0 ==> run == []
    ensures k > 0 ==> After(addresses, 0, run).activeIdx == if k % 2 == 1 then a else b
  {
    if k == 0 {
      run := [];
    } else {
      var shorter := SwitchingForEver(addresses, a, b, k - 1);
      var next := if k % 2 == 1 then a else b;
      run := shorter + [OnlyUp(|addresses|, next)];
      assert run[..|shorter|] == shorter;
      ShadowedStaysHealthy(addresses, 0, shorter, next);
      assert Unshadowed(addresses, 0);
      SwitchTo(addresses, After(addresses, 0, shorter), next);
    }
  }

  lemma OnlyFailoversSwitch(addresses: seq<string>, m: Manager, e: Env)
    requires Fits(addresses, m, e)
    ensures SendAction(addresses, m, e).1.Retried? <==> SendAction(addresses, m, e).0.activeIdx != m.activeIdx
  {}

  /** With at most one shadowed client, that client is entered at most once more than
      the others are left. */
  lemma {:induction false} OneShadowedIsBounded(addresses: seq<string>, start: nat, run: seq<Env>, s: nat)
    requires start < |addresses| && IsRun(addresses, run) && s < |addresses|
    ensures var leaves, active := Leaves(addresses, start, run), After(addresses, start, run).activeIdx;
            2 * leaves[s] + (if active == s then 1 else 0) <= 1 + Sum(leaves)
  {
    hide SendAction;
    if run == [] {
      SumOfZeros(|addresses|);
    } else {
      var before := run[..|run| - 1];
      OneShadowedIsBounded(addresses, start, before, s);
      var leaves, m := Leaves(addresses, start, before), After(addresses, start, before);
      var i := m.activeIdx;
      SumOfUpdate(leaves, i, leaves[i] + 1);
      OnlyFailoversSwitch(addresses, m, run[|run| - 1]);
    }
  }

  lemma FewShadowedMeansBounded(addresses: seq<string>)
    requires !TwoShadowed(addresses)
    ensures BoundedBy(addresses, 6 * |addresses| + 1)
  {
    forall start: nat, run | start < |addresses| && IsRun(addresses, run)
      ensures Failovers(addresses, start, run) <= 6 * |addresses| + 1
    {
      var s := if exists i :: 0 <= i < |addresses| && !Unshadowed(addresses, i)
               then var i :| 0 <= i < |addresses| && !Unshadowed(addresses, i); i else start;
      forall i | 0 <= i < |addresses| && i != s ensures Unshadowed(addresses, i) {
      }
      OneShadowedIsBounded(addresses, start, run, s);
      var leaves := Leaves(addresses, start, run);
      forall i | 0 <= i < |addresses| && i != s ensures leaves[i] <= 3 {
        EveryClientLeftAtMostThrice(addresses, start, run, i);
      }
      FailoversAreLeaves(addresses, start, run);
      SumOfUpdate(leaves, s, 0);
      SumIsBounded(leaves[s := 0], 3);
    }
  }

  /** The failovers of all runs have a common bound exactly when no two clients each
      share an address with an earlier one. */
  lemma BoundedIff(addresses: seq<string>)
    ensures (exists bound: nat :: BoundedBy(addresses, bound)) <==> !TwoShadowed(addresses)
  {
    if TwoShadowed(addresses) {
      var a, b :| 0 <= a < b < |addresses| && !Unshadowed(addresses, a) && !Unshadowed(addresses, b);
      forall bound: nat ensures !BoundedBy(addresses, bound) {
        var run := SwitchingForEver(addresses, a, b, bound + 1);
        assert Failovers(addresses, 0, run) > bound;
      }
    } else {
      FewShadowedMeansBounded(addresses);
    }
  }

  // ------------------------------------------------------ replies and counts

  /** The other clients that are connected and still healthy. */
  function Trusted(s: seq<ClientStatus>, connected: seq<bool>, current: nat): (r: set<nat>)
    requires |s| == |connected|
  {
    set i: nat | i < |s| && Eligible(s, connected, current, i)
  }

  /** A call that its client sends changes nothing. One that fails is retried on the first
      other client that is connected and still trusted, which becomes the active one, and
      the caller gets the retry's outcome; without one it fails on the spot. */
  lemma ReplyIs(addresses: seq<string>, m: Manager, e: Env)
    requires Fits(addresses, m, e)
    ensures var ((m', reply), n) := (SendAction(addresses, m, e), |addresses|);
            var trusted := Trusted(StatusOf(m', n), e.connected, m.activeIdx);
            && (reply.Sent? <==> e.sends) && (reply.Sent? ==> m' == m)
            && (reply.Retried? ==>
                  && reply.sends == e.retrySends && reply.client in trusted && m'.activeIdx == reply.client
                  && forall i: nat :: i in trusted ==> reply.client <= i)
            && (reply.Failed? ==> trusted == {} && m'.activeIdx == m.activeIdx)
  {
    var next := FirstEligible(StatusOf(SendAction(addresses, m, e).0, |addresses|), e.connected, m.activeIdx, 0);
    assert !e.sends ==>
        SendAction(addresses, m, e).1 == if next.Some? then Retried(next.value, e.retrySends) else Failed;
  }

  /** The calls of a run that failed on an active client whose failures are booked on i. */
  ghost function Failures(addresses: seq<string>, start: nat, run: seq<Env>, i: nat): nat
    requires start < |addresses| && IsRun(addresses, run)
  {
    if run == [] then 0
    else
      var (before, last) := (run[..|run| - 1], run[|run| - 1]);
      var active := After(addresses, start, before).activeIdx;
      Failures(addresses, start, before, i)
      + if !last.sends && FirstWith(addresses, addresses[active]) == i then 1 else 0
  }

  /** A client is out of the running exactly when three failures were booked on it. */
  lemma {:induction false} UnhealthyIff(addresses: seq<string>, start: nat, run: seq<Env>, i: nat)
    requires start < |addresses| && IsRun(addresses, run) && i < |addresses|
    ensures var (s, failures) := (StatusOf(After(addresses, start, run), |addresses|)[i],
                                  Failures(addresses, start, run, i));
            s.failCount == failures && (!s.isHealthy <==> failures >= 3)
  {
    if run != [] {
      var before := run[..|run| - 1];
      UnhealthyIff(addresses, start, before, i);
      BookedOnce(addresses, After(addresses, start, before), run[|run| - 1], i);
    }
  }

  lemma BookedOnce(addresses: seq<string>, m: Manager, e: Env, i: nat)
    requires Fits(addresses, m, e) && i < |addresses|
    ensures var (was, is_) := (StatusOf(m, |addresses|)[i], StatusOf(SendAction(addresses, m, e).0, |addresses|)[i]);
            if !e.sends && FirstWith(addresses, addresses[m.activeIdx]) == i
            then is_.failCount == was.failCount + 1 && (is_.isHealthy <==> was.isHealthy && is_.failCount < 3)
            else is_ == was
  {}
}
