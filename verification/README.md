# The gateway's state machines, verified

The gateway is a WebRTC/SIP high-availability proxy. Under its I/O lie a handful of
state machines, a sharded store and two text codecs. This project models them in Dafny
4.11 and proves what they keep over whole runs, under interleaving where the code runs
concurrently. Where a plausible claim about the code is false, a lemma gives the input
that refutes it and, where there is one, another gives the exact condition under which
the claim holds. `dafny verify dfyconfig.toml` checks everything.

Time is one integer clock in nanoseconds that callers pass in. Sockets, peers, engines and
backends are oracles: a parameter says what each one answers. Files that update state step
by step in the source appear twice: as functions on values, about which the theorems are
proved, and as classes whose methods update fields, arrays and maps in place and are proved
to compute exactly those functions.

## What is modelled

**Leader election** (`Coordination.dfy`, `CoordinationProgress.dfy`, `CoordinationSteps.dfy`,
`CoordinationSequential.dfy`, `Coordinator.dfy`). N instances compete for one key with a
time-to-live, using only Get, Set and Delete. With heartbeats that do not overlap, two instances
can lead together for less than one second after a takeover, because the stored expiry is cut to
whole seconds and the local lease is not; the bound is reached to the nanosecond. With storage
calls interleaved, both of two instances can lead for a whole lease; as long as calls do not
overlap, the bound stands. From any split brain one round of ticks heals the system. And a
leader that ticks often enough for its key stays leader, whatever the others do.

**Circuit breaker** (`CircuitBreaker.dfy`, `BreakerSteps.dfy`, `RtpEngine.dfy`). As atomic
methods the breaker is a fold over its event log. As loads, compare-and-swaps and adds in any
interleaving, half-open grants stay within one budget more than the half-open episodes; two
threads can use that extra budget up under every configuration, one thread never does. An
RTPEngine whose probe commands cannot be encoded records no outcome and is then shut out.

**Memory store** (`ShardHash.dfy`, `MemoryModel.dfy`, `MemoryLaws.dfy`, `Persistence.dfy`,
`MemoryStorage.dfy`, `Ttl.dfy`). In every run a Get returns what was last set, as long as that
lives. The sharded map refines one flat map with expiry; the counters are accounted for over
every run; which replies a Cleanup changes is said exactly; save and load round-trip. The shard
index of every key is in range exactly for the shard counts that divide 2^63.

**Failover managers** (`Addresses.dfy`, `AmiFailover.dfy`, `AmiReplay.dfy`, `AmiManager.dfy`,
`RtpFailover.dfy`, `RtpManager.dfy`, `HealthMonitor.dfy`). How often the AMI manager can fail
over and replay; which engine an offer, answer or delete goes to; which backend is active and
what the failover history says.

**AMI text** (`GoStrings.dfy`, `AmiFraming.dfy`, `AmiProxy.dfy`). Printing a message in any
order of its entries and parsing it, with either of the two parsers; the proxy's login gate.

**Domain rewriting** (`SipExtraction.dfy`, `DomainRewrite.dfy`, `MappedRequests.dfy`). Which
domain is found in a message, and four replace-all passes over it: when they leave no source
domain behind, and when a second run changes nothing; and what becomes of every request from a
mapped domain.

**WebSocket connections** (`WsConnections.dfy`, `WsServer.dfy`). Check-then-insert admission and
the closing of a client socket, interleaved.

## What turned out not to hold

- One leader at a time: two interleaved heartbeats both win (`SplitBrain`), and without interleaving a lease that is not whole seconds suffices (`SingleLeaderIff`).
- `TotalItems` as the number of items: an overwriting Set adds to it, a Get that drops an expired key does not subtract (`TotalItemsOvercounts`, `Conservation`).
- A shard index in range for every shard count (`AllKeysInRangeIff`).
- Cleanup changing nothing but a later expiry error: it also turns the Delete of an expired key from a success into ErrNotFound (`CleanupTurnsDeleteIntoNotFound`, `CleanupIsTransparent`, `OnlyExpiryErrorsIff`).
- A half-open episode granting at most its limit under interleaving (`EpisodesKeepLimitIff`), or without a bound on the number of calls (`LimitHoldsIff`).
- Finitely many AMI failovers whatever the addresses: failures are booked on the first client with the address, so the number is bounded exactly when at most one client repeats an earlier address (`BoundedIff`).
- A failed offer being retried on the engine `tryFailover` chose: it never is (`RetryGoesBackIff`).
- `failoverAnswer` and `failoverDelete` skipping the engine that failed, as their comments say: they skip the active one, and can send the request to the failed one again (`FailedEngineRetriedIff`, `FailedEngineTakesOver`).
- The health monitor's failure threshold delaying failover, as its field comment suggests: it only affects the status shown (`FailoverIgnoresThreshold`).
- Domain rewriting being complete and idempotent whenever neither domain is a prefix of the other: it also fails when the target ends in "s", "si" or "sip" (`CompleteIff`, `IdempotentIff`).
- Every client having its own domain mappings: with a port in a domain it may share another's (`KeysCollideIff`); the server's own two domains never do.

## Model

| member | source | states |
|---|---|---|
| Coordination.OverlapIsBounded | gateway/pkg/coordinator/coordination.go:300-425 | In every run of non-overlapping heartbeats of at most d each, two instances lead together only in the second (plus d) after the latest takeover |
| Coordination.OverlapIsReached | gateway/pkg/coordinator/coordination.go:327-360 | That bound is tight for every lease of at least a second less a nanosecond: a run with two leaders at the last nanosecond before it |
| Coordination.SingleLeaderIff | gateway/pkg/coordinator/coordination.go:327-360 | No run of instantaneous heartbeats on whole seconds ever has two leaders exactly when the lease is a whole number of seconds |
| Coordination.SingleLeaderOnWholeSeconds | gateway/pkg/coordinator/coordination.go:327-360 | The positive half, for every run and every two instances |
| Coordination.FractionalLeaseOverlaps | gateway/pkg/coordinator/coordination.go:327-360 | For every other lease, a two-heartbeat run that ends with two leaders |
| Coordination.ComponentOverlapIsBounded | gateway/pkg/coordinator/coordination.go:154-192 | Component leadership has the same bound |
| Coordination.StepKeepsInvariant | gateway/pkg/coordinator/coordination.go:300-459 | Every heartbeat, stop, release and clock step keeps the lease invariant |
| Coordination.OneRoundHeals | gateway/pkg/coordinator/coordination.go:103-115 | From any state, one tick of every instance in any order, within the lease less a second, leaves at most one leader and restores the invariant |
| Coordination.SafeAgainAfterRound | gateway/pkg/coordinator/coordination.go:103-115 | After such a round the overlap bound holds again for every later run |
| CoordinationProgress.RenewalExtendsLease | gateway/pkg/coordinator/coordination.go:376-425 | A leader that still finds its own key leads after its tick at exactly the times before the new lease ends, and Get returns its key for exactly one lease, with its first acquisition time |
| CoordinationProgress.LostKeyEndsLeadership | gateway/pkg/coordinator/coordination.go:376-400 | A leader that finds no key, or another's, leads at no time after its tick |
| CoordinationProgress.TakeoverIff | gateway/pkg/coordinator/coordination.go:300-373 | An instance that does not lead takes the key exactly when Get returns nothing or a record whose whole-second expiry has been reached, and then leads for exactly one lease |
| CoordinationProgress.LeaderStaysLeader | gateway/pkg/coordinator/coordination.go:103-115 | A leader that ticks before its key runs out leads at every point of the run, and nobody takes the key over, whatever and how many the others are |
| CoordinationProgress.RegularLeaderStays | gateway/pkg/coordinator/coordination.go:103-115 | So an instance that took the key over and ticks regularly leads from then on, if the lease exceeds the period, the longest heartbeat and a second together |
| CoordinationProgress.StopFreesTheKey | gateway/pkg/coordinator/coordination.go:428-459 | After the stop of a leader that holds its key nobody leads through it, and Get finds no key |
| CoordinationProgress.ComponentLeadsIff | gateway/pkg/coordinator/coordination.go:462-501 | A component leads exactly if its instance led at the latest check and still does; a newly registered one does not |
| CoordinationSteps.UninterruptedCallIsAtomic | gateway/pkg/coordinator/coordination.go:300-459 | The steps of one call, run without interruption, are the atomic heartbeat |
| CoordinationSteps.SplitBrain | gateway/pkg/coordinator/coordination.go:304-355 | A reachable interleaving in which two instances both lead for a whole lease |
| CoordinationSequential.SequentialRefines | gateway/pkg/coordinator/coordination.go:300-459 | A run of single storage calls in which no two calls overlap is a run of heartbeats, with the same fields at every point and the same key between calls |
| CoordinationSequential.SequentialOverlapIsBounded | gateway/pkg/coordinator/coordination.go:300-459 | So in such runs the overlap bound holds too, in the middle of a call as between calls |
| CoordinationSteps.InterleavedSystemHeals | gateway/pkg/coordinator/coordination.go:103-115 | Whatever interleaving led to a state between calls, one round heals it |
| CoordinatorObjects.Coordinator.IsLeader | gateway/pkg/coordinator/coordination.go:154-175 | Global leadership is the flag and an unexpired lease; a component also needs its own flag |
| CoordinatorObjects.Coordinator.IsComponentLeader | gateway/pkg/coordinator/coordination.go:186-192 | Agrees with IsLeader for that component, though it reads the two levels in the other order |
| CoordinatorObjects.Coordinator.TryAcquireLeadership | gateway/pkg/coordinator/coordination.go:300-373 | Leaves the instance and the shared key as TryAcquire says |
| CoordinatorObjects.Coordinator.RenewLeadership | gateway/pkg/coordinator/coordination.go:376-425 | Leaves the instance and the shared key as Renew says, in particular when the lease was lost |
| CoordinatorObjects.Coordinator.OnTick | gateway/pkg/coordinator/coordination.go:103-115 | One tick is the Heartbeat the theorems are about |
| CoordinatorObjects.Coordinator.ReleaseLeadership | gateway/pkg/coordinator/coordination.go:428-459 | Deletes the key and steps down only if the key is this instance's own |
| CoordinatorObjects.Coordinator.MonitorComponentLeadership | gateway/pkg/coordinator/coordination.go:462-501 | Every registered component's flag becomes the instance's global leadership |
| CircuitBreaker.NewConfig | gateway/pkg/common/circuit_breaker.go:51-82 | Whatever is configured, the thresholds in use are positive 32-bit numbers |
| CircuitBreaker.ConsecutiveFailuresIsTheRun | gateway/pkg/common/circuit_breaker.go:137-204 | The counter is the length of the failure run since the last success or Reset |
| CircuitBreaker.ClosedIsBelowThreshold | gateway/pkg/common/circuit_breaker.go:156-182 | A closed breaker is below its threshold, after any log |
| CircuitBreaker.OpensCountsEntries | gateway/pkg/common/circuit_breaker.go:156-182 | `opens` is the number of times the log took the breaker into open |
| CircuitBreaker.HalfOpenGrantsAreBounded | gateway/pkg/common/circuit_breaker.go:90-134 | Each half-open episode, and so the whole log, stays within its grants |
| CircuitBreaker.LimitHoldsIff | gateway/pkg/common/circuit_breaker.go:90-134 | The episode that n requests in a row start on an open breaker past its timeout stays within the limit exactly for n < 2^31 |
| CircuitBreaker.CounterWrapGrantsAgain | gateway/pkg/common/circuit_breaker.go:90-134 | After the denials that use the 32-bit counter up, grants resume |
| CircuitBreaker.OpenDeniesUntilTimeout | gateway/pkg/common/circuit_breaker.go:90-134 | Open denies every request until the timeout has passed, whatever else is logged but Reset |
| CircuitBreaker.OpenGrantsIff | gateway/pkg/common/circuit_breaker.go:90-134 | After the breaker has opened, the first request let through is exactly the first that comes later than the timeout, as the first probe of an episode |
| CircuitBreaker.OpenWasOpenedByAFailure | gateway/pkg/common/circuit_breaker.go:156-182 | An open breaker remembers the time of the failure that opened it and has been open since |
| CircuitBreaker.GrantedIff | gateway/pkg/common/circuit_breaker.go:90-134 | After any log, a request is let through exactly when the breaker is closed, or open and past its timeout, or half-open with budget left in the episode |
| CircuitBreaker.StatusChanges | gateway/pkg/common/circuit_breaker.go:137-204 | Which event changes the status to what: a failure opens a closed breaker exactly at the threshold of the failure run; every change is dated by its event |
| CircuitBreaker.TotalsCountEvents | gateway/pkg/common/circuit_breaker.go:90-204 | The totals are the numbers of requests, successes and failures logged, and the last failure is dated by its event |
| BreakerSteps.GrantsAreBounded | gateway/pkg/common/circuit_breaker.go:90-204 | Under every interleaving, half-open grants are at most the limit times one more than the half-open episodes |
| BreakerSteps.OpensAreExact | gateway/pkg/common/circuit_breaker.go:156-182 | Under every interleaving, once all calls have returned `opens` is the number of entries into open |
| BreakerSteps.TransitionsAreLegal | gateway/pkg/common/circuit_breaker.go:90-204 | In every reachable state the next step changes status legally, or is a Reset's store |
| BreakerSteps.EpisodesKeepLimitIff | gateway/pkg/common/circuit_breaker.go:90-134 | From the initial state, every run keeps its half-open grants to the limit times the episodes exactly when there is at most one thread |
| BreakerSteps.GrantsBoundIsReached | gateway/pkg/common/circuit_breaker.go:90-134 | For every configuration and any two threads, a run from the initial state in which one episode grants twice its limit, so the bound above is tight |
| BreakerSteps.LoneGrants | gateway/pkg/common/circuit_breaker.go:90-134 | A single thread keeps every episode to its limit |
| BreakerSteps.UninterruptedCallIsAtomic | gateway/pkg/common/circuit_breaker.go:90-204 | The steps of one call, run without interruption, are the atomic method |
| RtpEngine.NeverRestsHalfOpen | gateway/pkg/rtpengine/rtpengine.go:110-205 | A sequential run whose commands all encode never rests half-open |
| RtpEngine.FailuresAreCounted | gateway/pkg/rtpengine/rtpengine.go:110-205 | Over every run of calls the failure count is the number of granted calls since the last answer that ended in anything but an answer or a command that does not encode |
| RtpEngine.ThresholdOpens | gateway/pkg/rtpengine/rtpengine.go:110-205 | As many failing calls as the threshold leave a closed breaker open, from the last of them on; the next call is let through exactly if it comes later than the timeout |
| RtpEngine.FewFailuresKeepClosed | gateway/pkg/rtpengine/rtpengine.go:110-205 | Fewer failing calls than the threshold leave it closed, each of them counted |
| RtpEngine.ProbeDecides | gateway/pkg/rtpengine/rtpengine.go:110-205 | An answered probe closes the breaker, a failed one opens it again, and one that does not encode leaves it half-open |
| RtpEngine.ShutOut | gateway/pkg/rtpengine/rtpengine.go:110-205 | Once the probes are used up without an outcome every later request is denied, however late |
| RtpEngine.EncodeFailuresShutOut | gateway/pkg/rtpengine/rtpengine.go:110-205 | That state is reached from any open breaker by commands that do not encode |
| RtpEngine.BreakerObject.AllowRequest | gateway/pkg/common/circuit_breaker.go:90-134 | The retry loop ends and leaves the fields as Allow says |
| RtpEngine.BreakerObject.RecordFailure | gateway/pkg/common/circuit_breaker.go:156-182 | Leaves the fields as Fail says |
| RtpEngine.Engine.EnsureConnection | gateway/pkg/rtpengine/rtpengine.go:77-94 | Always dials once, after closing a connection left over from before |
| RtpEngine.Engine.Request | gateway/pkg/rtpengine/rtpengine.go:110-205 | On every return path the breaker is left as RequestOutcome says, and every connection made is closed again |
| ShardHash.InRangeIff | gateway/pkg/storage/memory.go:121-131 | A key's shard index is in range exactly when its hash is not the minimum 64-bit integer or the count divides 2^63 |
| ShardHash.AllKeysInRangeIff | gateway/pkg/storage/memory.go:121-131 | Every key is in range exactly for the shard counts that divide 2^63; a key of fourteen letters fails for all others |
| ShardHash.PowerOfTwoShardsAreSafe | gateway/pkg/storage/memory.go:78-86 | So the default of 32 and every other power of two up to 2^63 is safe |
| ShardHash.GetShardIndex | gateway/pkg/storage/memory.go:121-131 | The hashing loop with 64-bit wrap-around computes that index |
| MemoryModel.Conservation | gateway/pkg/storage/memory.go:134-829 | Over every run each typed counter is its map's size, and TotalItems is the keys present plus overwriting Sets plus keys dropped by an expired Get |
| MemoryModel.TotalItemsOvercounts | gateway/pkg/storage/memory.go:160-187 | TotalItems counts two after the same key is set twice |
| MemoryLaws.GetReturnsLastSet | gateway/pkg/storage/memory.go:134-187 | In every run, Get returns the value of the last Set of its key exactly while that lives, then "expired" to the first that looks and "not found" to all others, as after a Cleanup |
| MemoryLaws.GetFindsNothing | gateway/pkg/storage/memory.go:134-157 | A key never set, or not again since it was deleted, is not found, by Get or by Delete |
| MemoryLaws.DeleteRemovesLastSet | gateway/pkg/storage/memory.go:191-209 | Delete of the last Set succeeds, lapsed or not, unless somebody has found it lapsed before |
| MemoryLaws.RefusedCalls | gateway/pkg/storage/memory.go:134-209 | Empty keys and nil values are refused whatever the store holds; every other Set succeeds |
| MemoryLaws.FetchReturnsLastSave | gateway/pkg/storage/memory.go:212-829 | The same of each typed store, with the lifetime each kind gives a record that comes without an expiry |
| MemoryLaws.ListHoldsLastSave | gateway/pkg/storage/memory.go:724-829 | A List holds the last record saved under a key exactly as long |
| MemoryLaws.FetchFindsNothing | gateway/pkg/storage/memory.go:212-829 | A record never saved, or not again since it was deleted, is found and listed by nobody |
| MemoryLaws.DropRemovesLastSave | gateway/pkg/storage/memory.go:273-290 | A typed Delete succeeds exactly unless the last record saved has been found expired |
| MemoryLaws.ExpiredAreCounted | gateway/pkg/storage/memory.go:858-898 | Over every run TotalItems, the items counted as expired and the successful Deletes add up to the successful Sets |
| MemoryLaws.ExpiredRecordsAreCounted | gateway/pkg/storage/memory.go:212-829 | In each typed store what was newly saved is still counted, was deleted, or is counted as expired |
| MemoryModel.CleanupIsTransparent | gateway/pkg/storage/memory.go:858-898 | A Cleanup anywhere in a run changes a later reply exactly when that is the first Get or Delete of an entry expired by then, untouched since; a Get then reports ErrNotFound for ErrKeyExpired, a Delete ErrNotFound for success |
| MemoryModel.OnlyExpiryErrorsIff | gateway/pkg/storage/memory.go:858-898 | It only turns ErrKeyExpired into ErrNotFound exactly when the later operations delete no such entry |
| MemoryModel.ReplyDiffersIff | gateway/pkg/storage/memory.go:134-829 | For one operation on a store and the same store without some expired entries: the replies differ exactly for a Get or Delete of a key in the one and not in the other |
| MemoryModel.CleanupTurnsDeleteIntoNotFound | gateway/pkg/storage/memory.go:191-209 | A key set to live one nanosecond and deleted at 5, with and without a Cleanup |
| MemoryModel.CleanupIsThorough | gateway/pkg/storage/memory.go:858-898 | After it nothing expired is left in the shards, dialogs, RTP sessions, client sessions or registrations |
| Persistence.SaveLoadRoundTrip | gateway/pkg/storage/memory.go:938-1133 | What any run stored, saved and loaded later into an empty store, comes back exactly as far as it is still live, with counters to match |
| Persistence.LoadingAListing | gateway/pkg/storage/memory.go:1022-1133 | Loading a section in any order gives the live part of the map it lists |
| MemoryStorage.ShardedMap.Get | gateway/pkg/storage/memory.go:134-157 | On the flat map the shards stand for, Get is KvGet, including the lazy drop |
| MemoryStorage.ShardedMap.Set | gateway/pkg/storage/memory.go:160-187 | On the flat map, Set is KvSet; only the key's own shard changes |
| MemoryStorage.ShardedMap.Delete | gateway/pkg/storage/memory.go:191-209 | On the flat map, Delete is KvDelete |
| MemoryStorage.ShardedMap.Cleanup | gateway/pkg/storage/memory.go:858-885 | Sweeping shard by shard, key by key in any order, is KvCleanup of the flat map |
| MemoryStorage.TypedStore.Get | gateway/pkg/storage/memory.go:212-238 | The typed Get, with its lazy expiry and counters |
| MemoryStorage.TypedStore.Store | gateway/pkg/storage/memory.go:240-270 | Stamps a missing expiry, and counts only a new key |
| MemoryStorage.TypedStore.List | gateway/pkg/storage/memory.go:616-641 | Returns each live record once and drops the stale ones, whatever the order of the map |
| MemoryStorage.MemoryStorage.PersistToFile | gateway/pkg/storage/memory.go:938-1020 | The file is a snapshot of the store: every section lists its map; the four listed stores are left without their stale records and the others as they were |
| MemoryStorage.MemoryStorage.LoadFromFile | gateway/pkg/storage/memory.go:1022-1133 | All sections are decoded before any store changes, so a file that does not decode changes nothing; otherwise the store is as Load says |
| AmiFailover.EveryClientLeftAtMostThrice | gateway/pkg/ami/manager.go:599-711 | In every run of sends, a client whose address is not used by an earlier one is left at most three times |
| AmiFailover.FailoversAreBounded | gateway/pkg/ami/manager.go:599-711 | With n distinct addresses at most 3n - 1 failovers happen, whatever the clients do |
| AmiFailover.BoundIsReached | gateway/pkg/ami/manager.go:599-711 | For any two or more clients with distinct addresses a run makes exactly 3n - 1 failovers |
| AmiFailover.UnhealthyForGood | gateway/pkg/ami/manager.go:636-667 | No run of sends makes a client healthy again or lowers its failure count |
| AmiFailover.UnhealthyIff | gateway/pkg/ami/manager.go:636-667 | After every run a client is out of the running exactly when three failures were booked on it |
| AmiFailover.ReplyIs | gateway/pkg/ami/manager.go:599-633 | When the call is sent, fails, or is retried: on the first other connected and trusted client, which becomes active, with the retry's outcome as reply |
| AmiFailover.SwitchingForEver | gateway/pkg/ami/manager.go:636-667 | Two clients that each repeat an earlier address can be switched between any number of times |
| AmiFailover.BoundedIff | gateway/pkg/ami/manager.go:636-711 | Failovers are bounded over all runs exactly when no two clients repeat earlier addresses |
| AmiReplay.RoundProgresses | gateway/pkg/ami/manager.go:437-528 | One replay sends an action at most once and then removes it or raises its retry count |
| AmiReplay.ReplayIsBounded | gateway/pkg/ami/manager.go:437-528 | Over any replays and outcomes an action stored with r retries is sent at most max(0, 4 - r) times |
| AmiReplay.FiveReplaysEmptyTheStore | gateway/pkg/ami/manager.go:437-528 | After five replays without new stores none of the original actions remains |
| AmiReplay.RoundDecides | gateway/pkg/ami/manager.go:466-528 | A live action with at most three retries is sent in the round and is gone after it exactly when the client reported success, else there with one retry more; any other is removed unsent |
| AmiReplay.SentExactly | gateway/pkg/ami/manager.go:437-528 | An action that does not expire and fails every time is sent exactly max(0, 4 - r) times |
| AmiManager.Manager.TryFailover | gateway/pkg/ami/manager.go:671-711 | The loop makes the first healthy connected other client active, or changes nothing |
| AmiManager.Manager.RecordClientFailure | gateway/pkg/ami/manager.go:636-667 | Books the failure on the first client with the address; the third one makes it unhealthy |
| AmiManager.Manager.SendAction | gateway/pkg/ami/manager.go:599-633 | Leaves the manager, and replies, as the function the bounds are proved about |
| AmiManager.Manager.ReplayPendingActions | gateway/pkg/ami/manager.go:437-528 | One call is one round of the replay theorems |
| AmiManager.Manager.ReplayAction | gateway/pkg/ami/manager.go:466-528 | One action's replay, in the stored record |
| RtpFailover.RetryGoesBackIff | gateway/pkg/rtpengine/manager.go:203-210 | A failed offer is never retried on the engine tryFailover chose; exactly when it goes back to the failed one, and when it finds none |
| RtpFailover.TwoEnginesNeverFailOver | gateway/pkg/rtpengine/manager.go:415-450 | With two engines the other one is never offered the call |
| RtpFailover.UnhealthyForGood | gateway/pkg/rtpengine/manager.go:226-253 | No run of offers, answers, deletes and lookups makes an engine healthy again or lowers its failure count |
| RtpFailover.UnhealthyIff | gateway/pkg/rtpengine/manager.go:226-253 | After every run from the start, an engine is unhealthy exactly when the failed offers booked on it are as many as the threshold, which is three by default |
| RtpFailover.OfferReplyIs | gateway/pkg/rtpengine/manager.go:163-223 | What an offer is answered with, from the outcomes of its engine and of the retry |
| RtpFailover.ActiveAfterOffer | gateway/pkg/rtpengine/manager.go:257-300 | Which engine is active after an offer: the retried one; without one, a healthy engine left by an unhealthy one, or the same as before |
| RtpFailover.EngineIs | gateway/pkg/rtpengine/manager.go:146-160 | A call goes to the engine of its live session, and to the active one without such a session |
| RtpFailover.AnswerKeepsEngine | gateway/pkg/rtpengine/manager.go:328-378 | An answered answer leaves the call on its engine; the session gets the new tag and keeps the rest |
| RtpFailover.AnswerReplyIs | gateway/pkg/rtpengine/manager.go:328-378 | What an answer is answered with |
| RtpFailover.DeleteEndsSession | gateway/pkg/rtpengine/manager.go:381-412 | A delete succeeds exactly when its engine or another than the active takes it, and then the session is gone; else nothing but an expired session is |
| RtpFailover.TryOrderIsCyclic | gateway/pkg/rtpengine/manager.go:476-481 | The loop indices visit every engine but the active one exactly once |
| RtpFailover.WinnerIsFirst | gateway/pkg/rtpengine/manager.go:498-506 | Attempts stop at the first success and everything tried before it failed |
| RtpFailover.WinnerExistsIff | gateway/pkg/rtpengine/manager.go:471-583 | An engine is found exactly when one other than the active would take the request |
| RtpFailover.FailedEngineRetriedIff | gateway/pkg/rtpengine/manager.go:474-499 | The engine that failed is sent the request again exactly when it was not the active one and every engine before it in the order fails; it then takes the call over exactly when it succeeds |
| RtpFailover.FailedEngineTakesOver | gateway/pkg/rtpengine/manager.go:474-510 | A call pinned to an engine other than the active one: that engine fails, is tried again, answers, and becomes the active engine |
| RtpFailover.FailoverPins | gateway/pkg/rtpengine/manager.go:471-536 | An answer that fails over changes no more than an expired session if no engine takes it; otherwise the winner is active, the session has the answer's tags, and GetEngine keeps returning it through any later run for a day, until failover or deletion of the call |
| RtpFailover.PinHolds | gateway/pkg/rtpengine/manager.go:146-160 | GetEngine keeps returning a call's engine through any run until failover, deletion or expiry of that call |
| RtpManagerObjects.Manager.ProcessOffer | gateway/pkg/rtpengine/manager.go:163-223 | In every case it returns, the mutex is never taken while held and is free at the end, there is one status per engine, the active index is in range, and state and reply are those of Offer |
| RtpManagerObjects.Manager.TryFailover | gateway/pkg/rtpengine/manager.go:257-300 | Returns exactly when the status is not nil; then it moves to the first healthy other engine, giving the mutex up around the switch |
| RtpManagerObjects.Manager.RecordEngineFailure | gateway/pkg/rtpengine/manager.go:226-253 | Returns exactly when the status is not nil; then the failure is booked on the first engine with the address |
| RtpManagerObjects.Manager.FailoverOffer | gateway/pkg/rtpengine/manager.go:415-468 | Returns exactly when the status is not nil or there is one engine; leaves out the present active engine and switches to the first healthy other one |
| RtpManagerObjects.Manager.InitEngineStatus | gateway/pkg/rtpengine/manager.go:638-652 | Returns exactly when its caller does not hold the mutex; then every engine has a fresh healthy status and the threshold is positive |
| RtpManagerObjects.Manager.TryOthers | gateway/pkg/rtpengine/manager.go:471-583 | The cyclic loop finds the first engine that takes the request and sends it to none after that |
| RtpManagerObjects.Manager.FailoverAnswer | gateway/pkg/rtpengine/manager.go:471-536 | The engines tried, the new active engine and the stored session are those of the cyclic search |
| RtpManagerObjects.Manager.ProcessAnswer | gateway/pkg/rtpengine/manager.go:328-378 | Manager, sessions and reply as ProcessAnswer says, on every path |
| RtpManagerObjects.Manager.FailoverDelete | gateway/pkg/rtpengine/manager.go:539-583 | The same search for a delete, which ends with the session removed |
| RtpManagerObjects.Manager.DeleteSession | gateway/pkg/rtpengine/manager.go:381-412 | Manager, sessions and result as DeleteSession says |
| HealthMonitor.OneActiveBackend | gateway/pkg/health/health.go:325-473 | In every run exactly one backend is active, the failover events are a chain from the first backend to it, and the counter is their number |
| HealthMonitor.ActiveAnswered | gateway/pkg/health/health.go:418-458 | With failover on, the active backend answered the last round if any did; with it off the first one stays active |
| HealthMonitor.BackendStatusIff | gateway/pkg/health/health.go:371-386 | The failure count is the run of unanswered rounds; healthy exactly when ever answered and the run is below the threshold |
| HealthMonitor.OverallIs | gateway/pkg/health/health.go:460-473 | The overall status is that of the last round alone: healthy if all answered, unhealthy if none did, degraded otherwise |
| HealthMonitor.FailoverIgnoresThreshold | gateway/pkg/health/health.go:418-458 | Exactly when a round fails over, where to, and the count in its reason: one more than the silent rounds just before |
| HealthMonitor.CountsAreExact | gateway/pkg/health/health.go:409-415 | Checks, successes and failures count the rounds |
| HealthMonitor.Checker.CheckOpenSIPSBackends | gateway/pkg/health/health.go:325-473 | One round, with the probes finishing in any order, is Round |
| AmiFraming.RoundTripIff | gateway/pkg/ami/proxy.go:272-306 | Print in any order and parse, with any text behind, gives the message back and stops at its end, exactly for the well-formed messages; for both parsers |
| AmiFraming.MessageIsWellFormed | gateway/pkg/ami/ami.go:943-986 | Whatever the input, a parsed message is well formed |
| AmiFraming.LastLineWins | gateway/pkg/ami/proxy.go:272-306 | The lines up to the first empty one are a message: those without a colon are passed over, and of those with the same key the last one counts; for either parser |
| AmiFraming.StreamRoundTrip | gateway/pkg/ami/ami.go:749-754 | A stream of printed messages parses back to the same messages |
| AmiFraming.ForwardingIsLossless | gateway/pkg/ami/proxy.go:358-381 | Parsing any input and printing it on, from either parser to either parser, loses nothing |
| AmiFraming.ParsersDifferIff | gateway/pkg/ami/ami.go:966-986 | The two parsers read a line alike unless it is blank but not empty, which ends the message for one and is skipped by the other |
| AmiProxy.ReadMessage | gateway/pkg/ami/proxy.go:272-306 | The reading loop is Parse, and leaves the rest of the input unread |
| AmiProxy.Format | gateway/pkg/ami/proxy.go:369-375 | Ranging over the map in any order prints a text that both parsers read back |
| AmiProxy.AuthenticatedIff | gateway/pkg/ami/proxy.go:309-347 | In every run a client is authenticated exactly when the backend confirmed a login with credentials on its present connection |
| AmiProxy.ForwardedIff | gateway/pkg/ami/proxy.go:234-270 | An action reaches the backend as it is exactly when it is no login and follows such a login; a login only as its three rebuilt fields, with the client's own name and secret |
| AmiProxy.ResponseIs | gateway/pkg/ami/proxy.go:234-270 | In every run, what the client is told: which error text in which case, and otherwise the backend's own reply |
| AmiProxy.IsLoginIff | gateway/pkg/ami/proxy.go:244-248 | An action is a login exactly when its name is, in any mixture of letter cases |
| AmiProxy.NameIsLastLogin | gateway/pkg/ami/proxy.go:334-340 | The name kept for a client is that of the last confirmed login on its present connection |
| AmiProxy.Server.HandleAction | gateway/pkg/ami/proxy.go:234-270 | One round of the client loop: the client table, what goes to the backend and what is written back |
| AmiProxy.Server.HandleLoginAction | gateway/pkg/ami/proxy.go:309-347 | The login path, with its three responses |
| AmiProxy.Server.SendResponse | gateway/pkg/ami/proxy.go:358-381 | Appends the printed response to a connected client's output and nothing to any other |
| AmiProxy.Server.ForwardEvent | gateway/pkg/ami/proxy.go:210-232 | Only an authenticated client is sent backend events |
| DomainRewrite.CompleteIff | gateway/pkg/websocket/domainproxy.go:172-175 | No message from a source domain keeps a marked one exactly when neither domain begins with the other and the target does not end in s, si or sip, or no message can be from that source |
| DomainRewrite.BackendSeesNoneIff | gateway/pkg/websocket/domainproxy.go:51-119 | The same of what a mapped client's messages become on their way to the backend, the extraction of the source included |
| SipExtraction.IsSipMessageIff | gateway/pkg/websocket/domainproxy.go:129-137 | A message is taken for SIP exactly when it starts with one of the six methods and a space |
| SipExtraction.FromHeaderExtracts | gateway/pkg/websocket/domainproxy.go:139-143 | From a message with a From header, after any other text, the domain of the last address on its line is extracted, for every user part |
| SipExtraction.RequestLineExtracts | gateway/pkg/websocket/domainproxy.go:145-148 | Where the From pattern finds nothing, the domain of the request line is, for every method and user part |
| MappedRequests.MappedRequestIsRewritten | gateway/pkg/websocket/domainproxy.go:51-119 | Every request, with any of the six methods, any user part or none, that names a mapped domain in its request line and From header goes to the backend with the target in both places, by the literal passes |
| MappedRequests.OthersGoUnchanged | gateway/pkg/websocket/domainproxy.go:58-91 | What starts with no such method, or comes from a domain without a mapping, goes there as it is |
| DomainRewrite.ServerMappingsAreSeparate | gateway/pkg/websocket/server.go:698-711 | The domains and targets that the server maps meet the condition, or are the same |
| DomainRewrite.IdempotentIff | gateway/pkg/websocket/domainproxy.go:172-175 | A second run changes no message from the source exactly when the domains are equal or the rewriting is complete, or no message can be from it |
| DomainRewrite.AnglePassIsIdle | gateway/pkg/websocket/domainproxy.go:174 | The "<sip:" pass never changes anything, even where the "sip:" pass is not complete |
| DomainRewrite.RewriteLeaves | gateway/pkg/websocket/domainproxy.go:172-175 | For every pair of domains outside the condition, a message that the code finds to be from the source and on which the rewriting fails |
| DomainRewrite.KeysAreSeparate | gateway/pkg/websocket/domainproxy.go:37-42 | Domains without a colon give different clients different mapping keys |
| DomainRewrite.KeysCollideIff | gateway/pkg/websocket/domainproxy.go:37-42 | Two domains share a key for some clients exactly when one of them ends in a colon and the other |
| DomainRewrite.ServerKeysAreSeparate | gateway/pkg/websocket/server.go:709-710 | The mappings that the server itself sets never collide, whatever the client IDs |
| DomainRewrite.PortIsNotMapped | gateway/pkg/websocket/domainproxy.go:84-91 | With them, a message from which a domain with a port is extracted finds no mapping and goes to the backend unchanged |
| DomainRewrite.DomainRewriteProxy.SetDomainMapping | gateway/pkg/websocket/domainproxy.go:37-48 | Changes only what this client's messages from this domain become |
| DomainRewrite.DomainRewriteProxy.RewriteClientToBackend | gateway/pkg/websocket/domainproxy.go:51-119 | Which messages are rewritten, from which extracted domain and with which target; the literal passes in order |
| WsConnections.TableIsBounded | gateway/pkg/websocket/server.go:525-536 | Under every interleaving with at most k handshakes between check and insert, the table holds at most MaxConnections + k - 1 |
| WsConnections.BoundIsReached | gateway/pkg/websocket/server.go:619-621 | For every limit and every k that number is reached |
| WsConnections.InTableIff | gateway/pkg/websocket/server.go:525-621 | Under every interleaving a connection is in the table exactly when an admitted handshake stored it and nobody has removed it since, and a handshake is admitted exactly when it found room |
| WsConnections.ClosingIsFinal | gateway/pkg/websocket/server.go:1416-1457 | Once closed is set no write starts and nobody closes again; the teardown runs at most once, by the thread that set it |
| WsConnections.WritesDoNotOverlap | gateway/pkg/websocket/server.go:1091-1097 | The start of a message write is followed by its own end before anything else happens to the socket |
| WsConnections.TornDownInTheEnd | gateway/pkg/websocket/server.go:1416-1457 | When all threads are done and one was a closer, the teardown has run |
| WsConnections.NoDeadlock | gateway/pkg/websocket/server.go:742-755 | While a thread is unfinished some thread can move |
| WsConnections.UninterruptedClose | gateway/pkg/websocket/server.go:1416-1457 | A closer left alone closes and tears down once, or does nothing to a closed socket |
| WsConnections.UninterruptedWrite | gateway/pkg/websocket/server.go:1256-1264 | A writer left alone writes its message whole, or nothing to a closed socket |
| WsConnections.FinishedWritersWrote | gateway/pkg/websocket/server.go:1256-1264 | Under every interleaving a writer that has finished has written its message, or the socket is closed |
| WsServer.Server.HandleWebSocket | gateway/pkg/websocket/server.go:525-621 | One handshake at a time never exceeds the limit, and a refused one changes nothing |
| WsServer.Server.Write | gateway/pkg/websocket/server.go:1256-1264 | A message goes to an open socket and never to a closed one, even one found in the table just before |
| WsServer.Server.CloseConnection | gateway/pkg/websocket/server.go:1416-1457 | The first close tears down and removes the entry, a later one does nothing |
| WsServer.Server.CloseAllConnections | gateway/pkg/websocket/server.go:1460-1475 | Every connection is torn down once and the table is empty |
| WsServer.Server.CleanConnections | gateway/pkg/websocket/server.go:1478-1500 | Exactly the connections idle for over half an hour are torn down; the others are untouched |

## Left out

- Dialling, TLS, UDP, HTTP and WebSocket frames, timeouts of single calls, logging and metrics: replaced by oracles that succeed or fail.
- The JSON and bencode byte formats: a persisted file is a sequence of typed sections, each of which decodes or does not; encode and decode failures of the leader key are not modelled.
- Storage calls that fail for any reason but a missing or expired key, and managers configured without storage.
- The event records that the managers write to storage (failover and migration events), Watch channels and other notifications.
- One clock reading serves one storage operation; the code reads the clock again in places within it.
- Aliasing of stored records: the typed stores keep pointers, so a caller that changes a record it stored or fetched changes the store; here records are values.
- Concurrent access to the memory store: its operations are modelled one at a time. `ExpiredItems` is kept per store here and summed in the source.
- The 64-bit statistics counters are unbounded here; the 32-bit counters of the breaker and the 64-bit hash wrap as in the source.
- The internals of AMIClient, and the background paths that also write the AMI manager's active index (connection monitoring, retry of all connections, Reconnect): the failover bounds are about runs of SendAction.
- The asterisk, RTPEngine and WebSocket-backend branches of the health monitor: they copy one flag each. Triggering a failover there has no effect on the modelled state.
- Text is a sequence of Unicode characters; invalid UTF-8 and the size limits of the readers are not modelled.
- The regular-expression passes of the domain rewriting (request line, header-specific, host parameter and delimiter passes). The header-specific ones also match the source in other letter cases.
- DomainRewrite.CompleteIff: for domains without the characters @ : ; = and < only, which covers every domain name but not a host with a port; the server maps no such source (`PortIsNotMapped`).
- DomainRewrite.DomainRewriteProxy.RewriteClientToBackend: leaves out the regular-expression passes, as said above.
- MappedRequests.MappedRequestIsRewritten: the same; where the target begins with the source, those passes would rewrite the new domain once more.
- CoordinationSequential.SequentialRefines: calls that overlap in time are not heartbeats; what can happen then is shown by one run, `SplitBrain`.
- WsConnections.WritesDoNotOverlap: speaks of message writes; the close frame is a control write that the library allows beside them, and comes after the last of them.
- AmiProxy.AuthenticatedIff: a connection number is never reused while it is open, as for Go's connection pointers.
- gateway/pkg/sip, the goroutine registry, context helpers, the status endpoint and message builders: only easy members.
