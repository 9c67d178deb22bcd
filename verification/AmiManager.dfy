/** The AMI manager as an object: SendAction with its immediate failover, and the
    replay of stored actions. */
module AmiManager {
  import opened Addresses
  import opened Ttl
  import opened ShardHash
  import opened MemoryModel
  import opened Persistence
  import opened MemoryStorage
  import opened AmiFailover
  import opened AmiReplay

  class Manager {
    const addresses: seq<string>
    const storage: TypedStore<Action>
    var activeIdx: nat
    var clientStatus: array?<ClientStatus>

    ghost predicate Valid()
      reads this
    {
      activeIdx < |addresses| && (clientStatus != null ==> clientStatus.Length == |addresses|)
    }

    function State(): AmiFailover.Manager
      reads this, clientStatus
    {
      AmiFailover.Manager(activeIdx, if clientStatus == null then None else Some(clientStatus[..]))
    }

    constructor (clients: seq<string>, store: TypedStore<Action>)
      requires clients != []
      ensures Valid() && addresses == clients && storage == store && State() == AmiFailover.Manager(0, None)
    {
      addresses := clients;
      storage := store;
      activeIdx := 0;
      clientStatus := null;
    }

    method InitStatus()
      requires Valid()
      modifies this`clientStatus
      ensures Valid() && clientStatus != null && (old(clientStatus) == null ==> fresh(clientStatus))
      ensures old(clientStatus) != null ==> clientStatus == old(clientStatus)
      ensures clientStatus[..] == old(StatusOf(State(), |addresses|))
    {
      if clientStatus == null {
        clientStatus := new ClientStatus[|addresses|](_ => ClientStatus(true, 0));
        assert clientStatus[..] == AmiFailover.Fresh(|addresses|);
      }
    }

    method RecordClientFailure(failed: nat)
      requires Valid() && failed < |addresses|
      modifies this`clientStatus, clientStatus
      ensures Valid() && clientStatus != null && (clientStatus == old(clientStatus) || fresh(clientStatus))
      ensures State() == RecordFailure(addresses, old(State()), failed)
    {
      InitStatus();
      ghost var before := clientStatus[..];
      var clientAddr := addresses[failed];
      for i := 0 to |addresses|
        invariant clientStatus[..] == before
        invariant i <= FirstWith(addresses, clientAddr)
      {
        if addresses[i] == clientAddr {
          var count := clientStatus[i].failCount + 1;
          clientStatus[i] := ClientStatus(if count >= THRESHOLD then false else clientStatus[i].isHealthy, count);
          return;
        }
      }
    }

    method TryFailover(connected: seq<bool>) returns (next: Option<nat>)
      requires Valid() && |connected| == |addresses|
      modifies this
      ensures Valid() && clientStatus != null && (clientStatus == old(clientStatus) || fresh(clientStatus))
      ensures (State(), next) == AmiFailover.TryFailover(old(State()), |addresses|, connected)
    {
      InitStatus();
      ghost var s := clientStatus[..];
      for i := 0 to |addresses|
        invariant activeIdx == old(activeIdx) && clientStatus[..] == s
        invariant FirstEligible(s, connected, activeIdx, 0) == FirstEligible(s, connected, activeIdx, i)
      {
        if i != activeIdx && connected[i] && clientStatus[i].isHealthy {
          activeIdx := i;
          return Some(i);
        }
      }
      return None;
    }

    method SendAction(e: Env) returns (reply: AmiFailover.Reply)
      requires Valid() && |e.connected| == |addresses|
      modifies this, clientStatus
      ensures Valid() && (clientStatus == old(clientStatus) || fresh(clientStatus))
      ensures (State(), reply) == AmiFailover.SendAction(addresses, old(State()), e)
    {
      var client := activeIdx;
      if e.sends {
        return Sent;
      }
      RecordClientFailure(client);
      var next := TryFailover(e.connected);
      if next.Some? {
        return Retried(next.value, e.retrySends);
      }
      return Failed;
    }

    /** The IDs of the stored actions that are not expired, each once. */
    method ListActionIDs(listAt: int) returns (ids: seq<Key>)
      requires storage.kind == AmiActions
      modifies storage
      ensures storage.State() == List(AmiActions, old(storage.State()), listAt)
      ensures forall i, j :: 0 <= i < j < |ids| ==> ids[i] != ids[j]
      ensures forall k :: k in ids <==> k in storage.items
    {
      hide List, LiveOf;
      ghost var start := storage.State();
      var records;
      records, ids := storage.List(listAt);
      SweepEnd(AmiActions, start, listAt);
      ListsEachOnce(ids, records, LiveOf(AmiActions, start.items, listAt));
    }

    function VisitsOf(ids: seq<Key>, oracle: Key -> Visit): (visits: seq<Visit>)
      ensures |visits| == |ids| && forall i :: 0 <= i < |ids| ==> visits[i] == oracle(ids[i])
    {
      seq(|ids|, i requires 0 <= i < |ids| => oracle(ids[i]))
    }

    /** Lists the stored actions and replays them one by one to the active client;
        the oracle gives the clock and the client's answer for each of them. */
    method ReplayPendingActions(listAt: int, oracle: Key -> Visit) returns (ghost r: Round)
      requires storage.kind == AmiActions
      modifies storage
      ensures r == Round(listAt, r.ids, VisitsOf(r.ids, oracle))
      ensures IsRound(old(storage.State()), r)
      ensures storage.State() == PlayRound(old(storage.State()), r).0
    {
      hide List, Replay;
      var actionIDs := ListActionIDs(listAt);
      ghost var listed, visits := storage.State(), VisitsOf(actionIDs, oracle);
      for i := 0 to |actionIDs|
        invariant storage.State() == ReplayAll(listed, actionIDs[..i], visits[..i]).0
      {
        assert actionIDs[..i + 1][..i] == actionIDs[..i] && visits[..i + 1][..i] == visits[..i];
        ReplayAction(actionIDs[i], oracle(actionIDs[i]));
      }
      assert actionIDs[..|actionIDs|] == actionIDs && visits[..|actionIDs|] == visits;
      r := Round(listAt, actionIDs, visits);
    }

    /** The body of the replay loop. */
    method ReplayAction(actionID: Key, v: Visit)
      requires storage.kind == AmiActions
      modifies storage
      ensures storage.State() == Replay(old(storage.State()), actionID, v).0
    {
      var found := storage.Get(actionID, v.getAt);
      if found.Err? {
        return;
      }
      var action := found.value;
      if action.expireTime.Some? && action.expireTime.value < v.checkAt {
        var _ := storage.Delete(actionID);
        return;
      }
      if action.body.retries > 3 {
        var _ := storage.Delete(actionID);
        return;
      }
      action := action.(body := action.body.(retries := action.body.retries + 1));
      var _ := storage.Store(action.id, action, v.storeAt);
      if v.succeeds {
        var _ := storage.Delete(actionID);
      }
    }
  }
}
