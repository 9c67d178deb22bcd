/** Replaying the stored AMI actions after a failover. */
module AmiReplay {
  import opened Ttl
  import opened ShardHash
  import opened MemoryModel
  import opened Persistence

  datatype Action = Action(command: string, params: map<string, string>, retries: int)

  type Pending = Typed<Action>

  /** The clock readings of one step of the loop, and whether the client answered "Success". */
  datatype Visit = Visit(getAt: int, checkAt: int, storeAt: int, succeeds: bool)

  /** One stored action: dropped if it is expired or has been tried more than three
      times, otherwise counted, stored again and sent, and deleted if that worked. */
  function Replay(s: Pending, id: Key, v: Visit): (Pending, bool) {
    var (s1, found) := Get(AmiActions, s, id, v.getAt);
    if found.Err? then (s1, false)
    else
      var a := found.value;
      if Stale(AmiActions, a, v.checkAt) || a.body.retries > 3 then (Delete(s1, id).0, false)
      else
        var s2 := Put(AmiActions, s1, a.id, a.(body := a.body.(retries := a.body.retries + 1)), v.storeAt).0;
        (if v.succeeds then Delete(s2, id).0 else s2, true)
  }

  /** The loop over the listed actions; `sent` says which of them went out. */
  function ReplayAll(s: Pending, ids: seq<Key>, visits: seq<Visit>): (r: (Pending, seq<bool>))
    requires |ids| == |visits|
    ensures |r.1| == |ids|
  {
    if ids == [] then (s, [])
    else
      var last := |ids| - 1;
      var (s1, sent) := ReplayAll(s, ids[..last], visits[..last]);
      var (s2, out) := Replay(s1, ids[last], visits[last]);
      (s2, sent + [out])
  }

  datatype Round = Round(listAt: int, ids: seq<Key>, visits: seq<Visit>)

  /** The round visits exactly the actions the listing found, each once. */
  ghost predicate IsRound(s: Pending, r: Round) {
    && |r.ids| == |r.visits|
    && (forall i, j :: 0 <= i < j < |r.ids| ==> r.ids[i] != r.ids[j])
    && (forall k :: k in r.ids <==> k in List(AmiActions, s, r.listAt).items)
  }

  function PlayRound(s: Pending, r: Round): (Pending, seq<bool>)
    requires |r.ids| == |r.visits|
  {
    ReplayAll(List(AmiActions, s, r.listAt), r.ids, r.visits)
  }

  /** What StoreAMIAction guarantees of its store. */
  ghost predicate Sound(s: Pending) {
    WellKeyed(s) && forall k :: k in s.items ==> k.bytes != []
  }

  /** How one action fares: it stays away once gone, and while it stays it has just
      been sent and counted. */
  ghost predicate Progress(before: Pending, after: Pending, id: Key, sent: bool) {
    if id !in before.items then id !in after.items && !sent
    else
      && (sent ==> before.items[id].body.retries <= 3)
      && (id in after.items ==> sent && after.items[id].body.retries == before.items[id].body.retries + 1)
  }

  lemma ReplayProgresses(s: Pending, id: Key, v: Visit)
    requires Sound(s)
    ensures Sound(Replay(s, id, v).0) && Progress(s, Replay(s, id, v).0, id, Replay(s, id, v).1)
    ensures forall k :: k != id ==> (k in Replay(s, id, v).0.items <==> k in s.items)
    ensures forall k :: k != id && k in s.items ==> Replay(s, id, v).0.items[k] == s.items[k]
  {}

  lemma {:induction false} OthersUntouched(s: Pending, ids: seq<Key>, visits: seq<Visit>, id: Key)
    requires Sound(s) && |ids| == |visits| && id !in ids
    ensures Sound(ReplayAll(s, ids, visits).0)
    ensures id in ReplayAll(s, ids, visits).0.items <==> id in s.items
    ensures id in s.items ==> ReplayAll(s, ids, visits).0.items[id] == s.items[id]
  {
    if ids != [] {
      var last := |ids| - 1;
      OthersUntouched(s, ids[..last], visits[..last], id);
      ReplayProgresses(ReplayAll(s, ids[..last], visits[..last]).0, ids[last], visits[last]);
    }
  }

  lemma {:induction false} StaysSound(s: Pending, ids: seq<Key>, visits: seq<Visit>)
    requires Sound(s) && |ids| == |visits|
    ensures Sound(ReplayAll(s, ids, visits).0)
  {
    if ids != [] {
      var last := |ids| - 1;
      StaysSound(s, ids[..last], visits[..last]);
      ReplayProgresses(ReplayAll(s, ids[..last], visits[..last]).0, ids[last], visits[last]);
    }
  }

  lemma {:induction false} VisitedOnce(s: Pending, ids: seq<Key>, visits: seq<Visit>, p: nat)
    requires Sound(s) && |ids| == |visits| && p < |ids|
    requires forall i, j :: 0 <= i < j < |ids| ==> ids[i] != ids[j]
    ensures Progress(s, ReplayAll(s, ids, visits).0, ids[p], ReplayAll(s, ids, visits).1[p])
  {
    var last := |ids| - 1;
    var s1 := ReplayAll(s, ids[..last], visits[..last]).0;
    StaysSound(s, ids[..last], visits[..last]);
    ReplayProgresses(s1, ids[last], visits[last]);
    if p == last {
      OthersUntouched(s, ids[..last], visits[..last], ids[last]);
    } else {
      VisitedOnce(s, ids[..last], visits[..last], p);
      assert ids[p] != ids[last];
    }
  }

  /** The positions at which one action is sent. */
  function SendsAt(ids: seq<Key>, sent: seq<bool>, id: Key): set<nat>
    requires |ids| == |sent|
  {
    set p: nat | p < |ids| && ids[p] == id && sent[p]
  }

  /** How often one action is sent in a round. */
  function SendsIn(s: Pending, r: Round, id: Key): nat
    requires |r.ids| == |r.visits|
  {
    |SendsAt(r.ids, PlayRound(s, r).1, id)|
  }

  lemma SentOnlyWhenVisited(ids: seq<Key>, sent: seq<bool>, id: Key)
    requires |ids| == |sent| && id !in ids
    ensures |SendsAt(ids, sent, id)| == 0
  {
    assert SendsAt(ids, sent, id) == {};
  }

  lemma SentAtMostOnce(ids: seq<Key>, sent: seq<bool>, p: nat)
    requires |ids| == |sent| && p < |ids|
    requires forall i, j :: 0 <= i < j < |ids| ==> ids[i] != ids[j]
    ensures |SendsAt(ids, sent, ids[p])| == if sent[p] then 1 else 0
  {
    assert SendsAt(ids, sent, ids[p]) == if sent[p] then {p} else {};
  }

  lemma ListKeepsSound(s: Pending, now: int)
    requires Sound(s)
    ensures Sound(List(AmiActions, s, now))
    ensures forall k :: k in List(AmiActions, s, now).items ==>
        k in s.items && List(AmiActions, s, now).items[k] == s.items[k]
  {}

  /** In one round an action is sent at most once, and only with a retry to spare;
      if it is still there afterwards, it was sent and its count went up. */
  lemma RoundProgresses(s: Pending, r: Round, id: Key)
    requires Sound(s) && IsRound(s, r)
    ensures Sound(PlayRound(s, r).0)
    ensures SendsIn(s, r, id) <= 1 && Progress(s, PlayRound(s, r).0, id, SendsIn(s, r, id) == 1)
  {
    var listed := List(AmiActions, s, r.listAt);
    ListKeepsSound(s, r.listAt);
    StaysSound(listed, r.ids, r.visits);
    if id in r.ids {
      var p :| 0 <= p < |r.ids| && r.ids[p] == id;
      VisitedOnce(listed, r.ids, r.visits, p);
      SentAtMostOnce(r.ids, PlayRound(s, r).1, p);
    } else {
      OthersUntouched(listed, r.ids, r.visits, id);
      SentOnlyWhenVisited(r.ids, PlayRound(s, r).1, id);
    }
  }

  /** The order of a listing names every listed key once. */
  lemma {:induction false} ListsEachOnce(order: seq<Key>, section: Section<Action>, m: map<Key, Record<Action>>)
    requires Lists(order, section, m)
    ensures forall i, j :: 0 <= i < j < |order| ==> order[i] != order[j]
    ensures forall k :: k in order <==> k in m
    decreases |order|
  {
    if order != [] {
      var last := |order| - 1;
      ListsEachOnce(order[..last], section[..last], m - {order[last]});
      assert order == order[..last] + [order[last]];
    }
  }

  // ------------------------------------------------------------ many rounds

  /** Rounds one after the other with no new actions stored in between. */
  ghost predicate AreRounds(s: Pending, rounds: seq<Round>)
    decreases |rounds|
  {
    rounds == [] || (IsRound(s, rounds[0]) && AreRounds(PlayRound(s, rounds[0]).0, rounds[1..]))
  }

  ghost function AfterRounds(s: Pending, rounds: seq<Round>): Pending
    requires AreRounds(s, rounds)
    decreases |rounds|
  {
    if rounds == [] then s else AfterRounds(PlayRound(s, rounds[0]).0, rounds[1..])
  }

  ghost function TotalSends(s: Pending, rounds: seq<Round>, id: Key): nat
    requires AreRounds(s, rounds)
    decreases |rounds|
  {
    if rounds == [] then 0 else SendsIn(s, rounds[0], id) + TotalSends(PlayRound(s, rounds[0]).0, rounds[1..], id)
  }

  /** The number of sends an action has left. */
  function Left(s: Pending, id: Key): nat {
    if id in s.items && s.items[id].body.retries <= 3 then 4 - s.items[id].body.retries else 0
  }

  /** Across any number of replays and outcomes an action stored with r retries is
      sent at most max(0, 4 - r) times, and one more replay than that removes it. */
  lemma {:induction false} ReplayIsBounded(s: Pending, rounds: seq<Round>, id: Key)
    requires Sound(s) && AreRounds(s, rounds)
    ensures TotalSends(s, rounds, id) <= Left(s, id)
    ensures |rounds| > Left(s, id) ==> id !in AfterRounds(s, rounds).items
    ensures id !in s.items ==> id !in AfterRounds(s, rounds).items
    decreases |rounds|
  {
    if rounds != [] {
      RoundProgresses(s, rounds[0], id);
      ReplayIsBounded(PlayRound(s, rounds[0]).0, rounds[1..], id);
    }
  }

  /** Five replays with no new stores leave none of the original actions behind. */
  lemma FiveReplaysEmptyTheStore(s: Pending, rounds: seq<Round>)
    requires Sound(s) && AreRounds(s, rounds) && |rounds| >= 5
    requires forall k :: k in s.items ==> s.items[k].body.retries >= 0
    ensures AfterRounds(s, rounds).items == map[]
  {
    forall k ensures k !in AfterRounds(s, rounds).items {
      ReplayIsBounded(s, rounds, k);
    }
  }

  // ------------------------------------------------------ exactly what is sent

  /** The record may still be sent at this visit: not expired, and tried at most three times. */
  predicate Sendable(r: Record<Action>, v: Visit) {
    r.expireTime.Some? && v.getAt <= r.expireTime.value && v.checkAt <= r.expireTime.value && r.body.retries <= 3
  }

  /** What one visit makes of a record: it goes exactly if it was not sendable or the
      client reported success; else it has one retry more, and is otherwise the same. */
  predicate Decided(before: Record<Action>, after: Pending, id: Key, v: Visit, sent: bool) {
    && (sent <==> Sendable(before, v))
    && (id in after.items <==> sent && !v.succeeds)
    && (id in after.items ==>
          after.items[id] == before.(body := before.body.(retries := before.body.retries + 1)))
  }

  lemma ReplayDecides(s: Pending, id: Key, v: Visit)
    requires Sound(s) && id in s.items
    ensures Decided(s.items[id], Replay(s, id, v).0, id, v, Replay(s, id, v).1)
  {}

  lemma {:induction false} VisitDecides(s: Pending, ids: seq<Key>, visits: seq<Visit>, p: nat)
    requires Sound(s) && |ids| == |visits| && p < |ids| && ids[p] in s.items
    requires forall i, j :: 0 <= i < j < |ids| ==> ids[i] != ids[j]
    ensures var (after, sent) := ReplayAll(s, ids, visits); Decided(s.items[ids[p]], after, ids[p], visits[p], sent[p])
  {
    hide Replay, Decided;
    var last := |ids| - 1;
    var s1 := ReplayAll(s, ids[..last], visits[..last]).0;
    StaysSound(s, ids[..last], visits[..last]);
    if p == last {
      OthersUntouched(s, ids[..last], visits[..last], ids[last]);
      ReplayDecides(s1, ids[last], visits[last]);
    } else {
      VisitDecides(s, ids[..last], visits[..last], p);
      assert ids[p] != ids[last];
      ReplayProgresses(s1, ids[last], visits[last]);
      DecidedStays(s.items[ids[p]], s1, Replay(s1, ids[last], visits[last]).0, ids[p], visits[p],
                   ReplayAll(s, ids, visits).1[p]);
    }
  }

  lemma DecidedStays(r: Record<Action>, s: Pending, s': Pending, id: Key, v: Visit, sent: bool)
    requires Decided(r, s, id, v, sent)
    requires (id in s'.items <==> id in s.items) && (id in s.items ==> s'.items[id] == s.items[id])
    ensures Decided(r, s', id, v, sent)
  {}

  /** In a round, a stored action that is not expired and has been tried at most three
      times is sent, once. Afterwards it is gone exactly when the client reported success;
      otherwise it is there as before, with one retry more. One that is expired, or has
      been tried more often, is not sent and is gone. */
  lemma RoundDecides(s: Pending, r: Round, p: nat)
    requires Sound(s) && IsRound(s, r) && p < |r.ids|
    ensures var (id, v) := (r.ids[p], r.visits[p]);
            && id in s.items && SendsIn(s, r, id) == (if Sendable(s.items[id], v) then 1 else 0)
            && (id in PlayRound(s, r).0.items <==> Sendable(s.items[id], v) && !v.succeeds)
            && (id in PlayRound(s, r).0.items ==>
                  var was := s.items[id];
                  PlayRound(s, r).0.items[id] == was.(body := was.body.(retries := was.body.retries + 1)))
  {
    hide ReplayAll, List, Sendable;
    var listed := List(AmiActions, s, r.listAt);
    ListKeepsSound(s, r.listAt);
    assert r.ids[p] in listed.items;
    VisitDecides(listed, r.ids, r.visits, p);
    SentAtMostOnce(r.ids, PlayRound(s, r).1, p);
  }

  /** The round comes in time for the action, and the client fails it. */
  predicate FailsInTime(r: Round, id: Key, expiry: int)
    requires |r.ids| == |r.visits|
  {
    && r.listAt <= expiry
    && forall p :: 0 <= p < |r.ids| && r.ids[p] == id ==>
         r.visits[p].getAt <= expiry && r.visits[p].checkAt <= expiry && !r.visits[p].succeeds
  }

  lemma IsVisited(s: Pending, r: Round, id: Key) returns (p: nat)
    requires IsRound(s, r) && id in s.items && s.items[id].expireTime.Some? && r.listAt <= s.items[id].expireTime.value
    ensures p < |r.ids| && r.ids[p] == id
  {
    assert id in List(AmiActions, s, r.listAt).items;
    p :| 0 <= p < |r.ids| && r.ids[p] == id;
  }

  lemma {:induction false} GoneIsNotSent(s: Pending, rounds: seq<Round>, id: Key)
    requires Sound(s) && AreRounds(s, rounds) && id !in s.items
    ensures TotalSends(s, rounds, id) == 0
  {
    ReplayIsBounded(s, rounds, id);
  }

  /** An action that does not expire and that the client fails every time is sent in each
      round until it has been sent exactly max(0, 4 - r) times. */
  lemma {:induction false} SentExactly(s: Pending, rounds: seq<Round>, id: Key, expiry: int)
    requires Sound(s) && AreRounds(s, rounds)
    requires id in s.items && s.items[id].expireTime == Some(expiry)
    requires forall k :: 0 <= k < |rounds| ==>
               |rounds[k].ids| == |rounds[k].visits| && FailsInTime(rounds[k], id, expiry)
    ensures TotalSends(s, rounds, id) == if |rounds| <= Left(s, id) then |rounds| else Left(s, id)
    decreases |rounds|
  {
    hide PlayRound, IsRound, SendsIn;
    if rounds != [] {
      assert FailsInTime(rounds[0], id, expiry);
      var p := IsVisited(s, rounds[0], id);
      RoundDecides(s, rounds[0], p);
      RoundProgresses(s, rounds[0], id);
      var s1 := PlayRound(s, rounds[0]).0;
      if id in s1.items {
        SentExactly(s1, rounds[1..], id, expiry);
      } else {
        GoneIsNotSent(s1, rounds[1..], id);
      }
    }
  }
}
