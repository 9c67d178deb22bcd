/** Saving the typed stores to a file on shutdown and loading them on start. The
    file is a header and one section per saved store; a section that cannot be
    decoded is absent. */
module Persistence {
  import opened Ttl
  import opened ShardHash
  import opened MemoryModel

  type Section<T> = seq<Record<T>>

  datatype File<T> = File(header: bool, sections: map<Kind, Option<Section<T>>>)

  /** WebSocket connections and the key-value store are not saved. */
  const SAVED: set<Kind> := {Dialogs, RtpSessions, ClientSessions, Registrations, AmiActions}

  predicate Decodes<T>(file: File<T>) {
    file.header && forall kind :: kind in SAVED ==> kind in file.sections && file.sections[kind].Some?
  }

  /** What is written: the live records; of the AMI actions only those that carry an expiry. */
  predicate Kept<T>(kind: Kind, r: Record<T>, now: int) {
    !Stale(kind, r, now) && (kind.AmiActions? ==> r.expireTime.Some?)
  }

  /** The section holds the record of every key of the map, the keys in this order. */
  ghost predicate Lists<T>(order: seq<Key>, section: Section<T>, m: map<Key, Record<T>>)
    decreases |order|
  {
    var last := |order| - 1;
    if order == [] then section == [] && m == map[]
    else
      && |section| == |order| && order[last] in m && section[last] == m[order[last]]
      && Lists(order[..last], section[..last], m - {order[last]})
  }

  lemma ListsExtended<T>(order: seq<Key>, section: Section<T>, m: map<Key, Record<T>>, key: Key, r: Record<T>)
    requires Lists(order, section, m) && |order| == |section| && key !in m
    ensures Lists(order + [key], section + [r], m[key := r])
  {
    assert (order + [key])[..|order|] == order && (section + [r])[..|section|] == section;
    assert m[key := r] - {key} == m;
  }

  /** The section holds the records of the map, each once, in some order. */
  ghost predicate IsListing<T(!new)>(section: Section<T>, m: map<Key, Record<T>>) {
    exists order :: Lists(order, section, m)
  }

  function KeptOf<T>(kind: Kind, s: Typed<T>, now: int): map<Key, Record<T>> {
    map k | k in s.items && Kept(kind, s.items[k], now) :: s.items[k]
  }

  ghost predicate IsSnapshot<T(!new)>(file: File<T>, d: Db<T>, now: int)
    requires d.Complete()
  {
    Decodes(file) && forall kind :: kind in SAVED ==>
      IsListing(file.sections[kind].value, KeptOf(kind, d.typed[kind], now))
  }

  /** What saving leaves in the store: listing has dropped the stale records of four
      typed stores, as a cleanup would, and nothing else has changed. */
  function Persisted<T>(d: Db<T>, now: int): (d': Db<T>)
    requires d.Complete()
    ensures d'.Complete()
  {
    Cleanup(d, now).(kv := d.kv)
  }

  /** Every record that is not stale by now is stored under its own ID and counted. */
  function LoadSection<T>(kind: Kind, s: Typed<T>, section: Section<T>, now: int): Typed<T> {
    if section == [] then s
    else
      var r := section[|section| - 1];
      var s1 := LoadSection(kind, s, section[..|section| - 1], now);
      if Stale(kind, r, now) then s1 else s1.(items := s1.items[r.id := r], count := s1.count + 1)
  }

  function Load<T>(d: Db<T>, file: File<T>, now: int): Db<T>
    requires d.Complete()
  {
    if !Decodes(file) then d
    else
      d.(typed := map kind | kind in d.typed ::
        if kind in SAVED then LoadSection(kind, d.typed[kind], file.sections[kind].value, now) else d.typed[kind])
  }

  // ------------------------------------------------------------- round trip

  /** Every record is stored under its own ID and carries an expiry. */
  ghost predicate WellKeyed<T>(s: Typed<T>) {
    forall k :: k in s.items ==> s.items[k].id == k && s.items[k].expireTime.Some?
  }

  /** The saved stores are only ever filled under the record's own ID, as every
      Store call but StoreWSConnection does. */
  ghost predicate KeyedById<T>(op: Op<T>) {
    op.OnTyped? && op.kind in SAVED && op.typedOp.Save? ==> op.typedOp.key == op.typedOp.record.id
  }

  lemma {:induction false} RunKeepsWellKeyed<T>(d: Db<T>, run: seq<Op<T>>)
    requires d.Complete() && forall kind :: kind in SAVED ==> WellKeyed(d.typed[kind])
    requires forall i :: 0 <= i < |run| ==> KeyedById(run[i])
    ensures forall kind :: kind in SAVED ==> WellKeyed(After(d, run).typed[kind])
    decreases |run|
  {
    if run != [] {
      assert KeyedById(run[0]);
      RunKeepsWellKeyed(Apply(d, run[0]).0, run[1..]);
    }
  }

  /** The records that are still live at `now`. */
  function LiveOf<T>(kind: Kind, m: map<Key, Record<T>>, now: int): map<Key, Record<T>> {
    map k | k in m && !Stale(kind, m[k], now) :: m[k]
  }

  lemma LiveOfRest<T>(kind: Kind, m: map<Key, Record<T>>, key: Key, now: int)
    requires key in m
    ensures LiveOf(kind, m, now) ==
            if Stale(kind, m[key], now) then LiveOf(kind, m - {key}, now)
            else LiveOf(kind, m - {key}, now)[key := m[key]]
    ensures |LiveOf(kind, m, now)| == |LiveOf(kind, m - {key}, now)| + (if Stale(kind, m[key], now) then 0 else 1)
  {
    var rest := LiveOf(kind, m - {key}, now);
    SizeWith(rest, key, m[key]);
    if Stale(kind, m[key], now) {
      assert LiveOf(kind, m, now) == rest;
    } else {
      assert LiveOf(kind, m, now) == rest[key := m[key]];
    }
  }

  lemma {:induction false} LoadingAListing<T>(kind: Kind, m: map<Key, Record<T>>, order: seq<Key>, section: Section<T>,
      now: int)
    requires Lists(order, section, m)
    requires forall k :: k in m ==> m[k].id == k
    ensures LoadSection(kind, Typed(map[], 0, 0), section, now).items == LiveOf(kind, m, now)
    ensures LoadSection(kind, Typed(map[], 0, 0), section, now).count == |LiveOf(kind, m, now)|
    decreases |order|
  {
    if order != [] {
      var last := |order| - 1;
      LiveOfRest(kind, m, order[last], now);
      LoadingAListing(kind, m - {order[last]}, order[..last], section[..last], now);
    }
  }

  lemma LiveLater<T>(kind: Kind, s: Typed<T>, t1: int, t2: int)
    requires WellKeyed(s) && t1 <= t2
    ensures LiveOf(kind, KeptOf(kind, s, t1), t2) == LiveOf(kind, s.items, t2)
  {}

  lemma SectionRoundTrip<T(!new)>(kind: Kind, s: Typed<T>, section: Section<T>, t1: int, t2: int)
    requires WellKeyed(s) && t1 <= t2 && IsListing(section, KeptOf(kind, s, t1))
    ensures LoadSection(kind, Typed(map[], 0, 0), section, t2).items == LiveOf(kind, s.items, t2)
    ensures LoadSection(kind, Typed(map[], 0, 0), section, t2).count == |LiveOf(kind, s.items, t2)|
  {
    var order :| Lists(order, section, KeptOf(kind, s, t1));
    LoadingAListing(kind, KeptOf(kind, s, t1), order, section, t2);
    LiveLater(kind, s, t1, t2);
  }

  /** `loaded` is `d` with everything lost that is not saved or has expired by `now`. */
  ghost predicate Restored<T>(loaded: Db<T>, d: Db<T>, now: int)
    requires loaded.Complete() && d.Complete()
  {
    && loaded.kv.items == map[]
    && forall kind :: RestoredStore(kind, loaded.typed[kind], d.typed[kind], now)
  }

  predicate RestoredStore<T(==)>(kind: Kind, loaded: Typed<T>, s: Typed<T>, now: int) {
    loaded.count == |loaded.items| && loaded.items == if kind in SAVED then LiveOf(kind, s.items, now) else map[]
  }

  lemma LoadRestores<T(!new)>(d: Db<T>, file: File<T>, t1: int, t2: int)
    requires d.Complete() && (forall kind :: kind in SAVED ==> WellKeyed(d.typed[kind]))
    requires t1 <= t2 && IsSnapshot(file, d, t1)
    ensures Load(Empty<T>(), file, t2).Complete() && Restored(Load(Empty<T>(), file, t2), d, t2)
  {
    var loaded := Load(Empty<T>(), file, t2);
    forall kind ensures RestoredStore(kind, loaded.typed[kind], d.typed[kind], t2) {
      if kind in SAVED {
        assert WellKeyed(d.typed[kind]);
        SectionRoundTrip(kind, d.typed[kind], file.sections[kind].value, t1, t2);
      }
    }
  }

  /** Save at t1 and load at t2 >= t1 into an empty store: after any run that fills
      the saved stores under the records' own IDs, they come back exactly, restricted
      to what has not expired by t2, with counters equal to their sizes; the other
      stores stay empty. */
  lemma SaveLoadRoundTrip<T(!new)>(run: seq<Op<T>>, file: File<T>, t1: int, t2: int)
    requires forall i :: 0 <= i < |run| ==> KeyedById(run[i])
    requires t1 <= t2 && IsSnapshot(file, After(Empty<T>(), run), t1)
    ensures Load(Empty<T>(), file, t2).Complete()
    ensures Restored(Load(Empty<T>(), file, t2), After(Empty<T>(), run), t2)
  {
    RunKeepsWellKeyed(Empty<T>(), run);
    LoadRestores(After(Empty<T>(), run), file, t1, t2);
  }
}
