/** The store itself: an array of shards, six typed stores and counters, all
    updated in place. */
module MemoryStorage {
  import opened Ttl
  import opened ShardHash
  import opened MemoryModel
  import opened Persistence

  // ------------------------------------------------------ listing, key by key

  /** A typed store halfway through a List: `remaining` has not been visited. */
  function Swept<T>(kind: Kind, s: Typed<T>, remaining: set<Key>, now: int): Typed<T> {
    var gone := StaleKeys(kind, s, now) - remaining;
    Typed(s.items - gone, s.count - |gone|, s.expired + |gone|)
  }

  /** The live records visited so far. */
  function Seen<T>(kind: Kind, s: Typed<T>, remaining: set<Key>, now: int): map<Key, Record<T>> {
    map k | k in s.items && k !in remaining && !Stale(kind, s.items[k], now) :: s.items[k]
  }

  lemma SweepStale<T>(kind: Kind, s: Typed<T>, remaining: set<Key>, key: Key, now: int)
    requires key in s.items && key in remaining && Stale(kind, s.items[key], now)
    ensures var before, after := Swept(kind, s, remaining, now), Swept(kind, s, remaining - {key}, now);
            key in before.items && after == Typed(before.items - {key}, before.count - 1, before.expired + 1)
    ensures Seen(kind, s, remaining - {key}, now) == Seen(kind, s, remaining, now)
  {
    var gone := StaleKeys(kind, s, now) - remaining;
    assert StaleKeys(kind, s, now) - (remaining - {key}) == gone + {key};
    assert s.items - (gone + {key}) == (s.items - gone) - {key};
  }

  lemma SweepLive<T>(kind: Kind, s: Typed<T>, remaining: set<Key>, key: Key, now: int)
    requires key in s.items && key in remaining && !Stale(kind, s.items[key], now)
    ensures Swept(kind, s, remaining - {key}, now) == Swept(kind, s, remaining, now)
    ensures key !in Seen(kind, s, remaining, now)
    ensures Seen(kind, s, remaining - {key}, now) == Seen(kind, s, remaining, now)[key := s.items[key]]
  {
    assert StaleKeys(kind, s, now) - (remaining - {key}) == StaleKeys(kind, s, now) - remaining;
  }

  lemma SweepStart<T>(kind: Kind, s: Typed<T>, now: int)
    ensures Swept(kind, s, s.items.Keys, now) == s && Seen(kind, s, s.items.Keys, now) == map[]
  {
    assert StaleKeys(kind, s, now) - s.items.Keys == {};
    assert s.items - {} == s.items;
  }

  lemma SweepEnd<T>(kind: Kind, s: Typed<T>, now: int)
    ensures Swept(kind, s, {}, now) == MemoryModel.List(kind, s, now)
    ensures Seen(kind, s, {}, now) == MemoryModel.List(kind, s, now).items == LiveOf(kind, s.items, now)
  {
    assert StaleKeys(kind, s, now) - {} == StaleKeys(kind, s, now);
  }

  /** One of the specialised stores, with its own counters. */
  class TypedStore<T(!new)> {
    const kind: Kind
    var items: map<Key, Record<T>>
    var count: int
    var expired: int

    function State(): Typed<T>
      reads this
    {
      Typed(items, count, expired)
    }

    constructor (k: Kind)
      ensures kind == k && State() == Typed(map[], 0, 0)
    {
      kind := k;
      items, count, expired := map[], 0, 0;
    }

    method Get(key: Key, now: int) returns (r: Result<Record<T>>)
      modifies this
      ensures (State(), r) == MemoryModel.Get(kind, old(State()), key, now)
    {
      if key.bytes == [] {
        return Err(ErrInvalidKey);
      }
      if key in items {
        var record := items[key];
        if Stale(kind, record, now) {
          items := items - {key};
          count := count - 1;
          expired := expired + 1;
          return Err(ErrKeyExpired);
        }
        return Ok(record);
      }
      return Err(ErrNotFound);
    }

    method Store(key: Key, record: Record<T>, now: int) returns (r: Result<()>)
      modifies this
      ensures (State(), r) == Put(kind, old(State()), key, record, now)
    {
      if key.bytes == [] {
        return Err(ErrInvalidValue);
      }
      var stored := record;
      if stored.expireTime.None? {
        stored := stored.(expireTime := Some(now + DefaultTtl(kind, stored)));
      }
      var exists_ := key in items;
      items := items[key := stored];
      if !exists_ {
        count := count + 1;
      }
      return Ok(());
    }

    method Delete(key: Key) returns (r: Result<()>)
      modifies this
      ensures (State(), r) == MemoryModel.Delete(old(State()), key)
    {
      if key.bytes == [] {
        return Err(ErrInvalidKey);
      }
      if key in items {
        items := items - {key};
        count := count - 1;
        return Ok(());
      }
      return Err(ErrNotFound);
    }

    /** Ranges over the map in an arbitrary order and drops what is stale on the way. */
    method List(now: int) returns (live: Section<T>, order: seq<Key>)
      modifies this
      ensures State() == MemoryModel.List(kind, old(State()), now)
      ensures Lists(order, live, LiveOf(kind, old(items), now))
    {
      hide Seen, LiveOf;
      live, order := [], [];
      ghost var start := State();
      var remaining := items.Keys;
      SweepStart(kind, start, now);
      while remaining != {}
        invariant remaining <= start.items.Keys && State() == Swept(kind, start, remaining, now)
        invariant |order| == |live| && Lists(order, live, Seen(kind, start, remaining, now))
        decreases remaining
      {
        var key :| key in remaining;
        var record := items[key];
        if Stale(kind, record, now) {
          SweepStale(kind, start, remaining, key, now);
          items := items - {key};
          count := count - 1;
          expired := expired + 1;
        } else {
          SweepLive(kind, start, remaining, key, now);
          ListsExtended(order, live, Seen(kind, start, remaining, now), key, record);
          live := live + [record];
          order := order + [key];
        }
        remaining := remaining - {key};
      }
      SweepEnd(kind, start, now);
    }

    /** One section of loadFromFile. */
    method LoadFrom(section: Section<T>, now: int)
      modifies this
      ensures State() == LoadSection(kind, old(State()), section, now)
    {
      for i := 0 to |section|
        invariant State() == LoadSection(kind, old(State()), section[..i], now)
      {
        assert section[..i + 1][..i] == section[..i];
        var record := section[i];
        if !Stale(kind, record, now) {
          items := items[record.id := record];
          count := count + 1;
        }
      }
      assert section[..|section|] == section;
    }
  }

  // ----------------------------------------------------------------- shards

  type Shard = map<Key, Entry<Value>>

  /** The shards hold exactly the contents, every key in the one shard it hashes to. */
  ghost predicate Located(shards: seq<Shard>, contents: Shard) {
    && |shards| > 0
    && (forall k :: k in contents ==> InRange(k, |shards|))
    && (forall k :: k in contents ==> k in shards[ShardIndex(k, |shards|)])
    && (forall i, k :: 0 <= i < |shards| && k in shards[i] ==>
          k in contents && contents[k] == shards[i][k] && ShardIndex(k, |shards|) == i)
  }

  lemma StoreLocated(shards: seq<Shard>, contents: Shard, key: Key, entry: Entry<Value>)
    requires Located(shards, contents) && InRange(key, |shards|)
    ensures var i := ShardIndex(key, |shards|);
            Located(shards[i := shards[i][key := entry]], contents[key := entry])
  {}

  lemma RemoveLocated(shards: seq<Shard>, contents: Shard, key: Key)
    requires Located(shards, contents) && InRange(key, |shards|)
    ensures var i := ShardIndex(key, |shards|);
            Located(shards[i := shards[i] - {key}], contents - {key})
  {}

  function LapsedOf(m: Shard, now: int): set<Key> {
    set k | k in m && Lapsed(m[k].expiry, now)
  }

  /** A map from which the lapsed keys, except those left, have been removed. */
  function Without(m: Shard, lapsed: set<Key>, left: set<Key>): Shard {
    m - (lapsed - left)
  }

  lemma WithoutOneMore(m: Shard, lapsed: set<Key>, left: set<Key>, key: Key)
    requires key in left && left <= lapsed
    ensures Without(m, lapsed, left - {key}) == Without(m, lapsed, left) - {key}
    ensures key in m ==> key in Without(m, lapsed, left)
  {
    assert lapsed - (left - {key}) == (lapsed - left) + {key};
  }

  lemma WithoutStartAndEnd(m: Shard, lapsed: set<Key>)
    ensures Without(m, lapsed, lapsed) == m && Without(m, lapsed, {}) == m - lapsed
  {
    assert lapsed - lapsed == {} && lapsed - {} == lapsed;
  }

  /** The lapsed keys of the first n shards. */
  function LapsedBelow(m: Shard, shardCount: int, n: int, now: int): set<Key>
    requires shardCount > 0
  {
    set k | k in m && Lapsed(m[k].expiry, now) && ShardIndex(k, shardCount) < n
  }

  /** What is left once the first n shards are clean. */
  function CleanedUpTo(all: Shard, shardCount: int, n: int, now: int): Shard
    requires shardCount > 0
  {
    all - LapsedBelow(all, shardCount, n, now)
  }

  lemma CleanedNext(shards: seq<Shard>, all: Shard, n: int, now: int)
    requires |shards| > 0 && Located(shards, CleanedUpTo(all, |shards|, n, now)) && 0 <= n < |shards|
    ensures CleanedUpTo(all, |shards|, n + 1, now) == CleanedUpTo(all, |shards|, n, now) - LapsedOf(shards[n], now)
  {
    var contents, next := CleanedUpTo(all, |shards|, n, now), CleanedUpTo(all, |shards|, n + 1, now);
    forall k ensures k in next.Keys <==> k in (contents - LapsedOf(shards[n], now)).Keys {
      if k in contents {
        assert k in shards[ShardIndex(k, |shards|)] && contents[k] == shards[ShardIndex(k, |shards|)][k];
      }
    }
  }

  lemma CleanedNone(all: Shard, shardCount: int, now: int)
    requires shardCount > 0 && forall k :: k in all ==> InRange(k, shardCount)
    ensures CleanedUpTo(all, shardCount, 0, now) == all
  {
    assert LapsedBelow(all, shardCount, 0, now) == {};
  }

  lemma CleanedAll(s: Kv, shardCount: int, now: int)
    requires shardCount > 0 && forall k :: k in s.items ==> InRange(k, shardCount)
    ensures var rest := CleanedUpTo(s.items, shardCount, shardCount, now);
            KvCleanup(s, now) == Kv(rest, s.total - (|s.items| - |rest|), s.expired + (|s.items| - |rest|))
  {
    var gone := KvLapsed(s, now);
    assert LapsedBelow(s.items, shardCount, shardCount, now) == gone;
    SizeWithout(s.items, gone);
  }

  lemma LocatedInRange(shards: seq<Shard>, contents: Shard)
    requires Located(shards, contents)
    ensures |shards| > 0 && forall k :: k in contents ==> InRange(k, |shards|)
  {
    hide ShardIndex;
  }

  lemma CleanedEnds(shards: seq<Shard>, s: Kv, now: int)
    requires Located(shards, s.items)
    ensures CleanedUpTo(s.items, |shards|, 0, now) == s.items
    ensures var rest := CleanedUpTo(s.items, |shards|, |shards|, now);
            KvCleanup(s, now) == Kv(rest, s.total - (|s.items| - |rest|), s.expired + (|s.items| - |rest|))
  {
    LocatedInRange(shards, s.items);
    hide CleanedUpTo, KvCleanup, Located, InRange;
    CleanedNone(s.items, |shards|, now);
    CleanedAll(s, |shards|, now);
  }

  /** The general key-value part of the store. */
  class ShardedMap {
    const shardCount: int
    const data: array<Shard>
    var totalItems: int
    var expiredItems: int

    /** All shards taken together. */
    ghost var contents: Shard

    ghost predicate Valid()
      reads this, data
    {
      shardCount == data.Length > 0 && Located(data[..], contents)
    }

    ghost function State(): Kv
      reads this
    {
      Kv(contents, totalItems, expiredItems)
    }

    /** A non-positive shard count falls back to 32. */
    constructor (shards: int)
      ensures Valid() && fresh(data) && shardCount == (if shards <= 0 then 32 else shards)
      ensures State() == Kv(map[], 0, 0)
    {
      shardCount := if shards <= 0 then 32 else shards;
      data := new Shard[if shards <= 0 then 32 else shards](_ => map[]);
      totalItems, expiredItems, contents := 0, 0, map[];
    }

    /** A key out of the shards' range makes the original panic; AllKeysInRangeIff
        says when there is no such key. */
    method Get(key: Key, now: int) returns (r: Result<Value>)
      requires Valid() && InRange(key, shardCount)
      modifies this`contents, data
      ensures Valid()
      ensures (State(), r) == KvGet(old(State()), key, now)
    {
      if key.bytes == [] {
        return Err(ErrInvalidKey);
      }
      var i := GetShardIndex(key, shardCount);
      if key in data[i] {
        var entry := data[i][key];
        if Lapsed(entry.expiry, now) {
          RemoveLocated(data[..], contents, key);
          data[i] := data[i] - {key};
          contents := contents - {key};
          return Err(ErrKeyExpired);
        }
        return Ok(entry.value);
      }
      return Err(ErrNotFound);
    }

    method Set(key: Key, value: Option<Value>, ttl: int, now: int) returns (r: Result<()>)
      requires Valid() && InRange(key, shardCount)
      modifies this`contents, this`totalItems, data
      ensures Valid()
      ensures (State(), r) == KvSet(old(State()), key, value, ttl, now)
    {
      if key.bytes == [] {
        return Err(ErrInvalidKey);
      }
      if value.None? {
        return Err(ErrInvalidValue);
      }
      var expiry := None;
      if ttl > 0 {
        expiry := Some(now + ttl);
      }
      var i := GetShardIndex(key, shardCount);
      var entry := Entry(value.value, expiry);
      StoreLocated(data[..], contents, key, entry);
      data[i] := data[i][key := entry];
      contents := contents[key := entry];
      totalItems := totalItems + 1;
      return Ok(());
    }

    method Delete(key: Key) returns (r: Result<()>)
      requires Valid() && InRange(key, shardCount)
      modifies this`contents, this`totalItems, data
      ensures Valid()
      ensures (State(), r) == KvDelete(old(State()), key)
    {
      if key.bytes == [] {
        return Err(ErrInvalidKey);
      }
      var i := GetShardIndex(key, shardCount);
      if key in data[i] {
        RemoveLocated(data[..], contents, key);
        data[i] := data[i] - {key};
        contents := contents - {key};
        totalItems := totalItems - 1;
        return Ok(());
      }
      return Err(ErrNotFound);
    }

    /** Removes a lapsed key, known to be present, from its shard and from the counters. */
    method Evict(i: int, key: Key)
      requires Valid() && 0 <= i < shardCount && key in data[i]
      modifies this`contents, this`totalItems, this`expiredItems, data
      ensures Valid() && key in old(contents) && contents == old(contents) - {key}
      ensures data[i] == old(data[i]) - {key}
      ensures |contents| == |old(contents)| - 1
      ensures totalItems == old(totalItems) - 1 && expiredItems == old(expiredItems) + 1
    {
      assert key in data[..][i];
      RemoveLocated(data[..], contents, key);
      SizeWithout(contents, {key});
      data[i] := data[i] - {key};
      contents := contents - {key};
      totalItems := totalItems - 1;
      expiredItems := expiredItems + 1;
    }

    /** Collects the lapsed keys of one shard, then deletes them one by one. */
    method CleanShard(i: int, now: int)
      requires Valid() && 0 <= i < shardCount
      modifies this`contents, this`totalItems, this`expiredItems, data
      ensures Valid()
      ensures contents == old(contents) - LapsedOf(old(data[i]), now)
      ensures totalItems == old(totalItems) - (|old(contents)| - |contents|)
      ensures expiredItems == old(expiredItems) + (|old(contents)| - |contents|)
    {
      ghost var shard, all := data[i], contents;
      var keysToDelete := set k | k in data[i] && Lapsed(data[i][k].expiry, now);
      ghost var lapsed := keysToDelete;
      WithoutStartAndEnd(shard, lapsed);
      WithoutStartAndEnd(all, lapsed);
      while keysToDelete != {}
        invariant keysToDelete <= lapsed <= shard.Keys && Valid()
        invariant data[i] == Without(shard, lapsed, keysToDelete)
        invariant contents == Without(all, lapsed, keysToDelete)
        invariant totalItems == old(totalItems) - (|all| - |contents|)
        invariant expiredItems == old(expiredItems) + (|all| - |contents|)
        decreases keysToDelete
      {
        var key :| key in keysToDelete;
        WithoutOneMore(shard, lapsed, keysToDelete, key);
        WithoutOneMore(all, lapsed, keysToDelete, key);
        Evict(i, key);
        keysToDelete := keysToDelete - {key};
      }
    }

    /** The shards before this one are clean already. */
    method CleanNext(i: int, now: int, ghost all: Shard)
      requires Valid() && 0 <= i < shardCount && contents == CleanedUpTo(all, shardCount, i, now)
      modifies this`contents, this`totalItems, this`expiredItems, data
      ensures Valid() && contents == CleanedUpTo(all, shardCount, i + 1, now)
      ensures totalItems + |old(contents)| == old(totalItems) + |contents|
      ensures expiredItems + |contents| == old(expiredItems) + |old(contents)|
    {
      CleanedNext(data[..], all, i, now);
      CleanShard(i, now);
    }

    method Cleanup(now: int)
      requires Valid()
      modifies this`contents, this`totalItems, this`expiredItems, data
      ensures Valid() && State() == KvCleanup(old(State()), now)
    {
      hide CleanedUpTo, KvCleanup, Located;
      ghost var all := contents;
      CleanedEnds(data[..], State(), now);
      for i := 0 to shardCount
        invariant Valid() && contents == CleanedUpTo(all, shardCount, i, now)
        invariant totalItems + |all| == old(totalItems) + |contents|
        invariant expiredItems + |contents| == old(expiredItems) + |all|
      {
        CleanNext(i, now, all);
      }
    }
  }

  // -------------------------------------------------------------- the store

  function FileOf<T>(dialogs: Section<T>, rtp: Section<T>, clients: Section<T>, regs: Section<T>,
      ami: Section<T>): File<T> {
    File(true, map[Dialogs := Some(dialogs), RtpSessions := Some(rtp), ClientSessions := Some(clients),
                   Registrations := Some(regs), AmiActions := Some(ami)])
  }

  lemma SnapshotAssembled<T(!new)>(d: Db<T>, now: int, dialogs: Section<T>, rtp: Section<T>, clients: Section<T>,
                                   regs: Section<T>, ami: Section<T>)
    requires d.Complete()
    requires IsListing(dialogs, LiveOf(Dialogs, d.typed[Dialogs].items, now))
    requires IsListing(rtp, LiveOf(RtpSessions, d.typed[RtpSessions].items, now))
    requires IsListing(clients, LiveOf(ClientSessions, d.typed[ClientSessions].items, now))
    requires IsListing(regs, LiveOf(Registrations, d.typed[Registrations].items, now))
    requires IsListing(ami, KeptOf(AmiActions, d.typed[AmiActions], now))
    ensures IsSnapshot(FileOf(dialogs, rtp, clients, regs, ami), d, now)
  {
    var file := FileOf(dialogs, rtp, clients, regs, ami);
    forall kind | kind in SAVED
      ensures kind in file.sections && file.sections[kind].Some?
      ensures IsListing(file.sections[kind].value, KeptOf(kind, d.typed[kind], now))
    {
      if !kind.AmiActions? {
        assert KeptOf(kind, d.typed[kind], now) == LiveOf(kind, d.typed[kind].items, now);
      }
    }
  }

  class MemoryStorage<T(!new)> {
    const kv: ShardedMap
    const dialogs: TypedStore<T>
    const rtpSessions: TypedStore<T>
    const amiActions: TypedStore<T>
    const clientSessions: TypedStore<T>
    const wsConnections: TypedStore<T>
    const registrations: TypedStore<T>

    ghost predicate Valid()
      reads kv, kv.data
    {
      && kv.Valid()
      && dialogs.kind == Dialogs && rtpSessions.kind == RtpSessions && amiActions.kind == AmiActions
      && clientSessions.kind == ClientSessions && wsConnections.kind == WsConnections
      && registrations.kind == Registrations
    }

    /** The store holds what the database value says. */
    ghost predicate Represents(d: Db<T>)
      reads kv, dialogs, rtpSessions, amiActions, clientSessions, wsConnections, registrations
    {
      && d.Complete() && d.kv == kv.State()
      && d.typed[Dialogs] == dialogs.State() && d.typed[RtpSessions] == rtpSessions.State()
      && d.typed[AmiActions] == amiActions.State() && d.typed[ClientSessions] == clientSessions.State()
      && d.typed[WsConnections] == wsConnections.State() && d.typed[Registrations] == registrations.State()
    }

    constructor (shards: int)
      ensures Valid() && Represents(Empty()) && kv.shardCount == (if shards <= 0 then 32 else shards)
    {
      kv := new ShardedMap(shards);
      dialogs := new TypedStore(Dialogs);
      rtpSessions := new TypedStore(RtpSessions);
      amiActions := new TypedStore(AmiActions);
      clientSessions := new TypedStore(ClientSessions);
      wsConnections := new TypedStore(WsConnections);
      registrations := new TypedStore(Registrations);
    }

    /** The typed stores are cleaned by listing them; the AMI actions and the
        WebSocket connections are not. */
    method Cleanup(now: int, ghost d: Db<T>)
      requires Valid() && Represents(d)
      modifies kv, kv.data, dialogs, rtpSessions, clientSessions, registrations
      ensures Valid() && Represents(MemoryModel.Cleanup(d, now))
    {
      kv.Cleanup(now);
      var dialogSection, dialogKeys := dialogs.List(now);
      var rtpSection, rtpKeys := rtpSessions.List(now);
      var clientSection, clientKeys := clientSessions.List(now);
      var regSection, regKeys := registrations.List(now);
    }

    /** Writes the sections one after the other; listing drops what is stale. */
    method PersistToFile(now: int, ghost d: Db<T>) returns (file: File<T>)
      requires Valid() && Represents(d)
      modifies dialogs, rtpSessions, clientSessions, registrations
      ensures IsSnapshot(file, d, now) && Represents(Persisted(d, now))
    {
      hide Lists, LiveOf, KeptOf, IsSnapshot, MemoryModel.List;
      var dialogSection, dialogKeys := dialogs.List(now);
      var rtpSection, rtpKeys := rtpSessions.List(now);
      var clientSection, clientKeys := clientSessions.List(now);
      var regSection, regKeys := registrations.List(now);
      var amiSection := CollectActions(now);
      file := FileOf(dialogSection, rtpSection, clientSection, regSection, amiSection);
      SnapshotAssembled(d, now, dialogSection, rtpSection, clientSection, regSection, amiSection);
    }

    /** The loop over the AMI actions, which drops nothing. */
    method CollectActions(now: int) returns (section: Section<T>)
      ensures IsListing(section, KeptOf(AmiActions, amiActions.State(), now))
    {
      section := [];
      ghost var order, done: map<Key, Record<T>> := [], map[];
      ghost var kept := KeptOf(AmiActions, amiActions.State(), now);
      var remaining := amiActions.items.Keys;
      while remaining != {}
        invariant remaining <= amiActions.items.Keys
        invariant |order| == |section| && Lists(order, section, done) && done == kept - remaining
        decreases remaining
      {
        var key :| key in remaining;
        var action := amiActions.items[key];
        remaining := remaining - {key};
        if action.expireTime.Some? && !(action.expireTime.value < now) {
          ListsExtended(order, section, done, key, action);
          section := section + [action];
          order := order + [key];
          done := done[key := action];
        }
        assert done == kept - remaining;
      }
      assert done == kept;
    }

    /** Nothing is stored until the header and every section have been decoded. */
    method LoadFromFile(file: File<T>, now: int, ghost d: Db<T>) returns (ok: bool)
      requires Valid() && Represents(d)
      modifies dialogs, rtpSessions, clientSessions, registrations, amiActions
      ensures ok == Decodes(file) && Represents(Load(d, file, now))
      ensures !ok ==> Represents(d)
    {
      ok := DecodeAll(file);
      if !ok {
        return;
      }
      dialogs.LoadFrom(file.sections[Dialogs].value, now);
      rtpSessions.LoadFrom(file.sections[RtpSessions].value, now);
      clientSessions.LoadFrom(file.sections[ClientSessions].value, now);
      registrations.LoadFrom(file.sections[Registrations].value, now);
      amiActions.LoadFrom(file.sections[AmiActions].value, now);
    }

    /** Decodes the header and then section after section, stopping at the first error. */
    method DecodeAll(file: File<T>) returns (ok: bool)
      ensures ok == Decodes(file)
    {
      if !file.header {
        return false;
      }
      for i := 0 to |FILE_ORDER|
        invariant forall j :: 0 <= j < i ==> FILE_ORDER[j] in file.sections && file.sections[FILE_ORDER[j]].Some?
      {
        FileOrderIsSaved(i);
        if FILE_ORDER[i] !in file.sections || file.sections[FILE_ORDER[i]].None? {
          return false;
        }
      }
      FileOrderIsSaved(0);
      return true;
    }
  }

  /** The order of the sections in the file. */
  const FILE_ORDER: seq<Kind> := [Dialogs, RtpSessions, ClientSessions, Registrations, AmiActions]

  lemma FileOrderIsSaved(i: nat)
    requires i < |FILE_ORDER|
    ensures FILE_ORDER[i] in SAVED && forall k :: k in SAVED ==> exists j :: 0 <= j < |FILE_ORDER| && FILE_ORDER[j] == k
  {
    assert FILE_ORDER[0] == Dialogs && FILE_ORDER[1] == RtpSessions && FILE_ORDER[2] == ClientSessions
        && FILE_ORDER[3] == Registrations && FILE_ORDER[4] == AmiActions;
  }
}
