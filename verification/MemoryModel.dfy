/** The in-memory state store as a value: what each operation does to the
    key-value map, to the six typed maps and to the counters.

    One operation reads the clock once. Records are values; the timestamps the
    store writes into them, other than the expiry, are not modelled. */
module MemoryModel {
  import opened Ttl
  import opened ShardHash

  datatype Error = ErrNotFound | ErrInvalidKey | ErrInvalidValue | ErrKeyExpired

  datatype Result<+T> = Ok(value: T) | Err(error: Error)

  // ------------------------------------------------------- key-value store

  type Value = Bytes

  /** `total` is TotalItems, `expired` this part's share of ExpiredItems. */
  datatype Kv = Kv(items: map<Key, Entry<Value>>, total: int, expired: int)

  function KvLapsed(s: Kv, now: int): set<Key> {
    set k | k in s.items && Lapsed(s.items[k].expiry, now)
  }

  function KvGet(s: Kv, key: Key, now: int): (Kv, Result<Value>) {
    if key.bytes == [] then (s, Err(ErrInvalidKey))
    else if key !in s.items then (s, Err(ErrNotFound))
    else if Lapsed(s.items[key].expiry, now) then (s.(items := s.items - {key}), Err(ErrKeyExpired))
    else (s, Ok(s.items[key].value))
  }

  /** A nil value is refused; every other Set counts as a new item. */
  function KvSet(s: Kv, key: Key, value: Option<Value>, ttl: int, now: int): (Kv, Result<()>) {
    if key.bytes == [] then (s, Err(ErrInvalidKey))
    else if value.None? then (s, Err(ErrInvalidValue))
    else
      var expiry := if ttl > 0 then Some(now + ttl) else None;
      (s.(items := s.items[key := Entry(value.value, expiry)], total := s.total + 1), Ok(()))
  }

  function KvDelete(s: Kv, key: Key): (Kv, Result<()>) {
    if key.bytes == [] then (s, Err(ErrInvalidKey))
    else if key in s.items then (s.(items := s.items - {key}, total := s.total - 1), Ok(()))
    else (s, Err(ErrNotFound))
  }

  function KvCleanup(s: Kv, now: int): Kv {
    var gone := KvLapsed(s, now);
    Kv(s.items - gone, s.total - |gone|, s.expired + |gone|)
  }

  // ---------------------------------------------------------- typed stores

  datatype Kind = Dialogs | RtpSessions | AmiActions | ClientSessions | WsConnections | Registrations

  /** `expires` is the lifetime in seconds a registration asks for. */
  datatype Record<T> = Record(id: Key, expireTime: Option<int>, expires: int, body: T)

  datatype Typed<T> = Typed(items: map<Key, Record<T>>, count: int, expired: int)

  const HOUR: int := 3600 * SECOND

  /** The lifetime a Store call gives a record that comes without an expiry. */
  function DefaultTtl<T>(kind: Kind, r: Record<T>): int {
    match kind
    case AmiActions | WsConnections => HOUR
    case Registrations => r.expires * SECOND
    case _ => 24 * HOUR
  }

  /** Only for registrations is a missing expiry (the zero time) a past one. */
  predicate Stale<T>(kind: Kind, r: Record<T>, now: int) {
    match r.expireTime
    case None => kind.Registrations?
    case Some(t) => t < now
  }

  function StaleKeys<T>(kind: Kind, s: Typed<T>, now: int): set<Key> {
    set k | k in s.items && Stale(kind, s.items[k], now)
  }

  function Stamped<T>(kind: Kind, r: Record<T>, now: int): (r': Record<T>)
    ensures r'.expireTime.Some? && r'.id == r.id && r'.body == r.body
  {
    if r.expireTime.None? then r.(expireTime := Some(now + DefaultTtl(kind, r))) else r
  }

  function Get<T>(kind: Kind, s: Typed<T>, key: Key, now: int): (Typed<T>, Result<Record<T>>) {
    if key.bytes == [] then (s, Err(ErrInvalidKey))
    else if key !in s.items then (s, Err(ErrNotFound))
    else if Stale(kind, s.items[key], now) then
      (Typed(s.items - {key}, s.count - 1, s.expired + 1), Err(ErrKeyExpired))
    else (s, Ok(s.items[key]))
  }

  function Put<T>(kind: Kind, s: Typed<T>, key: Key, r: Record<T>, now: int): (Typed<T>, Result<()>) {
    if key.bytes == [] then (s, Err(ErrInvalidValue))
    else
      var count := if key in s.items then s.count else s.count + 1;
      (s.(items := s.items[key := Stamped(kind, r, now)], count := count), Ok(()))
  }

  function Delete<T>(s: Typed<T>, key: Key): (Typed<T>, Result<()>) {
    if key.bytes == [] then (s, Err(ErrInvalidKey))
    else if key in s.items then (s.(items := s.items - {key}, count := s.count - 1), Ok(()))
    else (s, Err(ErrNotFound))
  }

  /** List: the live records, in whatever order; the stale ones are dropped. */
  function List<T>(kind: Kind, s: Typed<T>, now: int): Typed<T> {
    var gone := StaleKeys(kind, s, now);
    Typed(s.items - gone, s.count - |gone|, s.expired + |gone|)
  }

  // ------------------------------------------------------------ whole store

  /** One body type serves all six typed stores. */
  datatype Db<T> = Db(kv: Kv, typed: map<Kind, Typed<T>>)
  {
    ghost predicate Complete() {
      forall kind :: kind in typed
    }
  }

  const KINDS: set<Kind> := {Dialogs, RtpSessions, AmiActions, ClientSessions, WsConnections, Registrations}

  lemma KindsAreAll()
    ensures forall kind: Kind :: kind in KINDS
  {
    forall kind: Kind ensures kind in KINDS {
      match kind
      case Dialogs => case RtpSessions => case AmiActions =>
      case ClientSessions => case WsConnections => case Registrations =>
    }
  }

  function Empty<T>(): (d: Db<T>)
    ensures d.Complete()
  {
    KindsAreAll();
    Db(Kv(map[], 0, 0), map kind | kind in KINDS :: Typed(map[], 0, 0))
  }

  datatype KvOp = ReadKey(key: Key) | WriteKey(key: Key, value: Option<Value>, ttl: int) | DropKey(key: Key)

  datatype TypedOp<T> = Fetch(key: Key) | Save(key: Key, record: Record<T>) | Drop(key: Key) | ListAll

  datatype Op<T> =
    | OnKv(kvOp: KvOp, now: int)
    | OnTyped(kind: Kind, typedOp: TypedOp<T>, now: int)
    | CleanupOp(now: int)

  datatype Reply<T> =
    | Done(done: Result<()>)
    | Read(read: Result<Value>)
    | One(one: Result<Record<T>>)
    | Many(many: map<Key, Record<T>>)

  function ApplyKv<T>(s: Kv, op: KvOp, now: int): (Kv, Reply<T>) {
    match op
    case ReadKey(key) => var (s', r) := KvGet(s, key, now); (s', Read(r))
    case WriteKey(key, value, ttl) => var (s', r) := KvSet(s, key, value, ttl, now); (s', Done(r))
    case DropKey(key) => var (s', r) := KvDelete(s, key); (s', Done(r))
  }

  function ApplyTyped<T>(kind: Kind, s: Typed<T>, op: TypedOp<T>, now: int): (Typed<T>, Reply<T>) {
    match op
    case Fetch(key) => var (s', r) := Get(kind, s, key, now); (s', One(r))
    case Save(key, record) => var (s', r) := Put(kind, s, key, record, now); (s', Done(r))
    case Drop(key) => var (s', r) := Delete(s, key); (s', Done(r))
    case ListAll => var s' := List(kind, s, now); (s', Many(s'.items))
  }

  /** Cleanup lists every typed store except the AMI actions and the WebSocket connections. */
  predicate Cleaned(kind: Kind) {
    kind.Dialogs? || kind.RtpSessions? || kind.ClientSessions? || kind.Registrations?
  }

  function Cleanup<T>(d: Db<T>, now: int): (d': Db<T>)
    ensures d.Complete() ==> d'.Complete()
  {
    Db(KvCleanup(d.kv, now),
       map kind | kind in d.typed :: if Cleaned(kind) then List(kind, d.typed[kind], now) else d.typed[kind])
  }

  function Apply<T>(d: Db<T>, op: Op<T>): (r: (Db<T>, Reply<T>))
    requires d.Complete()
    ensures r.0.Complete()
  {
    match op
    case OnKv(kvOp, now) => var (kv, r) := ApplyKv(d.kv, kvOp, now); (d.(kv := kv), r)
    case OnTyped(kind, typedOp, now) =>
      var (s, r) := ApplyTyped(kind, d.typed[kind], typedOp, now); (d.(typed := d.typed[kind := s]), r)
    case CleanupOp(now) => (Cleanup(d, now), Done(Ok(())))
  }

  /** The store after a run of operations, first one first. */
  function After<T>(d: Db<T>, run: seq<Op<T>>): (d': Db<T>)
    requires d.Complete()
    ensures d'.Complete()
    decreases |run|
  {
    if run == [] then d else After(Apply(d, run[0]).0, run[1..])
  }

  // ----------------------------------------------------------- conservation

  /** A Set that replaces an entry that is still present, lapsed or not. */
  predicate Overwrites<T>(d: Db<T>, op: Op<T>) {
    op.OnKv? && op.kvOp.WriteKey? && op.kvOp.key.bytes != [] && op.kvOp.value.Some? && op.kvOp.key in d.kv.items
  }

  /** A Get that finds its key lapsed and drops it. */
  predicate DropsLapsed<T>(d: Db<T>, op: Op<T>) {
    op.OnKv? && op.kvOp.ReadKey? && KvGet(d.kv, op.kvOp.key, op.now).1 == Err(ErrKeyExpired)
  }

  function Number(b: bool): nat {
    if b then 1 else 0
  }

  function OverwriteCount<T>(d: Db<T>, run: seq<Op<T>>): nat
    requires d.Complete()
    decreases |run|
  {
    if run == [] then 0 else Number(Overwrites(d, run[0])) + OverwriteCount(Apply(d, run[0]).0, run[1..])
  }

  function DropCount<T>(d: Db<T>, run: seq<Op<T>>): nat
    requires d.Complete()
    decreases |run|
  {
    if run == [] then 0 else Number(DropsLapsed(d, run[0])) + DropCount(Apply(d, run[0]).0, run[1..])
  }

  ghost predicate CountsMatch<T>(d: Db<T>) {
    forall kind :: kind in d.typed ==> d.typed[kind].count == |d.typed[kind].items|
  }

  lemma SizeWithout<A, B>(m: map<A, B>, gone: set<A>)
    requires gone <= m.Keys
    ensures |m - gone| == |m| - |gone|
  {
    assert (m - gone).Keys == m.Keys - gone;
    assert |m.Keys - gone| == |m.Keys| - |gone|;
  }

  lemma SizeWith<A, B>(m: map<A, B>, k: A, v: B)
    ensures |m[k := v]| == |m| + (if k in m then 0 else 1)
  {
    assert m[k := v].Keys == m.Keys + {k};
  }

  lemma RemovalKeepsCount<T>(s: Typed<T>, gone: set<Key>)
    requires s.count == |s.items| && gone <= s.items.Keys
    ensures s.count - |gone| == |s.items - gone|
  {
    SizeWithout(s.items, gone);
  }

  lemma PutKeepsCount<T>(kind: Kind, s: Typed<T>, key: Key, r: Record<T>, now: int)
    requires s.count == |s.items|
    ensures Put(kind, s, key, r, now).0.count == |Put(kind, s, key, r, now).0.items|
  {
    SizeWith(s.items, key, Stamped(kind, r, now));
  }

  lemma GetKeepsCount<T>(kind: Kind, s: Typed<T>, key: Key, now: int)
    requires s.count == |s.items|
    ensures Get(kind, s, key, now).0.count == |Get(kind, s, key, now).0.items|
  {
    if key in s.items {
      RemovalKeepsCount(s, {key});
    }
  }

  lemma DeleteKeepsCount<T>(s: Typed<T>, key: Key)
    requires s.count == |s.items|
    ensures Delete(s, key).0.count == |Delete(s, key).0.items|
  {
    if key in s.items {
      RemovalKeepsCount(s, {key});
    }
  }

  lemma TypedStepKeepsCount<T>(kind: Kind, s: Typed<T>, op: TypedOp<T>, now: int)
    requires s.count == |s.items|
    ensures ApplyTyped(kind, s, op, now).0.count == |ApplyTyped(kind, s, op, now).0.items|
  {
    match op
    case Fetch(key) => GetKeepsCount(kind, s, key, now);
    case Save(key, record) => PutKeepsCount(kind, s, key, record, now);
    case Drop(key) => DeleteKeepsCount(s, key);
    case ListAll => RemovalKeepsCount(s, StaleKeys(kind, s, now));
  }

  lemma KvStepConserves<T>(d: Db<T>, op: Op<T>)
    requires op.OnKv?
    ensures var s' := ApplyKv<T>(d.kv, op.kvOp, op.now).0;
            s'.total - |s'.items| ==
            d.kv.total - |d.kv.items| + Number(Overwrites(d, op)) + Number(DropsLapsed(d, op))
  {
    match op.kvOp
    case ReadKey(key) => if key in d.kv.items { SizeWithout(d.kv.items, {key}); }
    case WriteKey(key, value, ttl) =>
      if value.Some? {
        SizeWith(d.kv.items, key, Entry(value.value, if ttl > 0 then Some(op.now + ttl) else None));
      }
    case DropKey(key) => if key in d.kv.items { SizeWithout(d.kv.items, {key}); }
  }

  lemma StepConserves<T>(d: Db<T>, op: Op<T>)
    requires d.Complete() && CountsMatch(d)
    ensures CountsMatch(Apply(d, op).0)
    ensures var d' := Apply(d, op).0;
            d'.kv.total - |d'.kv.items| ==
            d.kv.total - |d.kv.items| + Number(Overwrites(d, op)) + Number(DropsLapsed(d, op))
  {
    match op
    case OnKv(_, _) => KvStepConserves(d, op);
    case OnTyped(kind, typedOp, now) => TypedStepKeepsCount(kind, d.typed[kind], typedOp, now);
    case CleanupOp(now) =>
      SizeWithout(d.kv.items, KvLapsed(d.kv, now));
      forall kind | kind in d.typed
        ensures List(kind, d.typed[kind], now).count == |List(kind, d.typed[kind], now).items|
      {
        SizeWithout(d.typed[kind].items, StaleKeys(kind, d.typed[kind], now));
      }
  }

  lemma {:induction false} RunConserves<T>(d: Db<T>, run: seq<Op<T>>)
    requires d.Complete() && CountsMatch(d)
    ensures CountsMatch(After(d, run))
    ensures After(d, run).kv.total - |After(d, run).kv.items|
            == d.kv.total - |d.kv.items| + OverwriteCount(d, run) + DropCount(d, run)
    decreases |run|
  {
    if run != [] {
      StepConserves(d, run[0]);
      RunConserves(Apply(d, run[0]).0, run[1..]);
    }
  }

  /** Over every run, each typed counter is the size of its map, and TotalItems is
      the number of present keys, live or lapsed, plus the overwriting Sets plus the
      keys dropped by a Get that found them lapsed. */
  lemma Conservation<T>(run: seq<Op<T>>)
    ensures CountsMatch(After(Empty<T>(), run))
    ensures After(Empty<T>(), run).kv.total
            == |After(Empty<T>(), run).kv.items| + OverwriteCount(Empty<T>(), run) + DropCount(Empty<T>(), run)
  {
    RunConserves(Empty<T>(), run);
  }

  /** So TotalItems is not the number of items: setting one key twice counts two. */
  lemma TotalItemsOvercounts<T>(key: Key, value: Value)
    requires key.bytes != []
    ensures var set_ := OnKv(WriteKey(key, Some(value), 0), 0);
            var d := After(Empty<T>(), [set_, set_]);
            d.kv.total == 2 && |d.kv.items| == 1
  {
    var set_: Op<T> := OnKv(WriteKey(key, Some(value), 0), 0);
    var d1 := Apply(Empty<T>(), set_).0;
    assert [set_, set_][1..] == [set_] && [set_][1..] == [];
    assert After(Empty<T>(), [set_, set_]) == After(d1, [set_]) == Apply(d1, set_).0;
    assert Apply(d1, set_).0.kv.items.Keys == {key};
  }

  // ------------------------------------------------------------ transparency

  /** The part of a map that a cleanup may have removed by time `now`. */
  ghost predicate KvBehind(b: Kv, a: Kv, now: int) {
    && b.items.Keys <= a.items.Keys
    && (forall k :: k in b.items ==> b.items[k] == a.items[k])
    && (forall k :: k in a.items && k !in b.items ==> Lapsed(a.items[k].expiry, now))
  }

  ghost predicate TypedBehind<T>(kind: Kind, b: Typed<T>, a: Typed<T>, now: int) {
    && b.items.Keys <= a.items.Keys
    && (forall k :: k in b.items ==> b.items[k] == a.items[k])
    && (forall k :: k in a.items && k !in b.items ==> Stale(kind, a.items[k], now))
  }

  /** `b` is `a` without some entries that had expired by `now`. */
  ghost predicate Behind<T>(b: Db<T>, a: Db<T>, now: int) {
    && b.Complete() && a.Complete() && KvBehind(b.kv, a.kv, now)
    && forall kind :: TypedBehind(kind, b.typed[kind], a.typed[kind], now)
  }

  lemma KvStepBehind<T>(b: Kv, a: Kv, op: KvOp, before: int, now: int)
    requires KvBehind(b, a, before) && before <= now
    ensures KvBehind(ApplyKv<T>(b, op, now).0, ApplyKv<T>(a, op, now).0, now)
  {}

  lemma ListBehind<T>(kind: Kind, b: Typed<T>, a: Typed<T>, before: int, now: int)
    requires TypedBehind(kind, b, a, before) && before <= now
    ensures List(kind, b, now).items == List(kind, a, now).items
  {
    assert forall k :: k in a.items && k !in b.items ==> k in StaleKeys(kind, a, now);
    assert List(kind, b, now).items.Keys == List(kind, a, now).items.Keys;
  }

  lemma GetBehind<T>(kind: Kind, b: Typed<T>, a: Typed<T>, key: Key, before: int, now: int)
    requires TypedBehind(kind, b, a, before) && before <= now
    ensures TypedBehind(kind, Get(kind, b, key, now).0, Get(kind, a, key, now).0, now)
  {}

  lemma PutBehind<T>(kind: Kind, b: Typed<T>, a: Typed<T>, key: Key, r: Record<T>, before: int, now: int)
    requires TypedBehind(kind, b, a, before) && before <= now
    ensures TypedBehind(kind, Put(kind, b, key, r, now).0, Put(kind, a, key, r, now).0, now)
  {}

  lemma DeleteBehind<T>(kind: Kind, b: Typed<T>, a: Typed<T>, key: Key, before: int, now: int)
    requires TypedBehind(kind, b, a, before) && before <= now
    ensures TypedBehind(kind, Delete(b, key).0, Delete(a, key).0, now)
  {}

  lemma TypedStepBehind<T>(kind: Kind, b: Typed<T>, a: Typed<T>, op: TypedOp<T>, before: int, now: int)
    requires TypedBehind(kind, b, a, before) && before <= now
    ensures TypedBehind(kind, ApplyTyped(kind, b, op, now).0, ApplyTyped(kind, a, op, now).0, now)
  {
    match op
    case Fetch(key) => GetBehind(kind, b, a, key, before, now);
    case Save(key, record) => PutBehind(kind, b, a, key, record, before, now);
    case Drop(key) => DeleteBehind(kind, b, a, key, before, now);
    case ListAll => ListBehind(kind, b, a, before, now);
  }

  lemma CleanupBehind<T>(b: Db<T>, a: Db<T>, before: int, now: int)
    requires Behind(b, a, before) && before <= now
    ensures Behind(Cleanup(b, now), Cleanup(a, now), now)
  {
    forall kind ensures TypedBehind(kind, Cleanup(b, now).typed[kind], Cleanup(a, now).typed[kind], now) {
      assert TypedBehind(kind, b.typed[kind], a.typed[kind], before);
      ListBehind(kind, b.typed[kind], a.typed[kind], before, now);
    }
  }

  lemma StepBehind<T>(b: Db<T>, a: Db<T>, op: Op<T>, before: int)
    requires Behind(b, a, before) && before <= op.now
    ensures Behind(Apply(b, op).0, Apply(a, op).0, op.now)
  {
    match op
    case OnKv(kvOp, now) =>
      KvStepBehind<T>(b.kv, a.kv, kvOp, before, now);
      TypedBehindLater(b, a, before, now);
    case OnTyped(kind, typedOp, now) =>
      assert TypedBehind(kind, b.typed[kind], a.typed[kind], before);
      TypedStepBehind(kind, b.typed[kind], a.typed[kind], typedOp, before, now);
      TypedBehindLater(b, a, before, now);
    case CleanupOp(now) => CleanupBehind(b, a, before, now);
  }

  lemma TypedBehindLater<T>(b: Db<T>, a: Db<T>, before: int, now: int)
    requires Behind(b, a, before) && before <= now
    ensures forall kind :: TypedBehind(kind, b.typed[kind], a.typed[kind], now)
  {
    forall kind ensures TypedBehind(kind, b.typed[kind], a.typed[kind], now) {
      assert TypedBehind(kind, b.typed[kind], a.typed[kind], before);
    }
  }

  /** The operations come one after the other, none before `start`. */
  ghost predicate Ordered<T>(run: seq<Op<T>>, start: int) {
    forall i :: 0 <= i < |run| ==> start <= run[i].now && forall j :: i < j < |run| ==> run[i].now <= run[j].now
  }

  /** One place in the store. */
  datatype Slot = KvSlot(key: Key) | TypedSlot(kind: Kind, key: Key)

  /** The place that a Get or a Delete looks at. */
  function LooksAt<T>(op: Op<T>): Option<Slot> {
    match op
    case OnKv(ReadKey(key), _) => Some(KvSlot(key))
    case OnKv(DropKey(key), _) => Some(KvSlot(key))
    case OnTyped(kind, Fetch(key), _) => Some(TypedSlot(kind, key))
    case OnTyped(kind, Drop(key), _) => Some(TypedSlot(kind, key))
    case _ => None
  }

  predicate IsDelete<T>(op: Op<T>) {
    (op.OnKv? && op.kvOp.DropKey?) || (op.OnTyped? && op.typedOp.Drop?)
  }

  /** The operation would drop an expired entry at that place, or replaces or deletes
      what is there. A Set without a value is refused and does nothing. */
  predicate Touches<T>(op: Op<T>, slot: Slot) {
    match op
    case OnKv(kvOp, _) => slot == KvSlot(kvOp.key) && (kvOp.WriteKey? ==> kvOp.value.Some?)
    case OnTyped(kind, ListAll, _) => slot.TypedSlot? && slot.kind == kind
    case OnTyped(kind, typedOp, _) => slot == TypedSlot(kind, typedOp.key)
    case CleanupOp(_) => slot.KvSlot? || Cleaned(slot.kind)
  }

  predicate Holds<T>(d: Db<T>, slot: Slot)
    requires d.Complete()
  {
    match slot case KvSlot(key) => key in d.kv.items case TypedSlot(kind, key) => key in d.typed[kind].items
  }

  /** An expired entry at that place, in a store that Cleanup visits. */
  predicate ExpiredAt<T>(d: Db<T>, slot: Slot, now: int)
    requires d.Complete()
  {
    match slot
    case KvSlot(key) => key in d.kv.items && Lapsed(d.kv.items[key].expiry, now)
    case TypedSlot(kind, key) =>
      Cleaned(kind) && key in d.typed[kind].items && Stale(kind, d.typed[kind].items[key], now)
  }

  /** The replies before and after a cleanup, where the two differ. */
  function ExpiredReply<T>(op: Op<T>): Reply<T>
    requires LooksAt(op).Some?
  {
    match op
    case OnKv(kvOp, _) => if kvOp.ReadKey? then Read(Err(ErrKeyExpired)) else Done(Ok(()))
    case OnTyped(_, typedOp, _) => if typedOp.Fetch? then One(Err(ErrKeyExpired)) else Done(Ok(()))
  }

  function MissingReply<T>(op: Op<T>): Reply<T>
    requires LooksAt(op).Some?
  {
    match op
    case OnKv(kvOp, _) => if kvOp.ReadKey? then Read(Err(ErrNotFound)) else Done(Err(ErrNotFound))
    case OnTyped(_, typedOp, _) => if typedOp.Fetch? then One(Err(ErrNotFound)) else Done(Err(ErrNotFound))
  }

  /** Only a Get or a Delete can tell, and only at a place where an expired entry is
      there in one store and already gone from the other. */
  predicate Tells<T>(b: Db<T>, a: Db<T>, op: Op<T>)
    requires b.Complete() && a.Complete()
  {
    LooksAt(op).Some? && LooksAt(op).value.key.bytes != [] && Differ(b, a, LooksAt(op).value)
  }

  lemma ReplyDiffersIff<T>(b: Db<T>, a: Db<T>, op: Op<T>, before: int)
    requires Behind(b, a, before) && before <= op.now
    ensures Apply(a, op).1 != Apply(b, op).1 <==> Tells(b, a, op)
    ensures Tells(b, a, op) ==> Apply(a, op).1 == ExpiredReply(op) && Apply(b, op).1 == MissingReply(op)
  {
    match op
    case OnKv(kvOp, now) =>
    case OnTyped(kind, typedOp, now) =>
      assert TypedBehind(kind, b.typed[kind], a.typed[kind], before);
      if typedOp.ListAll? {
        ListBehind(kind, b.typed[kind], a.typed[kind], before, now);
      }
    case CleanupOp(now) =>
  }

  predicate Differ<T>(b: Db<T>, a: Db<T>, slot: Slot)
    requires b.Complete() && a.Complete()
  {
    Holds(a, slot) && !Holds(b, slot)
  }

  lemma KvDifferenceLasts<T>(b: Db<T>, a: Db<T>, op: Op<T>, before: int, key: Key)
    requires Behind(b, a, before) && before <= op.now && key.bytes != [] && op.OnKv?
    ensures Differ(Apply(b, op).0, Apply(a, op).0, KvSlot(key)) <==>
        Differ(b, a, KvSlot(key)) && !Touches(op, KvSlot(key))
  {}

  lemma TypedStepDifference<T>(kind: Kind, b: Typed<T>, a: Typed<T>, op: TypedOp<T>, before: int, now: int, key: Key)
    requires TypedBehind(kind, b, a, before) && before <= now && key.bytes != []
    ensures var (a', b') := (ApplyTyped(kind, a, op, now).0, ApplyTyped(kind, b, op, now).0);
            key in a'.items && key !in b'.items <==> key in a.items && key !in b.items && !op.ListAll? && op.key != key
  {
    if op.ListAll? {
      ListBehind(kind, b, a, before, now);
    }
  }

  lemma TypedDifferenceLasts<T>(b: Db<T>, a: Db<T>, op: Op<T>, before: int, kind: Kind, key: Key)
    requires Behind(b, a, before) && before <= op.now && key.bytes != [] && op.OnTyped?
    ensures Differ(Apply(b, op).0, Apply(a, op).0, TypedSlot(kind, key))
            <==> Differ(b, a, TypedSlot(kind, key)) && !Touches(op, TypedSlot(kind, key))
  {
    hide TypedBehind, ApplyTyped;
    assert TypedBehind(kind, b.typed[kind], a.typed[kind], before);
    TypedStepDifference(kind, b.typed[kind], a.typed[kind], op.typedOp, before, op.now, key);
  }

  lemma CleanupDifference<T>(b: Db<T>, a: Db<T>, before: int, now: int, slot: Slot)
    requires Behind(b, a, before) && before <= now
    ensures Differ(Cleanup(b, now), Cleanup(a, now), slot) <==>
        Differ(b, a, slot) && slot.TypedSlot? && !Cleaned(slot.kind)
  {
    if slot.TypedSlot? {
      assert TypedBehind(slot.kind, b.typed[slot.kind], a.typed[slot.kind], before);
      ListBehind(slot.kind, b.typed[slot.kind], a.typed[slot.kind], before, now);
    }
  }

  /** A difference at one place lasts until an operation touches it, and none arises. */
  lemma DifferenceLasts<T>(b: Db<T>, a: Db<T>, op: Op<T>, before: int, slot: Slot)
    requires Behind(b, a, before) && before <= op.now && slot.key.bytes != []
    ensures Differ(Apply(b, op).0, Apply(a, op).0, slot) <==> Differ(b, a, slot) && !Touches(op, slot)
  {
    match op
    case OnKv(_, _) =>
      if slot.KvSlot? {
        KvDifferenceLasts(b, a, op, before, slot.key);
      }
    case OnTyped(_, _, _) =>
      if slot.TypedSlot? {
        TypedDifferenceLasts(b, a, op, before, slot.kind, slot.key);
      }
    case CleanupOp(now) => CleanupDifference(b, a, before, now, slot);
  }

  function ReplyAt<T>(d: Db<T>, run: seq<Op<T>>, j: nat): Reply<T>
    requires d.Complete() && j < |run|
    decreases |run|
  {
    if j == 0 then Apply(d, run[0]).1 else ReplyAt(Apply(d, run[0]).0, run[1..], j - 1)
  }

  predicate Untouched<T>(run: seq<Op<T>>, j: nat, slot: Slot)
    requires j <= |run|
  {
    forall i :: 0 <= i < j ==> !Touches(run[i], slot)
  }

  lemma {:induction false} RunDiffersIff<T>(b: Db<T>, a: Db<T>, run: seq<Op<T>>, before: int, j: nat)
    requires Behind(b, a, before) && Ordered(run, before) && j < |run|
    ensures ReplyAt(a, run, j) != ReplyAt(b, run, j)
            <==> Tells(b, a, run[j]) && Untouched(run, j, LooksAt(run[j]).value)
    ensures ReplyAt(a, run, j) != ReplyAt(b, run, j) ==>
              ReplyAt(a, run, j) == ExpiredReply(run[j]) && ReplyAt(b, run, j) == MissingReply(run[j])
    decreases |run|
  {
    assert b.Complete() && a.Complete();
    hide Behind, Differ, Touches, ApplyKv, ApplyTyped, Cleanup;
    if j == 0 {
      ReplyDiffersIff(b, a, run[0], before);
    } else {
      StepBehind(b, a, run[0], before);
      RunDiffersIff(Apply(b, run[0]).0, Apply(a, run[0]).0, run[1..], run[0].now, j - 1);
      assert run[1..][j - 1] == run[j];
      if LooksAt(run[j]).Some? && LooksAt(run[j]).value.key.bytes != [] {
        var slot := LooksAt(run[j]).value;
        DifferenceLasts(b, a, run[0], before, slot);
        UntouchedByHead(run, j, slot);
      }
    }
  }

  lemma UntouchedByHead<T>(run: seq<Op<T>>, j: nat, slot: Slot)
    requires 0 < j <= |run|
    ensures Untouched(run, j, slot) <==> !Touches(run[0], slot) && Untouched(run[1..], j - 1, slot)
  {
    if !Touches(run[0], slot) && Untouched(run[1..], j - 1, slot) {
      forall i | 0 <= i < j ensures !Touches(run[i], slot) {
        assert i > 0 ==> run[i] == run[1..][i - 1];
      }
    }
  }

  lemma CleanupLeavesBehind<T>(d: Db<T>, now: int)
    requires d.Complete()
    ensures Behind(Cleanup(d, now), d, now)
    ensures forall slot :: Differ(Cleanup(d, now), d, slot) <==> ExpiredAt(d, slot, now)
  {}

  /** The j-th of the later operations is the first to touch an entry that had expired
      when the cleanup ran, and is a Get or a Delete. */
  predicate Reveals<T>(d: Db<T>, now: int, later: seq<Op<T>>, j: nat)
    requires d.Complete() && j < |later|
  {
    && LooksAt(later[j]).Some? && LooksAt(later[j]).value.key.bytes != []
    && ExpiredAt(d, LooksAt(later[j]).value, now) && Untouched(later, j, LooksAt(later[j]).value)
  }

  /** Put a Cleanup anywhere into any run. A later reply changes exactly when it is the
      reply to the first Get or Delete of an entry that had expired by then, not
      touched in between: a Get then says "not found" instead of "expired", and a
      Delete says "not found" instead of succeeding. Every other reply is the same. */
  lemma CleanupIsTransparent<T>(before: seq<Op<T>>, now: int, later: seq<Op<T>>, j: nat)
    requires Ordered(later, now) && j < |later|
    ensures var d := After(Empty<T>(), before);
            var (without, with_) := (ReplyAt(d, later, j), ReplyAt(Cleanup(d, now), later, j));
            && (without != with_ <==> Reveals(d, now, later, j))
            && (without != with_ ==> without == ExpiredReply(later[j]) && with_ == MissingReply(later[j]))
  {
    var d := After(Empty<T>(), before);
    CleanupLeavesBehind(d, now);
    hide Behind, Differ, ExpiredAt;
    RunDiffersIff(Cleanup(d, now), d, later, now, j);
  }

  /** The j-th reply is the same with and without the cleanup, but for an expiry error
      that becomes "not found". */
  predicate OnlyExpiryChanges<T(==)>(d: Db<T>, now: int, later: seq<Op<T>>, j: nat)
    requires d.Complete() && j < |later|
  {
    var (without, with_) := (ReplyAt(d, later, j), ReplyAt(Cleanup(d, now), later, j));
    || without == with_
    || (without == Read(Err(ErrKeyExpired)) && with_ == Read(Err(ErrNotFound)))
    || (without == One(Err(ErrKeyExpired)) && with_ == One(Err(ErrNotFound)))
  }

  lemma OneReply<T>(before: seq<Op<T>>, now: int, later: seq<Op<T>>, j: nat)
    requires Ordered(later, now) && j < |later|
    ensures var d := After(Empty<T>(), before);
            OnlyExpiryChanges(d, now, later, j) <==> !(IsDelete(later[j]) && Reveals(d, now, later, j))
  {
    hide ReplyAt, Cleanup, After, Ordered, ExpiredAt, Untouched;
    CleanupIsTransparent(before, now, later, j);
  }

  /** So a Cleanup only turns expiry errors into "not found" exactly when the later
      operations delete no expired entry that they have not touched before. */
  lemma OnlyExpiryErrorsIff<T>(before: seq<Op<T>>, now: int, later: seq<Op<T>>)
    requires Ordered(later, now)
    ensures var d := After(Empty<T>(), before);
            (forall j :: 0 <= j < |later| ==> OnlyExpiryChanges(d, now, later, j))
            <==> forall j :: 0 <= j < |later| ==> !(IsDelete(later[j]) && Reveals(d, now, later, j))
  {
    hide Reveals, OnlyExpiryChanges, After, Ordered;
    forall j | 0 <= j < |later| {
      OneReply(before, now, later, j);
    }
  }

  /** The Delete that tells: a key set to live for one nanosecond and deleted at 5,
      once with a cleanup in between and once without. */
  lemma CleanupTurnsDeleteIntoNotFound<T>(key: Key, value: Value)
    requires key.bytes != []
    ensures var d := After(Empty<T>(), [OnKv(WriteKey(key, Some(value), 1), 0)]);
            && Apply(d, OnKv(DropKey(key), 5)).1 == Done(Ok(()))
            && Apply(Cleanup(d, 5), OnKv(DropKey(key), 5)).1 == Done(Err(ErrNotFound))
  {
    var set_: Op<T> := OnKv(WriteKey(key, Some(value), 1), 0);
    var d := Apply(Empty<T>(), set_).0;
    assert [set_][1..] == [] && After(Empty<T>(), [set_]) == d;
    assert key in KvLapsed(d.kv, 5);
  }

  /** Afterwards nothing expired is left in the shards, the dialogs, the RTP
      sessions, the client sessions or the registrations, nothing live is lost, and
      the other two stores are untouched. */
  lemma CleanupIsThorough<T>(d: Db<T>, now: int)
    requires d.Complete()
    ensures KvLapsed(Cleanup(d, now).kv, now) == {}
    ensures forall kind :: Cleaned(kind) ==> StaleKeys(kind, Cleanup(d, now).typed[kind], now) == {}
    ensures forall k :: k in d.kv.items && !Lapsed(d.kv.items[k].expiry, now) ==>
              k in Cleanup(d, now).kv.items && Cleanup(d, now).kv.items[k] == d.kv.items[k]
    ensures forall kind, k :: k in d.typed[kind].items && !Stale(kind, d.typed[kind].items[k], now) ==>
              k in Cleanup(d, now).typed[kind].items && Cleanup(d, now).typed[kind].items[k] == d.typed[kind].items[k]
    ensures Cleanup(d, now).typed[AmiActions] == d.typed[AmiActions]
    ensures Cleanup(d, now).typed[WsConnections] == d.typed[WsConnections]
  {
    forall kind | Cleaned(kind) ensures StaleKeys(kind, Cleanup(d, now).typed[kind], now) == {} {
      assert Cleanup(d, now).typed[kind] == List(kind, d.typed[kind], now);
    }
  }
}
