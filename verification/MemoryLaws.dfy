/** What a reader of the store gets: the replies of any run of operations from an empty
    store, in terms of the operations and their times alone. */
module MemoryLaws {
  import opened Ttl
  import opened ShardHash
  import opened MemoryModel

  // ------------------------------------------------------------- states of a run

  /** The store before the j-th operation. */
  function StateAt<T>(d: Db<T>, run: seq<Op<T>>, j: nat): (s: Db<T>)
    requires d.Complete() && j <= |run|
    ensures s.Complete()
    decreases |run|
  {
    if j == 0 then d else StateAt(Apply(d, run[0]).0, run[1..], j - 1)
  }

  lemma {:induction false} ReplyIsOfState<T>(d: Db<T>, run: seq<Op<T>>, j: nat)
    requires d.Complete() && j < |run|
    ensures ReplyAt(d, run, j) == Apply(StateAt(d, run, j), run[j]).1
    decreases |run|
  {
    hide Apply;
    if j > 0 {
      ReplyIsOfState(Apply(d, run[0]).0, run[1..], j - 1);
      assert run[1..][j - 1] == run[j];
    }
  }

  lemma {:induction false} StateAfterOne<T>(d: Db<T>, run: seq<Op<T>>, j: nat)
    requires d.Complete() && j < |run|
    ensures StateAt(d, run, j + 1) == Apply(StateAt(d, run, j), run[j]).0
    decreases |run|
  {
    hide Apply;
    if j > 0 {
      StateAfterOne(Apply(d, run[0]).0, run[1..], j - 1);
      assert run[1..][j - 1] == run[j];
    }
  }

  lemma OrderedTimes<T>(run: seq<Op<T>>, start: int, i: nat, j: nat)
    requires Ordered(run, start) && i <= j < |run|
    ensures run[i].now <= run[j].now
  {}

  // ------------------------------------------------------------- key-value store

  /** The operation writes or deletes this key. A Set without a value is refused. */
  predicate Changes<T>(op: Op<T>, key: Key) {
    op.OnKv? && op.kvOp.key == key && (op.kvOp.DropKey? || (op.kvOp.WriteKey? && op.kvOp.value.Some?))
  }

  predicate Writes<T>(op: Op<T>, key: Key) {
    op.OnKv? && op.kvOp.WriteKey? && op.kvOp.key == key && op.kvOp.value.Some?
  }

  /** Looks at this key, or cleans up, after its time. */
  predicate Finds<T>(op: Op<T>, key: Key, expiry: int) {
    op.now > expiry && (op.CleanupOp? || (op.OnKv? && op.kvOp == ReadKey(key)))
  }

  /** A key written to live `ttl` nanoseconds, or for ever if that is not positive. */
  predicate Lives(ttl: int, written: int, now: int) {
    ttl <= 0 || now <= written + ttl
  }

  /** From the i-th operation to before the j-th, the key is not written or deleted. */
  predicate Unchanged<T>(run: seq<Op<T>>, i: nat, j: nat, key: Key)
    requires j <= |run|
  {
    forall m :: i <= m < j ==> !Changes(run[m], key)
  }

  predicate FoundExpired<T>(run: seq<Op<T>>, i: nat, j: nat, key: Key, expiry: int)
    requires j <= |run|
  {
    exists m :: i <= m < j && Finds(run[m], key, expiry)
  }

  lemma KvStep<T>(d: Db<T>, op: Op<T>, key: Key, e: Entry<Value>)
    requires d.Complete() && key.bytes != [] && !Changes(op, key)
    ensures key !in d.kv.items ==> key !in Apply(d, op).0.kv.items
    ensures key in d.kv.items && d.kv.items[key] == e ==>
              if e.expiry.Some? && Finds(op, key, e.expiry.value) then key !in Apply(d, op).0.kv.items
              else key in Apply(d, op).0.kv.items && Apply(d, op).0.kv.items[key] == e
  {}

  /** The entry stays as it was written until it is found expired. */
  lemma {:induction false} EntryStays<T>(d: Db<T>, run: seq<Op<T>>, i: nat, j: nat, key: Key, e: Entry<Value>)
    requires d.Complete() && i <= j <= |run| && key.bytes != [] && Unchanged(run, i, j, key)
    requires key in StateAt(d, run, i).kv.items && StateAt(d, run, i).kv.items[key] == e
    ensures var items := StateAt(d, run, j).kv.items;
            if e.expiry.Some? && FoundExpired(run, i, j, key, e.expiry.value) then key !in items
            else key in items && items[key] == e
    decreases j - i
  {
    hide Apply, StateAt, Finds, Changes;
    if i < j {
      EntryStays(d, run, i, j - 1, key, e);
      StateAfterOne(d, run, j - 1);
      KvStep(StateAt(d, run, j - 1), run[j - 1], key, e);
    }
  }

  lemma {:induction false} AbsenceStays<T>(d: Db<T>, run: seq<Op<T>>, i: nat, j: nat, key: Key)
    requires d.Complete() && i <= j <= |run| && key.bytes != []
    requires forall m :: i <= m < j ==> !Writes(run[m], key)
    requires key !in StateAt(d, run, i).kv.items
    ensures key !in StateAt(d, run, j).kv.items
    decreases j - i
  {
    hide StateAt;
    if i < j {
      AbsenceStays(d, run, i, j - 1, key);
      StateAfterOne(d, run, j - 1);
    }
  }

  lemma WriteStores<T>(d: Db<T>, key: Key, v: Value, ttl: int, now: int)
    requires d.Complete() && key.bytes != []
    ensures var items := Apply(d, OnKv(WriteKey(key, Some(v), ttl), now)).0.kv.items;
            key in items && items[key] == Entry(v, if ttl > 0 then Some(now + ttl) else None)
  {}

  /** A Get replies with the value of the last Set of its key, exactly as long as that
      lives; later the first to look gets "expired" and all others "not found", as does
      everybody once a cleanup has found it expired. */
  lemma GetReturnsLastSet<T>(run: seq<Op<T>>, i: nat, j: nat, key: Key, v: Value, ttl: int)
    requires i < j < |run| && Ordered(run, run[0].now) && key.bytes != []
    requires run[i].OnKv? && run[i].kvOp == WriteKey(key, Some(v), ttl) && Unchanged(run, i + 1, j, key)
    requires run[j].OnKv? && run[j].kvOp == ReadKey(key)
    ensures var expiry := run[i].now + ttl;
            ReplyAt(Empty<T>(), run, j) ==
            if Lives(ttl, run[i].now, run[j].now) then Read(Ok(v))
            else if FoundExpired(run, i + 1, j, key, expiry) then Read(Err(ErrNotFound))
            else Read(Err(ErrKeyExpired))
  {
    hide StateAt, Finds, Changes;
    var e := Entry(v, if ttl > 0 then Some(run[i].now + ttl) else None);
    StateAfterOne(Empty<T>(), run, i);
    WriteStores(StateAt(Empty<T>(), run, i), key, v, ttl, run[i].now);
    EntryStays(Empty<T>(), run, i + 1, j, key, e);
    ReplyIsOfState(Empty<T>(), run, j);
    if Lives(ttl, run[i].now, run[j].now) && ttl > 0 {
      forall m | i + 1 <= m < j ensures !Finds(run[m], key, run[i].now + ttl) {
        OrderedTimes(run, run[0].now, m, j);
        NotYet(run[m], key, run[i].now + ttl);
      }
    }
  }

  lemma NotYet<T>(op: Op<T>, key: Key, expiry: int)
    requires op.now <= expiry
    ensures !Finds(op, key, expiry)
  {}

  /** A key that was never set, or not again since it was deleted, is not found by anybody. */
  lemma GetFindsNothing<T>(run: seq<Op<T>>, i: nat, j: nat, key: Key)
    requires i <= j < |run| && key.bytes != []
    requires i == 0 || (run[i - 1].OnKv? && run[i - 1].kvOp == DropKey(key))
    requires forall m :: i <= m < j ==> !Writes(run[m], key)
    requires run[j].OnKv? && (run[j].kvOp == ReadKey(key) || run[j].kvOp == DropKey(key))
    ensures ReplyAt(Empty<T>(), run, j) ==
            if run[j].kvOp.ReadKey? then Read(Err(ErrNotFound)) else Done(Err(ErrNotFound))
  {
    if i > 0 {
      StateAfterOne(Empty<T>(), run, i - 1);
    }
    hide StateAt;
    assert key !in StateAt(Empty<T>(), run, i).kv.items by { StartsWithout(run, i, key); }
    AbsenceStays(Empty<T>(), run, i, j, key);
    ReplyIsOfState(Empty<T>(), run, j);
  }

  lemma StartsWithout<T>(run: seq<Op<T>>, i: nat, key: Key)
    requires i <= |run| && key.bytes != []
    requires i == 0 || (run[i - 1].OnKv? && run[i - 1].kvOp == DropKey(key))
    ensures key !in StateAt(Empty<T>(), run, i).kv.items
  {
    if i > 0 {
      StateAfterOne(Empty<T>(), run, i - 1);
    }
  }

  /** A Delete of the last Set succeeds, even when it has expired, unless somebody has
      already found it expired. */
  lemma DeleteRemovesLastSet<T>(run: seq<Op<T>>, i: nat, j: nat, key: Key, v: Value, ttl: int)
    requires i < j < |run| && key.bytes != []
    requires run[i].OnKv? && run[i].kvOp == WriteKey(key, Some(v), ttl) && Unchanged(run, i + 1, j, key)
    requires run[j].OnKv? && run[j].kvOp == DropKey(key)
    ensures ReplyAt(Empty<T>(), run, j) ==
            Done(if ttl > 0 && FoundExpired(run, i + 1, j, key, run[i].now + ttl) then Err(ErrNotFound) else Ok(()))
  {
    hide StateAt, Finds, Changes;
    StateAfterOne(Empty<T>(), run, i);
    WriteStores(StateAt(Empty<T>(), run, i), key, v, ttl, run[i].now);
    EntryStays(Empty<T>(), run, i + 1, j, key, Entry(v, if ttl > 0 then Some(run[i].now + ttl) else None));
    ReplyIsOfState(Empty<T>(), run, j);
  }

  /** The calls that are refused whatever the store holds, and Set, which otherwise succeeds. */
  lemma RefusedCalls<T>(run: seq<Op<T>>, j: nat)
    requires j < |run| && run[j].OnKv?
    ensures var (op, reply) := (run[j].kvOp, ReplyAt(Empty<T>(), run, j));
            && (op.key.bytes == [] ==>
                  reply == if op.ReadKey? then Read(Err(ErrInvalidKey)) else Done(Err(ErrInvalidKey)))
            && (op.key.bytes != [] && op.WriteKey? ==>
                  reply == Done(if op.value.None? then Err(ErrInvalidValue) else Ok(())))
  {
    hide StateAt;
    ReplyIsOfState(Empty<T>(), run, j);
  }

  // ---------------------------------------------------------------- typed stores

  predicate ChangesRecord<T>(op: Op<T>, kind: Kind, key: Key) {
    op.OnTyped? && op.kind == kind && (op.typedOp.Save? || op.typedOp.Drop?) && op.typedOp.key == key
  }

  predicate FindsRecord<T>(op: Op<T>, kind: Kind, key: Key, expiry: int) {
    op.now > expiry &&
    ((op.CleanupOp? && (kind.Dialogs? || kind.RtpSessions? || kind.ClientSessions? || kind.Registrations?))
     || (op.OnTyped? && op.kind == kind && (op.typedOp.ListAll? || op.typedOp == Fetch(key))))
  }

  predicate UnchangedRecord<T>(run: seq<Op<T>>, i: nat, j: nat, kind: Kind, key: Key)
    requires j <= |run|
  {
    forall m :: i <= m < j ==> !ChangesRecord(run[m], kind, key)
  }

  predicate FoundRecord<T>(run: seq<Op<T>>, i: nat, j: nat, kind: Kind, key: Key, expiry: int)
    requires j <= |run|
  {
    exists m :: i <= m < j && FindsRecord(run[m], kind, key, expiry)
  }

  /** When a record saved at `saved` expires: at its own time if it has one; else after a
      day, an hour, or the seconds a registration asks for. */
  function ExpiryOf<T>(kind: Kind, r: Record<T>, saved: int): int {
    if r.expireTime.Some? then r.expireTime.value
    else if kind.Registrations? then saved + r.expires * 1_000_000_000
    else if kind.AmiActions? || kind.WsConnections? then saved + 3_600_000_000_000
    else saved + 86_400_000_000_000
  }

  lemma TypedStep<T>(d: Db<T>, op: Op<T>, kind: Kind, key: Key, r: Record<T>)
    requires d.Complete() && key.bytes != [] && !ChangesRecord(op, kind, key) && r.expireTime.Some?
    ensures key in d.typed[kind].items && d.typed[kind].items[key] == r ==>
              var items := Apply(d, op).0.typed[kind].items;
              if FindsRecord(op, kind, key, r.expireTime.value) then key !in items else key in items && items[key] == r
  {}

  lemma TypedAbsence<T>(d: Db<T>, op: Op<T>, kind: Kind, key: Key)
    requires d.Complete() && key !in d.typed[kind].items
    requires !(op.OnTyped? && op.kind == kind && op.typedOp.Save? && op.typedOp.key == key)
    ensures key !in Apply(d, op).0.typed[kind].items
  {}

  lemma {:induction false} RecordStays<T>(d: Db<T>, run: seq<Op<T>>, i: nat, j: nat, kind: Kind, key: Key, r: Record<T>)
    requires d.Complete() && i <= j <= |run| && key.bytes != [] && UnchangedRecord(run, i, j, kind, key)
    requires r.expireTime.Some?
    requires key in StateAt(d, run, i).typed[kind].items && StateAt(d, run, i).typed[kind].items[key] == r
    ensures var items := StateAt(d, run, j).typed[kind].items;
            if FoundRecord(run, i, j, kind, key, r.expireTime.value) then key !in items
            else key in items && items[key] == r
    decreases j - i
  {
    hide Apply, StateAt, FindsRecord, ChangesRecord;
    if i < j {
      RecordStays(d, run, i, j - 1, kind, key, r);
      StateAfterOne(d, run, j - 1);
      TypedStep(StateAt(d, run, j - 1), run[j - 1], kind, key, r);
      TypedGone(StateAt(d, run, j - 1), run[j - 1], kind, key);
    }
  }

  lemma TypedGone<T>(d: Db<T>, op: Op<T>, kind: Kind, key: Key)
    requires d.Complete() && !ChangesRecord(op, kind, key)
    ensures key !in d.typed[kind].items ==> key !in Apply(d, op).0.typed[kind].items
  {
    if key !in d.typed[kind].items {
      TypedAbsence(d, op, kind, key);
    }
  }

  lemma SaveStores<T>(d: Db<T>, kind: Kind, key: Key, r: Record<T>, now: int)
    requires d.Complete() && key.bytes != []
    ensures var items := Apply(d, OnTyped(kind, Save(key, r), now)).0.typed[kind].items;
            key in items && items[key] == r.(expireTime := Some(ExpiryOf(kind, r, now)))
  {
    assert HOUR == 3_600_000_000_000;
  }

  lemma SavedRecord<T>(run: seq<Op<T>>, i: nat, j: nat, kind: Kind, key: Key, r: Record<T>)
    requires i < j <= |run| && key.bytes != []
    requires run[i].OnTyped? && run[i].kind == kind && run[i].typedOp == Save(key, r)
    requires UnchangedRecord(run, i + 1, j, kind, key)
    ensures var (items, expiry) := (StateAt(Empty<T>(), run, j).typed[kind].items, ExpiryOf(kind, r, run[i].now));
            if FoundRecord(run, i + 1, j, kind, key, expiry) then key !in items
            else key in items && items[key] == r.(expireTime := Some(expiry))
  {
    hide StateAt, FindsRecord, ChangesRecord, ExpiryOf;
    StateAfterOne(Empty<T>(), run, i);
    SaveStores(StateAt(Empty<T>(), run, i), kind, key, r, run[i].now);
    RecordStays(Empty<T>(), run, i + 1, j, kind, key, r.(expireTime := Some(ExpiryOf(kind, r, run[i].now))));
  }

  lemma LiveIsUnfound<T>(run: seq<Op<T>>, i: nat, j: nat, kind: Kind, key: Key, expiry: int)
    requires i <= j < |run| && Ordered(run, run[0].now) && run[j].now <= expiry
    ensures !FoundRecord(run, i, j, kind, key, expiry)
  {
    forall m | i <= m < j ensures !FindsRecord(run[m], kind, key, expiry) {
      OrderedTimes(run, run[0].now, m, j);
    }
  }

  /** A typed Get replies with the record last saved under its key, stamped with its
      expiry, exactly as long as that has not passed; later the first to look gets
      "expired" and all others "not found". */
  lemma FetchReturnsLastSave<T>(run: seq<Op<T>>, i: nat, j: nat, kind: Kind, key: Key, r: Record<T>)
    requires i < j < |run| && Ordered(run, run[0].now) && key.bytes != []
    requires run[i].OnTyped? && run[i].kind == kind && run[i].typedOp == Save(key, r)
    requires UnchangedRecord(run, i + 1, j, kind, key)
    requires run[j].OnTyped? && run[j].kind == kind && run[j].typedOp == Fetch(key)
    ensures var expiry := ExpiryOf(kind, r, run[i].now);
            ReplyAt(Empty<T>(), run, j) ==
            if run[j].now <= expiry then One(Ok(r.(expireTime := Some(expiry))))
            else if FoundRecord(run, i + 1, j, kind, key, expiry) then One(Err(ErrNotFound))
            else One(Err(ErrKeyExpired))
  {
    hide StateAt, FoundRecord, ChangesRecord, ExpiryOf;
    var expiry := ExpiryOf(kind, r, run[i].now);
    SavedRecord(run, i, j, kind, key, r);
    ReplyIsOfState(Empty<T>(), run, j);
    if run[j].now <= expiry {
      LiveIsUnfound(run, i + 1, j, kind, key, expiry);
    }
  }

  /** A List holds the record under its key exactly as long. */
  lemma ListHoldsLastSave<T>(run: seq<Op<T>>, i: nat, j: nat, kind: Kind, key: Key, r: Record<T>)
    requires i < j < |run| && Ordered(run, run[0].now) && key.bytes != []
    requires run[i].OnTyped? && run[i].kind == kind && run[i].typedOp == Save(key, r)
    requires UnchangedRecord(run, i + 1, j, kind, key)
    requires run[j].OnTyped? && run[j].kind == kind && run[j].typedOp == ListAll
    ensures var (expiry, reply) := (ExpiryOf(kind, r, run[i].now), ReplyAt(Empty<T>(), run, j));
            && reply.Many? && (key in reply.many <==> run[j].now <= expiry)
            && (key in reply.many ==> reply.many[key] == r.(expireTime := Some(expiry)))
  {
    hide StateAt, FoundRecord, ChangesRecord, ExpiryOf;
    var expiry := ExpiryOf(kind, r, run[i].now);
    SavedRecord(run, i, j, kind, key, r);
    ReplyIsOfState(Empty<T>(), run, j);
    if run[j].now <= expiry {
      LiveIsUnfound(run, i + 1, j, kind, key, expiry);
    }
  }

  predicate SavesRecord<T>(op: Op<T>, kind: Kind, key: Key) {
    op.OnTyped? && op.kind == kind && op.typedOp.Save? && op.typedOp.key == key
  }

  lemma {:induction false} RecordAbsent<T>(d: Db<T>, run: seq<Op<T>>, i: nat, j: nat, kind: Kind, key: Key)
    requires d.Complete() && i <= j <= |run|
    requires forall m :: i <= m < j ==> !SavesRecord(run[m], kind, key)
    requires key !in StateAt(d, run, i).typed[kind].items
    ensures key !in StateAt(d, run, j).typed[kind].items
    decreases j - i
  {
    hide StateAt, Apply;
    if i < j {
      RecordAbsent(d, run, i, j - 1, kind, key);
      StateAfterOne(d, run, j - 1);
      TypedAbsence(StateAt(d, run, j - 1), run[j - 1], kind, key);
    }
  }

  lemma StartsWithoutRecord<T>(run: seq<Op<T>>, i: nat, kind: Kind, key: Key)
    requires i <= |run| && key.bytes != []
    requires i == 0 || (run[i - 1].OnTyped? && run[i - 1].kind == kind && run[i - 1].typedOp == Drop(key))
    ensures key !in StateAt(Empty<T>(), run, i).typed[kind].items
  {
    if i > 0 {
      StateAfterOne(Empty<T>(), run, i - 1);
    }
  }

  /** A record never saved, or not again since it was deleted, is not found and not listed. */
  lemma FetchFindsNothing<T>(run: seq<Op<T>>, i: nat, j: nat, kind: Kind, key: Key)
    requires i <= j < |run| && key.bytes != []
    requires i == 0 || (run[i - 1].OnTyped? && run[i - 1].kind == kind && run[i - 1].typedOp == Drop(key))
    requires forall m :: i <= m < j ==> !SavesRecord(run[m], kind, key)
    requires run[j].OnTyped? && run[j].kind == kind
    ensures run[j].typedOp == Fetch(key) ==> ReplyAt(Empty<T>(), run, j) == One(Err(ErrNotFound))
    ensures run[j].typedOp == Drop(key) ==> ReplyAt(Empty<T>(), run, j) == Done(Err(ErrNotFound))
    ensures run[j].typedOp == ListAll ==>
              var reply := ReplyAt(Empty<T>(), run, j); reply.Many? && key !in reply.many
  {
    StartsWithoutRecord(run, i, kind, key);
    hide StateAt;
    RecordAbsent(Empty<T>(), run, i, j, kind, key);
    ReplyIsOfState(Empty<T>(), run, j);
  }

  /** A Delete of the last Save succeeds, unless somebody has already found it expired;
      a Save succeeds, and no call takes an empty key. */
  lemma DropRemovesLastSave<T>(run: seq<Op<T>>, i: nat, j: nat, kind: Kind, key: Key, r: Record<T>)
    requires i < j < |run| && key.bytes != []
    requires run[i].OnTyped? && run[i].kind == kind && run[i].typedOp == Save(key, r)
    requires UnchangedRecord(run, i + 1, j, kind, key)
    requires run[j].OnTyped? && run[j].kind == kind && run[j].typedOp == Drop(key)
    ensures ReplyAt(Empty<T>(), run, j) ==
            var expiry := ExpiryOf(kind, r, run[i].now);
            Done(if FoundRecord(run, i + 1, j, kind, key, expiry) then Err(ErrNotFound) else Ok(()))
  {
    hide StateAt, FoundRecord, ChangesRecord, ExpiryOf;
    SavedRecord(run, i, j, kind, key, r);
    ReplyIsOfState(Empty<T>(), run, j);
  }

  lemma RefusedTypedCalls<T>(run: seq<Op<T>>, j: nat)
    requires j < |run| && run[j].OnTyped?
    ensures var (op, reply) := (run[j].typedOp, ReplyAt(Empty<T>(), run, j));
            && (op.Save? ==> reply == Done(if op.key.bytes == [] then Err(ErrInvalidValue) else Ok(())))
            && (op.Fetch? && op.key.bytes == [] ==> reply == One(Err(ErrInvalidKey)))
            && (op.Drop? && op.key.bytes == [] ==> reply == Done(Err(ErrInvalidKey)))
  {
    hide StateAt;
    ReplyIsOfState(Empty<T>(), run, j);
  }

  // -------------------------------------------------------------- expired items

  /** Replies with which a Set and a Delete have succeeded. */
  function SetCount<T>(d: Db<T>, run: seq<Op<T>>): nat
    requires d.Complete()
    decreases |run|
  {
    if run == [] then 0
    else
      var done := run[0].OnKv? && run[0].kvOp.WriteKey? && Apply(d, run[0]).1 == Done(Ok(()));
      Number(done) + SetCount(Apply(d, run[0]).0, run[1..])
  }

  function DeleteCount<T>(d: Db<T>, run: seq<Op<T>>): nat
    requires d.Complete()
    decreases |run|
  {
    if run == [] then 0
    else
      var done := run[0].OnKv? && run[0].kvOp.DropKey? && Apply(d, run[0]).1 == Done(Ok(()));
      Number(done) + DeleteCount(Apply(d, run[0]).0, run[1..])
  }

  /** TotalItems is what was set, less what was deleted, less what the cleanups have
      counted as expired. */
  lemma {:induction false} ExpiredAreCounted<T>(d: Db<T>, run: seq<Op<T>>)
    requires d.Complete()
    ensures var (kv, kv') := (d.kv, After(d, run).kv);
            kv'.total + kv'.expired + DeleteCount(d, run) == kv.total + kv.expired + SetCount(d, run)
    decreases |run|
  {
    if run != [] {
      KvStepCounts(d, run[0]);
      hide Apply;
      ExpiredAreCounted(Apply(d, run[0]).0, run[1..]);
    }
  }

  lemma KvStepCounts<T>(d: Db<T>, op: Op<T>)
    requires d.Complete()
    ensures var (kv, kv') := (d.kv, Apply(d, op).0.kv);
            var done := Apply(d, op).1 == Done(Ok(()));
            kv'.total + kv'.expired + Number(op.OnKv? && op.kvOp.DropKey? && done)
            == kv.total + kv.expired + Number(op.OnKv? && op.kvOp.WriteKey? && done)
  {}

  /** Saves that made a new record, and Deletes that removed one, in one typed store. */
  function NewCount<T>(d: Db<T>, run: seq<Op<T>>, kind: Kind): nat
    requires d.Complete()
    decreases |run|
  {
    if run == [] then 0
    else
      var made := run[0].OnTyped? && run[0].kind == kind && run[0].typedOp.Save? && run[0].typedOp.key.bytes != []
                  && run[0].typedOp.key !in d.typed[kind].items;
      Number(made) + NewCount(Apply(d, run[0]).0, run[1..], kind)
  }

  function RemovedCount<T>(d: Db<T>, run: seq<Op<T>>, kind: Kind): nat
    requires d.Complete()
    decreases |run|
  {
    if run == [] then 0
    else
      var removed := run[0].OnTyped? && run[0].kind == kind && run[0].typedOp.Drop?
                     && Apply(d, run[0]).1 == Done(Ok(()));
      Number(removed) + RemovedCount(Apply(d, run[0]).0, run[1..], kind)
  }

  /** In each typed store what was made is still counted, was deleted, or is counted as
      expired. */
  lemma {:induction false} ExpiredRecordsAreCounted<T>(d: Db<T>, run: seq<Op<T>>, kind: Kind)
    requires d.Complete()
    ensures var (s, s') := (d.typed[kind], After(d, run).typed[kind]);
            s'.count + s'.expired + RemovedCount(d, run, kind) == s.count + s.expired + NewCount(d, run, kind)
    decreases |run|
  {
    if run != [] {
      TypedStepCounts(d, run[0], kind);
      hide Apply;
      ExpiredRecordsAreCounted(Apply(d, run[0]).0, run[1..], kind);
    }
  }

  lemma TypedStepCounts<T>(d: Db<T>, op: Op<T>, kind: Kind)
    requires d.Complete()
    ensures var (s, s') := (d.typed[kind], Apply(d, op).0.typed[kind]);
            var mine := op.OnTyped? && op.kind == kind;
            s'.count + s'.expired + Number(mine && op.typedOp.Drop? && Apply(d, op).1 == Done(Ok(())))
            == s.count + s.expired
               + Number(mine && op.typedOp.Save? && op.typedOp.key.bytes != [] && op.typedOp.key !in s.items)
  {}
}
