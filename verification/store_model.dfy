/** The keyspace as a value, and what every store operation does to it.

    An operation is described in two stages: the entries it looks at are first dropped if
    they have expired, and what is left is then changed without any further look at
    expiry. Random eviction enters as the set of victims that the choice produced. */
module StoreModel {
  import opened ByteStrings

  const ENTRY_OVERHEAD: nat := 64
  const LIST_ITEM_OVERHEAD: nat := 24

  const SECOND: nat := 1_000_000_000

  /** The last instant that the system clock type can hold. */
  const MAX_TIME: nat := I64_MAX * SECOND + 999_999_999

  /** Nanoseconds since the Unix epoch. */
  type Time = t: int | 0 <= t <= MAX_TIME

  type Key = Str

  datatype Value = Text(bytes: Bytes) | List(items: seq<Bytes>) {
    function PayloadBytes(): nat {
      match this
      case Text(bytes) => |bytes|
      case List(items) => LengthSum(items, 0)
    }

    function EstimatedBytes(): nat {
      match this
      case Text(bytes) => |bytes|
      case List(items) => LengthSum(items, LIST_ITEM_OVERHEAD)
    }

    function ListItems(): nat {
      match this
      case Text(_) => 0
      case List(items) => |items|
    }

    function TypeName(): Str {
      match this
      case Text(_) => Ascii("string")
      case List(_) => Ascii("list")
    }
  }

  /** Sum of the lengths, each increased by `overhead`. */
  function LengthSum(items: seq<Bytes>, overhead: nat): nat {
    if items == [] then 0 else |items[0]| + overhead + LengthSum(items[1..], overhead)
  }

  datatype Entry = Entry(value: Value, expiresAt: Option<Time>) {
    predicate Expired(now: Time) {
      expiresAt.Some? && expiresAt.value <= now
    }
  }

  type Db = map<Key, Entry>

  // ---- accounting ----

  ghost function Sum(db: Db, weight: (Key, Entry) -> nat): nat
    decreases |db|
  {
    if db == map[] then 0
    else
      var k: Key :| k in db;
      weight(k, db[k]) + Sum(db - {k}, weight)
  }

  function EntryBytes(key: Key, entry: Entry): nat {
    ENTRY_OVERHEAD + |key| + entry.value.EstimatedBytes()
  }

  ghost function Footprint(db: Db): nat {
    Sum(db, EntryBytes)
  }

  function KeyBytes(key: Key, entry: Entry): nat { |key| }

  function PayloadBytes(key: Key, entry: Entry): nat { entry.value.PayloadBytes() }

  function ItemCount(key: Key, entry: Entry): nat { entry.value.ListItems() }

  function IsText(key: Key, entry: Entry): nat { if entry.value.Text? then 1 else 0 }

  function IsList(key: Key, entry: Entry): nat { if entry.value.List? then 1 else 0 }

  function IsExpiring(key: Key, entry: Entry): nat { if entry.expiresAt.Some? then 1 else 0 }

  // ---- configuration, state, replies ----

  datatype EvictionPolicy = NoEviction | AllKeysRandom {
    function Name(): Str {
      match this
      case NoEviction => Ascii("noeviction")
      case AllKeysRandom => Ascii("allkeys-random")
    }
  }

  datatype StoreConfig = StoreConfig(maxMemory: Option<nat>, policy: EvictionPolicy)

  datatype Store = Store(db: Db, expired: nat, evicted: nat, rejected: nat)

  const EMPTY: Store := Store(map[], 0, 0, 0)

  datatype StoreError = WrongType | OutOfMemory

  datatype Ttl = Missing | NoExpiration | Seconds(n: nat)

  datatype StoreStats = StoreStats(
    totalKeys: nat,
    stringKeys: nat,
    listKeys: nat,
    expiringKeys: nat,
    keyBytes: nat,
    payloadBytes: nat,
    estimatedBytes: nat,
    listItems: nat,
    maxMemory: Option<nat>,
    policy: EvictionPolicy,
    expired: nat,
    evicted: nat,
    rejected: nat)

  datatype KeyInspection = KeyInspection(
    key: Key, typeName: Str, ttlSeconds: i64, payloadBytes: nat, estimatedBytes: nat, listItems: nat)

  datatype Reply =
    | Done
    | Found(value: Option<Bytes>)
    | Count(n: nat)
    | Flag(yes: bool)
    | Lifetime(ttl: Ttl)
    | Elements(items: seq<Bytes>)
    | Snapshot(stats: StoreStats)
    | Rows(rows: seq<KeyInspection>)
    | Failed(error: StoreError)

  datatype Outcome = Outcome(store: Store, reply: Reply)

  datatype Side = Left | Right

  datatype Op =
    | Set(key: Key, value: Bytes)
    | Get(key: Key)
    | Del(keys: seq<Key>)
    | Exists(keys: seq<Key>)
    | Expire(key: Key, seconds: u64)
    | ExpireAt(key: Key, unixSeconds: u64)
    | TtlOf(key: Key)
    | Persist(key: Key)
    | Push(key: Key, values: seq<Bytes>, side: Side)
    | Pop(key: Key, side: Side)
    | Lrange(key: Key, start: i64, stop: i64)
    | Stats
    | Inspect(limit: nat)
    | Sweep

  // ---- first stage: dropping what has expired ----

  function Purge(db: Db, keys: set<Key>, now: Time): Db {
    map k: Key | k in db && !(k in keys && db[k].Expired(now)) :: db[k]
  }

  function Live(db: Db, now: Time): Db {
    Purge(db, db.Keys, now)
  }

  predicate VisitsAll(op: Op) {
    op.Stats? || op.Sweep? || (op.Inspect? && op.limit > 0)
  }

  function KeySet(keys: seq<Key>): set<Key> {
    set k: Key | k in keys
  }

  /** The keys an operation names. */
  function Named(op: Op): set<Key> {
    match op
    case Del(keys) => KeySet(keys)
    case Exists(keys) => KeySet(keys)
    case Stats => {}
    case Inspect(_) => {}
    case Sweep => {}
    case _ => {op.key}
  }

  function Visit(s: Store, op: Op, now: Time): Store {
    if VisitsAll(op) then
      var db := Live(s.db, now);
      s.(db := db, expired := s.expired + |s.db.Keys - db.Keys|)
    else s.(db := Purge(s.db, Named(op), now))
  }

  // ---- second stage: the operation itself ----

  function Deadline(now: Time, seconds: u64): Time {
    if now + seconds * SECOND <= MAX_TIME then now + seconds * SECOND else now
  }

  function UnixDeadline(now: Time, unixSeconds: u64): Time {
    if unixSeconds * SECOND <= MAX_TIME then unixSeconds * SECOND else now
  }

  /** The entry that a write wants to store, with the reply it gives when accepted. */
  datatype Write = Write(key: Key, entry: Entry, reply: Reply)

  function Pushed(items: seq<Bytes>, values: seq<Bytes>, side: Side): seq<Bytes> {
    if side.Left? then Reverse(values) + items else items + values
  }

  function Attempt(db: Db, op: Op): Option<Write> {
    match op
    case Set(key, value) => Some(Write(key, Entry(Text(value), None), Done))
    case Push(key, values, side) =>
      if key !in db then
        var items := Pushed([], values, side);
        Some(Write(key, Entry(List(items), None), Count(|items|)))
      else if db[key].value.List? then
        var items := Pushed(db[key].value.items, values, side);
        Some(Write(key, Entry(List(items), db[key].expiresAt), Count(|items|)))
      else None
    case _ => None
  }

  ghost predicate Fits(cfg: StoreConfig, db: Db) {
    cfg.maxMemory.Some? ==> Footprint(db) <= cfg.maxMemory.value
  }

  /** Whether eviction has to run, and can succeed, after storing `key` in `full`. */
  ghost predicate Evicts(cfg: StoreConfig, full: Db, key: Key)
    requires key in full
  {
    !Fits(cfg, full) && cfg.policy.AllKeysRandom? && Fits(cfg, map[key := full[key]])
  }

  /** A victim set that the eviction loop can produce, in any order of choice: it spares
      the protected key, makes room, and its last member was needed. */
  ghost predicate IsVictimSet(full: Db, key: Key, limit: nat, victims: set<Key>) {
    && victims <= full.Keys - {key}
    && Footprint(full - victims) <= limit
    && exists last: Key :: last in victims && Footprint(full - (victims - {last})) > limit
  }

  /** What random eviction may have removed for the operation; nothing when it did not run. */
  ghost predicate Chosen(cfg: StoreConfig, db: Db, op: Op, victims: set<Key>) {
    match Attempt(db, op)
    case None => victims == {}
    case Some(w) =>
      var full := db[w.key := w.entry];
      if Evicts(cfg, full, w.key) then IsVictimSet(full, w.key, cfg.maxMemory.value, victims)
      else victims == {}
  }

  ghost function Commit(cfg: StoreConfig, s: Store, w: Write, victims: set<Key>): Outcome {
    var full := s.db[w.key := w.entry];
    if Fits(cfg, full) then Outcome(s.(db := full), w.reply)
    else if Evicts(cfg, full, w.key) then
      Outcome(s.(db := full - victims, evicted := s.evicted + |victims|), w.reply)
    else Outcome(s.(rejected := s.rejected + 1), Failed(OutOfMemory))
  }

  function Schedule(s: Store, key: Key, deadline: Time, now: Time): Outcome {
    if key !in s.db then Outcome(s, Flag(false))
    else if deadline <= now then Outcome(s.(db := s.db - {key}), Flag(true))
    else Outcome(s.(db := s.db[key := s.db[key].(expiresAt := Some(deadline))]), Flag(true))
  }

  function PopFrom(s: Store, key: Key, side: Side): Outcome {
    if key !in s.db then Outcome(s, Found(None))
    else if s.db[key].value.Text? then Outcome(s, Failed(WrongType))
    else
      var items := s.db[key].value.items;
      if items == [] then Outcome(s.(db := s.db - {key}), Found(None))
      else
        var popped := if side.Left? then items[0] else items[|items| - 1];
        var left := if side.Left? then items[1..] else items[..|items| - 1];
        Outcome(
          s.(db := if left == [] then s.db - {key} else s.db[key := s.db[key].(value := List(left))]),
          Found(Some(popped)))
  }

  /** A possibly negative index, counted from the end, as a position. */
  function Resolve(length: nat, index: int): int {
    if index < 0 then length + index else index
  }

  /** The elements at the positions from `lo` to `hi` that exist. */
  function Between(items: seq<Bytes>, lo: int, hi: int): seq<Bytes> {
    var first := if lo < 0 then 0 else lo;
    var last := Min(hi, |items| - 1);
    if first <= last then items[first..last + 1] else []
  }

  function Slice(items: seq<Bytes>, start: int, stop: int): seq<Bytes> {
    Between(items, Resolve(|items|, start), Resolve(|items|, stop))
  }

  function CountPresent(keys: seq<Key>, db: Db): nat {
    if keys == [] then 0
    else (if keys[0] in db then 1 else 0) + CountPresent(keys[1..], db)
  }

  ghost function StatsOf(cfg: StoreConfig, s: Store): StoreStats {
    StoreStats(
      |s.db|, Sum(s.db, IsText), Sum(s.db, IsList), Sum(s.db, IsExpiring), Sum(s.db, KeyBytes),
      Sum(s.db, PayloadBytes), Footprint(s.db), Sum(s.db, ItemCount), cfg.maxMemory, cfg.policy,
      s.expired, s.evicted, s.rejected)
  }

  function TtlSeconds(entry: Entry, now: Time): i64 {
    match entry.expiresAt
    case None => -1
    case Some(deadline) => if deadline < now then 0 else Min((deadline - now) / SECOND, I64_MAX)
  }

  function RowOf(key: Key, entry: Entry, now: Time): KeyInspection {
    KeyInspection(
      key, entry.value.TypeName(), TtlSeconds(entry, now), entry.value.PayloadBytes(),
      EntryBytes(key, entry), entry.value.ListItems())
  }

  lemma {:induction false} LeastExists(keys: set<Key>) returns (least: Key)
    requires keys != {}
    ensures least in keys && forall k: Key :: k in keys ==> Leq(least, k)
    decreases |keys|
  {
    var k: Key :| k in keys;
    var rest := keys - {k};
    LeqTotal(k, k);
    if rest == {} {
      assert keys == {k};
      least := k;
    } else {
      var other := LeastExists(rest);
      LeqTotal(k, other);
      least := if Leq(k, other) then k else other;
      forall j: Key | j in keys
        ensures Leq(least, j)
      {
        if j != k {
          assert j in rest;
          if Leq(k, other) {
            LeqTransitive(k, other, j);
          }
        }
      }
    }
  }

  function LeastKey(keys: set<Key>): (least: Key)
    requires keys != {}
    ensures least in keys && forall k: Key :: k in keys ==> Leq(least, k)
  {
    assert exists least: Key :: least in keys && forall k: Key :: k in keys ==> Leq(least, k) by {
      var _ := LeastExists(keys);
    }
    assert forall a, b :: Leq(a, b) && Leq(b, a) ==> a == b by {
      forall a, b ensures Leq(a, b) && Leq(b, a) ==> a == b { LeqTotal(a, b); }
    }
    var least: Key :| least in keys && forall k: Key :: k in keys ==> Leq(least, k);
    least
  }

  function SortedKeys(keys: set<Key>): (sorted: seq<Key>)
    ensures |sorted| == |keys| && KeySet(sorted) == keys
    decreases |keys|
  {
    if keys == {} then []
    else
      var least := LeastKey(keys);
      var later := SortedKeys(keys - {least});
      assert KeySet([least] + later) == {least} + KeySet(later);
      [least] + later
  }

  function AllRows(db: Db, now: Time): seq<KeyInspection> {
    var keys := SortedKeys(db.Keys);
    seq(|keys|, i requires 0 <= i < |keys| =>
      assert keys[i] in KeySet(keys);
      RowOf(keys[i], db[keys[i]], now))
  }

  ghost function Plain(cfg: StoreConfig, s: Store, op: Op, now: Time, victims: set<Key>): Outcome {
    match op
    case Set(_, _) => Commit(cfg, s, Attempt(s.db, op).value, victims)
    case Push(_, _, _) =>
      if Attempt(s.db, op).Some? then Commit(cfg, s, Attempt(s.db, op).value, victims)
      else Outcome(s, Failed(WrongType))
    case Get(key) =>
      Outcome(s,
        if key !in s.db then Found(None)
        else if s.db[key].value.Text? then Found(Some(s.db[key].value.bytes))
        else Failed(WrongType))
    case Del(keys) =>
      Outcome(s.(db := s.db - KeySet(keys)), Count(|s.db.Keys * KeySet(keys)|))
    case Exists(keys) => Outcome(s, Count(CountPresent(keys, s.db)))
    case Expire(key, seconds) => Schedule(s, key, Deadline(now, seconds), now)
    case ExpireAt(key, unixSeconds) => Schedule(s, key, UnixDeadline(now, unixSeconds), now)
    case TtlOf(key) =>
      Outcome(s, Lifetime(
        if key !in s.db then Missing
        else match s.db[key].expiresAt
             case None => NoExpiration
             case Some(deadline) => Seconds(if deadline < now then 0 else (deadline - now) / SECOND)))
    case Persist(key) =>
      if key in s.db && s.db[key].expiresAt.Some? then
        Outcome(s.(db := s.db[key := s.db[key].(expiresAt := None)]), Flag(true))
      else Outcome(s, Flag(false))
    case Pop(key, side) => PopFrom(s, key, side)
    case Lrange(key, start, stop) =>
      Outcome(s,
        if key !in s.db then Elements([])
        else if s.db[key].value.Text? then Failed(WrongType)
        else Elements(Slice(s.db[key].value.items, start, stop)))
    case Stats => Outcome(s, Snapshot(StatsOf(cfg, s)))
    case Inspect(limit) =>
      Outcome(s, Rows(
        if limit == 0 then []
        else var rows := AllRows(s.db, now); if limit < |rows| then rows[..limit] else rows))
    case Sweep => Outcome(s, Done)
  }

  /** One operation on a store at one reading of the clock. */
  ghost function Apply(cfg: StoreConfig, s: Store, op: Op, now: Time, victims: set<Key>): Outcome {
    var visited := Visit(s, op, now);
    if op.Sweep? then Outcome(visited, Count(visited.expired - s.expired))
    else Plain(cfg, visited, op, now, victims)
  }

  // ---- sums over the keyspace ----

  lemma RemoveTwo(db: Db, j: Key, k: Key)
    requires j in db && k in db && j != k
    ensures db - {j} - {k} == db - {k} - {j}
    ensures k in db - {j} && (db - {j})[k] == db[k]
    ensures j in db - {k} && (db - {k})[j] == db[j]
    ensures |db - {j}| < |db| && |db - {k}| < |db|
  {
    assert (db - {j}).Keys == db.Keys - {j} && (db - {k}).Keys == db.Keys - {k};
  }

  lemma {:induction false} SumStep(db: Db, weight: (Key, Entry) -> nat, k: Key)
    requires k in db
    ensures Sum(db, weight) == weight(k, db[k]) + Sum(db - {k}, weight)
    decreases |db|
  {
    var j: Key :| j in db && Sum(db, weight) == weight(j, db[j]) + Sum(db - {j}, weight);
    if j != k {
      RemoveTwo(db, j, k);
      SumStep(db - {j}, weight, k);
      SumStep(db - {k}, weight, j);
    }
  }

  lemma SumUpdate(db: Db, weight: (Key, Entry) -> nat, k: Key, e: Entry)
    ensures Sum(db[k := e], weight) == weight(k, e) + Sum(db - {k}, weight)
  {
    SumStep(db[k := e], weight, k);
    assert db[k := e] - {k} == db - {k};
  }

  lemma {:induction false} SumRemove(db: Db, weight: (Key, Entry) -> nat, keys: set<Key>)
    ensures Sum(db - keys, weight) <= Sum(db, weight)
    decreases |db|
  {
    if exists k: Key :: k in db && k in keys {
      var k: Key :| k in db && k in keys;
      SumStep(db, weight, k);
      SumRemove(db - {k}, weight, keys);
      assert db - {k} - keys == db - keys;
    } else {
      assert db - keys == db;
    }
  }
}
