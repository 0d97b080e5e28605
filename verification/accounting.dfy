/** What the byte accounting and the statistics count, said of the entries themselves. */
module Accounting {
  import opened ByteStrings
  import opened StoreModel
  import StoreTheorems

  // ---- the bytes of a value ----

  /** The items one after the other. */
  function Concat(items: seq<Bytes>): Bytes {
    if items == [] then [] else items[0] + Concat(items[1..])
  }

  /** The sum of the lengths is the length of it all. */
  lemma {:induction false} LengthSumIsBytes(items: seq<Bytes>, overhead: nat)
    ensures LengthSum(items, overhead) == |Concat(items)| + overhead * |items|
  {
    if items != [] {
      LengthSumIsBytes(items[1..], overhead);
      assert overhead * |items| == overhead * |items[1..]| + overhead;
    }
  }

  /** What an entry takes by the rules: 64 bytes, its key, and its text, or its items with 24
      bytes for each. */
  function Taken(key: Key, entry: Entry): nat {
    64 + |key| + match entry.value
                 case Text(bytes) => |bytes|
                 case List(items) => |Concat(items)| + 24 * |items|
  }

  lemma EntryTakes(key: Key, entry: Entry)
    ensures EntryBytes(key, entry) == Taken(key, entry)
  {
    if entry.value.List? {
      LengthSumIsBytes(entry.value.items, LIST_ITEM_OVERHEAD);
    }
  }

  /** The estimate of an empty keyspace is 0, and a new entry adds what it takes: this says
      what the estimate of every keyspace is. */
  lemma EstimateAdds(db: Db, k: Key, bytes: Bytes, items: seq<Bytes>, deadline: Option<Time>)
    requires k !in db
    ensures Footprint(map[]) == 0
    ensures Footprint(db[k := Entry(Text(bytes), deadline)]) == Footprint(db) + 64 + |k| + |bytes|
    ensures Footprint(db[k := Entry(List(items), deadline)]) ==
            Footprint(db) + 64 + |k| + 24 * |items| + |Concat(items)|
  {
    StoreTheorems.AddEntry(db, k, Entry(Text(bytes), deadline));
    StoreTheorems.AddEntry(db, k, Entry(List(items), deadline));
    LengthSumIsBytes(items, LIST_ITEM_OVERHEAD);
  }

  lemma OneWithinAll(db: Db, k: Key)
    requires k in db
    ensures Taken(k, db[k]) <= Footprint(db)
  {
    SumStep(db, EntryBytes, k);
    EntryTakes(k, db[k]);
  }

  /** Along every run under a limit no entry takes more than the limit, the bytes of its value
      counted one by one. */
  lemma EntriesStayWithinLimit(cfg: StoreConfig, events: seq<StoreTheorems.Event>, db: Db, k: Key)
    requires StoreTheorems.IsRun(cfg, EMPTY, events) && cfg.maxMemory.Some?
    requires db == StoreTheorems.Run(cfg, EMPTY, events).db && k in db
    ensures Taken(k, db[k]) <= cfg.maxMemory.value
  {
    StoreTheorems.LimitInvariant(cfg, events);
    OneWithinAll(db, k);
  }

  // ---- the statistics ----

  /** The keys in some order, as a map is walked through. */
  ghost predicate Walks(keys: seq<Key>, db: Db) {
    |keys| == |db| && KeySet(keys) == db.Keys
  }

  function Payload(entry: Entry): Bytes {
    match entry.value
    case Text(bytes) => bytes
    case List(items) => Concat(items)
  }

  function Items(entry: Entry): seq<Bytes> {
    match entry.value
    case Text(_) => []
    case List(items) => items
  }

  /** All payloads along a walk. */
  ghost function Payloads(keys: seq<Key>, db: Db): Bytes
    requires KeySet(keys) <= db.Keys
  {
    if keys == [] then []
    else
      assert keys[0] in KeySet(keys);
      assert KeySet(keys[1..]) <= KeySet(keys);
      Payload(db[keys[0]]) + Payloads(keys[1..], db)
  }

  /** All list items along a walk. */
  ghost function AllItems(keys: seq<Key>, db: Db): seq<Bytes>
    requires KeySet(keys) <= db.Keys
  {
    if keys == [] then []
    else
      assert keys[0] in KeySet(keys);
      assert KeySet(keys[1..]) <= KeySet(keys);
      Items(db[keys[0]]) + AllItems(keys[1..], db)
  }

  lemma WalkOn(keys: seq<Key>, db: Db)
    requires Walks(keys, db) && keys != []
    ensures keys[0] in db && Walks(keys[1..], db - {keys[0]})
  {
    assert keys == [keys[0]] + keys[1..];
    assert keys[0] in KeySet(keys) && KeySet(keys) == {keys[0]} + KeySet(keys[1..]);
    assert (db - {keys[0]}).Keys == db.Keys - {keys[0]};
    if keys[0] in KeySet(keys[1..]) {
      assert KeySet(keys[1..]) == db.Keys;
      FewKeys(keys[1..]);
    }
  }

  lemma {:induction false} FewKeys(keys: seq<Key>)
    ensures |KeySet(keys)| <= |keys|
  {
    if keys != [] {
      FewKeys(keys[1..]);
      assert keys == [keys[0]] + keys[1..];
      assert KeySet(keys) == {keys[0]} + KeySet(keys[1..]);
    }
  }

  lemma {:induction false} WalkWithout(keys: seq<Key>, db: Db, k: Key)
    requires KeySet(keys) <= db.Keys - {k}
    ensures KeySet(keys) <= (db - {k}).Keys
    ensures Payloads(keys, db) == Payloads(keys, db - {k}) && AllItems(keys, db) == AllItems(keys, db - {k})
  {
    if keys != [] {
      assert keys[0] in KeySet(keys) && KeySet(keys[1..]) <= KeySet(keys);
      WalkWithout(keys[1..], db, k);
    }
  }

  lemma EntryCounts(key: Key, entry: Entry)
    ensures PayloadBytes(key, entry) == |Payload(entry)| && ItemCount(key, entry) == |Items(entry)|
    ensures EntryBytes(key, entry) == 64 + |key| + |Payload(entry)| + 24 * |Items(entry)|
  {
    EntryTakes(key, entry);
    if entry.value.List? {
      LengthSumIsBytes(entry.value.items, 0);
    }
  }

  /** The sums along any walk. */
  lemma {:induction false} SumsAlongWalk(keys: seq<Key>, db: Db)
    requires Walks(keys, db)
    ensures Sum(db, KeyBytes) == |Concat(keys)|
    ensures Sum(db, PayloadBytes) == |Payloads(keys, db)| && Sum(db, ItemCount) == |AllItems(keys, db)|
    ensures Footprint(db) == 64 * |keys| + |Concat(keys)| + |Payloads(keys, db)| + 24 * |AllItems(keys, db)|
    decreases |keys|
  {
    if keys == [] {
      assert db == map[];
    } else {
      var k := keys[0];
      WalkOn(keys, db);
      SumsAlongWalk(keys[1..], db - {k});
      WalkWithout(keys[1..], db, k);
      EntryCounts(k, db[k]);
      SumStep(db, KeyBytes, k);
      SumStep(db, PayloadBytes, k);
      SumStep(db, ItemCount, k);
      SumStep(db, EntryBytes, k);
    }
  }

  function OfKind(db: Db, kind: (Key, Entry) -> bool): set<Key> {
    set k: Key | k in db && kind(k, db[k])
  }

  lemma OneMoreOfKind(db: Db, kind: (Key, Entry) -> bool, k: Key)
    requires k in db
    ensures |OfKind(db, kind)| == |OfKind(db - {k}, kind)| + if kind(k, db[k]) then 1 else 0
  {
    var rest := OfKind(db - {k}, kind);
    assert OfKind(db, kind) == rest + if kind(k, db[k]) then {k} else {};
  }

  /** A sum of ones counts the keys whose entries weigh one. */
  lemma {:induction false} SumCounts(db: Db, weight: (Key, Entry) -> nat, kind: (Key, Entry) -> bool)
    requires forall k: Key, e: Entry :: weight(k, e) == if kind(k, e) then 1 else 0
    ensures Sum(db, weight) == |OfKind(db, kind)|
    decreases |db|
  {
    if db.Keys == {} {
      assert db == map[] && OfKind(db, kind) == {};
    } else {
      var k: Key :| k in db;
      assert (db - {k}).Keys == db.Keys - {k};
      SumCounts(db - {k}, weight, kind);
      SumStep(db, weight, k);
      OneMoreOfKind(db, kind, k);
    }
  }

  lemma TextsCounted(db: Db)
    ensures Sum(db, IsText) == |set k: Key | k in db && db[k].value.Text?|
  {
    var kind := (k: Key, e: Entry) => e.value.Text?;
    SumCounts(db, IsText, kind);
    assert OfKind(db, kind) == set k: Key | k in db && db[k].value.Text?;
  }

  lemma ListsCounted(db: Db)
    ensures Sum(db, IsList) == |set k: Key | k in db && db[k].value.List?|
  {
    var kind := (k: Key, e: Entry) => e.value.List?;
    SumCounts(db, IsList, kind);
    assert OfKind(db, kind) == set k: Key | k in db && db[k].value.List?;
  }

  lemma DatedCounted(db: Db)
    ensures Sum(db, IsExpiring) == |set k: Key | k in db && db[k].expiresAt.Some?|
  {
    var kind := (k: Key, e: Entry) => e.expiresAt.Some?;
    SumCounts(db, IsExpiring, kind);
    assert OfKind(db, kind) == set k: Key | k in db && db[k].expiresAt.Some?;
  }

  lemma ReportIs(cfg: StoreConfig, s: Store, now: Time, db: Db)
    requires db == Live(s.db, now)
    ensures Apply(cfg, s, Stats, now, {}).reply ==
            Snapshot(StatsOf(cfg, s.(db := db, expired := s.expired + |s.db.Keys - db.Keys|)))
  {
  }

  lemma ExpiredKeys(s: Db, now: Time)
    ensures s.Keys - Live(s, now).Keys ==
            set k: Key | k in s && s[k].expiresAt.Some? && s[k].expiresAt.value <= now
  {
  }

  /** What a report counts, by kind: the live entries and nothing else, whatever the order in
      which they are walked through; and the counters are those of the store. */
  lemma ReportCounts(cfg: StoreConfig, s: Store, now: Time, db: Db, keys: seq<Key>, stats: StoreStats)
    requires db == Live(s.db, now) && Walks(keys, db)
    requires Apply(cfg, s, Stats, now, {}).reply == Snapshot(stats)
    ensures stats.totalKeys == |keys|
    ensures stats.stringKeys == |set k: Key | k in db && db[k].value.Text?|
    ensures stats.listKeys == |set k: Key | k in db && db[k].value.List?|
    ensures stats.expiringKeys == |set k: Key | k in db && db[k].expiresAt.Some?|
    ensures stats.keyBytes == |Concat(keys)| && stats.payloadBytes == |Payloads(keys, db)|
    ensures stats.listItems == |AllItems(keys, db)|
    ensures stats.estimatedBytes ==
            64 * |keys| + |Concat(keys)| + |Payloads(keys, db)| + 24 * |AllItems(keys, db)|
    ensures stats.maxMemory == cfg.maxMemory && stats.policy == cfg.policy
    ensures stats.expired ==
            s.expired + |set k: Key | k in s.db && s.db[k].expiresAt.Some? && s.db[k].expiresAt.value <= now|
    ensures stats.evicted == s.evicted && stats.rejected == s.rejected
  {
    ReportIs(cfg, s, now, db);
    ExpiredKeys(s.db, now);
    SumsAlongWalk(keys, db);
    TextsCounted(db);
    ListsCounted(db);
    DatedCounted(db);
  }

  /** There is a walk through every keyspace. */
  lemma SomeWalk(db: Db) returns (keys: seq<Key>)
    ensures Walks(keys, db)
  {
    keys := SortedKeys(db.Keys);
  }
}
