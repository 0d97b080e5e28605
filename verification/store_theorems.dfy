/** What the storage engine promises, over single operations and over whole runs. */
module StoreTheorems {
  import opened ByteStrings
  import opened StoreModel

  // ---- runs ----

  datatype Event = Event(op: Op, now: Time, victims: set<Key>)

  ghost function Step(cfg: StoreConfig, s: Store, e: Event): Outcome {
    Apply(cfg, s, e.op, e.now, e.victims)
  }

  ghost predicate Legal(cfg: StoreConfig, s: Store, e: Event) {
    Chosen(cfg, Visit(s, e.op, e.now).db, e.op, e.victims)
  }

  ghost function Run(cfg: StoreConfig, s: Store, events: seq<Event>): Store
    decreases |events|
  {
    if events == [] then s else Run(cfg, Step(cfg, s, events[0]).store, events[1..])
  }

  /** Every eviction along the run removed what the loop could have removed. */
  ghost predicate IsRun(cfg: StoreConfig, s: Store, events: seq<Event>)
    decreases |events|
  {
    events == [] || (Legal(cfg, s, events[0]) && IsRun(cfg, Step(cfg, s, events[0]).store, events[1..]))
  }

  lemma {:induction false} RunConcat(cfg: StoreConfig, s: Store, a: seq<Event>, b: seq<Event>)
    ensures Run(cfg, s, a + b) == Run(cfg, Run(cfg, s, a), b)
    ensures IsRun(cfg, s, a + b) <==> IsRun(cfg, s, a) && IsRun(cfg, Run(cfg, s, a), b)
    decreases |a|
  {
    if a == [] {
      assert a + b == b;
    } else {
      assert (a + b)[1..] == a[1..] + b && (a + b)[0] == a[0];
      RunConcat(cfg, Step(cfg, s, a[0]).store, a[1..], b);
    }
  }

  // ---- accounting ----

  lemma {:induction false} ListOverhead(items: seq<Bytes>, overhead: nat)
    ensures LengthSum(items, overhead) == LengthSum(items, 0) + overhead * |items|
  {
    if items != [] {
      ListOverhead(items[1..], overhead);
      assert overhead * |items| == overhead * |items[1..]| + overhead;
    }
  }

  lemma EntryBytesSplit(key: Key, entry: Entry)
    ensures EntryBytes(key, entry) == ENTRY_OVERHEAD + KeyBytes(key, entry) + PayloadBytes(key, entry)
                                      + LIST_ITEM_OVERHEAD * ItemCount(key, entry)
  {
    if entry.value.List? {
      ListOverhead(entry.value.items, LIST_ITEM_OVERHEAD);
    }
  }

  /** The sum that the limit is checked against is determined by the other statistics. */
  lemma {:induction false} FootprintSplit(db: Db)
    ensures Footprint(db) == ENTRY_OVERHEAD * |db| + Sum(db, KeyBytes) + Sum(db, PayloadBytes)
                             + LIST_ITEM_OVERHEAD * Sum(db, ItemCount)
    ensures Sum(db, IsText) + Sum(db, IsList) == |db|
    ensures Sum(db, IsExpiring) <= |db|
    decreases |db|
  {
    if db.Keys != {} {
      var k: Key :| k in db;
      assert (db - {k}).Keys == db.Keys - {k};
      FootprintSplit(db - {k});
      EntryBytesSplit(k, db[k]);
      SumStep(db, EntryBytes, k);
      SumStep(db, KeyBytes, k);
      SumStep(db, PayloadBytes, k);
      SumStep(db, ItemCount, k);
      SumStep(db, IsText, k);
      SumStep(db, IsList, k);
      SumStep(db, IsExpiring, k);
    } else {
      assert db == map[];
    }
  }

  /** Conservation in a statistics report, for every keyspace; and the report's estimate
      is the very number that writes are admitted by. */
  lemma StatsConservation(cfg: StoreConfig, s: Store, now: Time)
    ensures var reply := Apply(cfg, s, Stats, now, {}).reply;
            && reply.Snapshot?
            && var stats := reply.stats;
            && stats.totalKeys == |Live(s.db, now)|
            && stats.stringKeys + stats.listKeys == stats.totalKeys
            && stats.expiringKeys <= stats.totalKeys
            && stats.estimatedBytes ==
               64 * stats.totalKeys + stats.keyBytes + stats.payloadBytes + 24 * stats.listItems
            && (Fits(cfg, Live(s.db, now)) <==> (cfg.maxMemory.Some? ==> stats.estimatedBytes <= cfg.maxMemory.value))
            && stats.expired == s.expired + |s.db.Keys - Live(s.db, now).Keys|
  {
    FootprintSplit(Live(s.db, now));
  }

  // ---- the memory limit ----

  lemma PurgeShrinks(cfg: StoreConfig, db: Db, keys: set<Key>, now: Time)
    requires Fits(cfg, db)
    ensures Fits(cfg, Purge(db, keys, now))
  {
    var gone := set k: Key | k in db && k in keys && db[k].Expired(now);
    assert Purge(db, keys, now) == db - gone;
    SumRemove(db, EntryBytes, gone);
  }

  lemma ReplaceSmaller(cfg: StoreConfig, db: Db, key: Key, entry: Entry)
    requires Fits(cfg, db) && key in db
    requires EntryBytes(key, entry) <= EntryBytes(key, db[key])
    ensures Fits(cfg, db[key := entry])
  {
    SumStep(db, EntryBytes, key);
    SumUpdate(db, EntryBytes, key, entry);
  }

  lemma {:induction false} LengthSumConcat(a: seq<Bytes>, b: seq<Bytes>, overhead: nat)
    ensures LengthSum(a + b, overhead) == LengthSum(a, overhead) + LengthSum(b, overhead)
  {
    if a == [] {
      assert a + b == b;
    } else {
      assert (a + b)[1..] == a[1..] + b;
      LengthSumConcat(a[1..], b, overhead);
    }
  }

  lemma PopKeepsLimit(cfg: StoreConfig, s: Store, key: Key, side: Side)
    requires Fits(cfg, s.db)
    ensures Fits(cfg, PopFrom(s, key, side).store.db)
  {
    SumRemove(s.db, EntryBytes, {key});
    if key in s.db && s.db[key].value.List? && s.db[key].value.items != [] {
      var items := s.db[key].value.items;
      ShorterList(items, 1);
      ShorterList(items, |items| - 1);
      var left := if side.Left? then items[1..] else items[..|items| - 1];
      ReplaceSmaller(cfg, s.db, key, s.db[key].(value := List(left)));
    }
  }

  lemma ShorterList(items: seq<Bytes>, n: nat)
    requires n <= |items|
    ensures LengthSum(items[..n], LIST_ITEM_OVERHEAD) <= LengthSum(items, LIST_ITEM_OVERHEAD)
    ensures LengthSum(items[n..], LIST_ITEM_OVERHEAD) <= LengthSum(items, LIST_ITEM_OVERHEAD)
  {
    LengthSumConcat(items[..n], items[n..], LIST_ITEM_OVERHEAD);
    assert items == items[..n] + items[n..];
  }

  lemma PlainKeepsLimit(cfg: StoreConfig, s: Store, op: Op, now: Time, victims: set<Key>)
    requires Fits(cfg, s.db) && Chosen(cfg, s.db, op, victims)
    ensures Fits(cfg, Plain(cfg, s, op, now, victims).store.db)
  {
    match op {
      case Pop(key, side) => PopKeepsLimit(cfg, s, key, side);
      case Del(keys) => SumRemove(s.db, EntryBytes, KeySet(keys));
      case Expire(key, seconds) => ScheduleKeepsLimit(cfg, s, key, Deadline(now, seconds), now);
      case ExpireAt(key, unixSeconds) => ScheduleKeepsLimit(cfg, s, key, UnixDeadline(now, unixSeconds), now);
      case Persist(key) =>
        if key in s.db {
          ReplaceSmaller(cfg, s.db, key, s.db[key].(expiresAt := None));
        }
      case _ =>
    }
  }

  lemma ScheduleKeepsLimit(cfg: StoreConfig, s: Store, key: Key, deadline: Time, now: Time)
    requires Fits(cfg, s.db)
    ensures Fits(cfg, Schedule(s, key, deadline, now).store.db)
  {
    SumRemove(s.db, EntryBytes, {key});
    if key in s.db {
      ReplaceSmaller(cfg, s.db, key, s.db[key].(expiresAt := Some(deadline)));
    }
  }

  lemma StepKeepsLimit(cfg: StoreConfig, s: Store, e: Event)
    requires Fits(cfg, s.db) && Legal(cfg, s, e)
    ensures Fits(cfg, Step(cfg, s, e).store.db)
  {
    var keys := if VisitsAll(e.op) then s.db.Keys else Named(e.op);
    PurgeShrinks(cfg, s.db, keys, e.now);
    if !e.op.Sweep? {
      PlainKeepsLimit(cfg, Visit(s, e.op, e.now), e.op, e.now, e.victims);
    }
  }

  /** From an empty store the estimate never exceeds the limit, whatever the operations,
      the clock and the random choices. */
  lemma LimitInvariant(cfg: StoreConfig, events: seq<Event>)
    requires IsRun(cfg, EMPTY, events)
    ensures Fits(cfg, Run(cfg, EMPTY, events).db)
  {
    LimitKept(cfg, EMPTY, events);
  }

  lemma {:induction false} LimitKept(cfg: StoreConfig, s: Store, events: seq<Event>)
    requires Fits(cfg, s.db) && IsRun(cfg, s, events)
    ensures Fits(cfg, Run(cfg, s, events).db)
    decreases |events|
  {
    if events != [] {
      StepKeepsLimit(cfg, s, events[0]);
      LimitKept(cfg, Step(cfg, s, events[0]).store, events[1..]);
    }
  }

  // ---- eviction and rejected writes ----

  /** Some victim set always exists: no write is stuck, and no statement about legal
      runs is empty. */
  lemma ChoiceExists(cfg: StoreConfig, db: Db, op: Op) returns (victims: set<Key>)
    ensures Chosen(cfg, db, op, victims)
  {
    victims := {};
    match Attempt(db, op) {
      case None =>
      case Some(w) =>
        var full := db[w.key := w.entry];
        if Evicts(cfg, full, w.key) {
          assert full - {} == full;
          victims := MakeRoom(full, w.key, cfg.maxMemory.value, {});
        }
    }
  }

  lemma OnlyKey(db: Db, key: Key)
    requires key in db && db.Keys - {key} == {}
    ensures db == map[key := db[key]]
  {
    assert db.Keys == {key};
  }

  lemma MakeRoom(full: Db, key: Key, limit: nat, done: set<Key>) returns (victims: set<Key>)
    requires key in full && done <= full.Keys - {key}
    requires Footprint(full - done) > limit && Footprint(map[key := full[key]]) <= limit
    ensures IsVictimSet(full, key, limit, victims) && done <= victims
    decreases |full.Keys - done|
  {
    var left := full - done;
    assert key in left;
    if left.Keys - {key} == {} {
      OnlyKey(left, key);
    }
    var next: Key :| next in left.Keys - {key};
    assert full - (done + {next}) == left - {next};
    assert done + {next} - {next} == done;
    if Footprint(full - (done + {next})) <= limit {
      victims := done + {next};
      assert next in victims;
    } else {
      assert full.Keys - (done + {next}) == full.Keys - done - {next};
      victims := MakeRoom(full, key, limit, done + {next});
    }
  }

  /** How a write ends does not depend on the victims chosen: it is rejected exactly when
      the keyspace would be too large and nothing may be evicted or the new entry alone
      is too large; when it is accepted only victims are gone and the limit holds. */
  lemma WriteOutcome(cfg: StoreConfig, s: Store, e: Event, w: Write)
    requires Legal(cfg, s, e)
    requires Attempt(Visit(s, e.op, e.now).db, e.op) == Some(w)
    ensures var full := Visit(s, e.op, e.now).db[w.key := w.entry];
            var after := Step(cfg, s, e);
            && (after.reply == Failed(OutOfMemory) <==>
                  !Fits(cfg, full) && (cfg.policy.NoEviction? || EntryBytes(w.key, w.entry) > cfg.maxMemory.value))
            && (after.reply != Failed(OutOfMemory) ==>
                  && after.reply == w.reply
                  && w.key in after.store.db && after.store.db[w.key] == w.entry
                  && after.store.db == full - e.victims
                  && e.victims == full.Keys - after.store.db.Keys
                  && after.store.evicted == s.evicted + |e.victims|
                  && Fits(cfg, after.store.db)
                  && (e.victims != {} ==>
                        exists last: Key :: last in e.victims && !Fits(cfg, full - (e.victims - {last}))))
  {
    AloneFits(cfg, w.key, w.entry);
    CommitOutcome(cfg, Visit(s, e.op, e.now), w, e.victims);
  }

  lemma AloneFits(cfg: StoreConfig, key: Key, entry: Entry)
    ensures Fits(cfg, map[key := entry]) <==> (cfg.maxMemory.Some? ==> EntryBytes(key, entry) <= cfg.maxMemory.value)
  {
    var none: Db := map[];
    SumUpdate(none, EntryBytes, key, entry);
    assert none[key := entry] == map[key := entry] && none - {key} == none;
  }

  lemma CommitOutcome(cfg: StoreConfig, s: Store, w: Write, victims: set<Key>)
    requires var full := s.db[w.key := w.entry];
             if Evicts(cfg, full, w.key) then IsVictimSet(full, w.key, cfg.maxMemory.value, victims) else victims == {}
    requires w.reply != Failed(OutOfMemory)
    ensures var full, after := s.db[w.key := w.entry], Commit(cfg, s, w, victims);
            && (after.reply == Failed(OutOfMemory) <==>
                  !Fits(cfg, full) && (cfg.policy.NoEviction? || !Fits(cfg, map[w.key := w.entry])))
            && (after.reply != Failed(OutOfMemory) ==>
                  && after.reply == w.reply
                  && w.key in after.store.db && after.store.db[w.key] == w.entry
                  && after.store.db == full - victims
                  && victims == full.Keys - after.store.db.Keys
                  && after.store.evicted == s.evicted + |victims|
                  && Fits(cfg, after.store.db)
                  && (victims != {} ==>
                        exists last: Key :: last in victims && !Fits(cfg, full - (victims - {last}))))
  {
    var full := s.db[w.key := w.entry];
    assert map[w.key := full[w.key]] == map[w.key := w.entry];
    assert full - {} == full;
  }

  /** A rejected write leaves the keyspace as it was, minus the target if it had expired. */
  lemma RejectedWriteRollsBack(cfg: StoreConfig, s: Store, e: Event)
    requires Step(cfg, s, e).reply.Failed?
    ensures !e.op.Del? && !VisitsAll(e.op) && Named(e.op) == {e.op.key}
    ensures Step(cfg, s, e).store.db ==
            if e.op.key in s.db && s.db[e.op.key].Expired(e.now) then s.db - {e.op.key} else s.db
    ensures Step(cfg, s, e).reply == Failed(OutOfMemory) ==>
              (e.op.Set? || e.op.Push?) && Step(cfg, s, e).store.rejected == s.rejected + 1
    ensures Step(cfg, s, e).reply == Failed(WrongType) ==> Step(cfg, s, e).store.rejected == s.rejected
    ensures Step(cfg, s, e).store.evicted == s.evicted
  {
    FailedPlain(cfg, Visit(s, e.op, e.now), e.op, e.now, e.victims);
    PurgeOne(s.db, e.op.key, e.now);
  }

  lemma FailedPlain(cfg: StoreConfig, s: Store, op: Op, now: Time, victims: set<Key>)
    requires Plain(cfg, s, op, now, victims).reply.Failed?
    ensures op.Set? || op.Push? || op.Get? || op.Pop? || op.Lrange?
    ensures Plain(cfg, s, op, now, victims) ==
            if (op.Set? || op.Push?) && Attempt(s.db, op).Some?
            then Outcome(s.(rejected := s.rejected + 1), Failed(OutOfMemory))
            else Outcome(s, Failed(WrongType))
  {
  }

  lemma PurgeOne(db: Db, key: Key, now: Time)
    ensures Purge(db, {key}, now) == if key in db && db[key].Expired(now) then db - {key} else db
  {
  }

  ghost function Rejections(cfg: StoreConfig, s: Store, events: seq<Event>): nat
    decreases |events|
  {
    if events == [] then 0
    else (if Step(cfg, s, events[0]).reply == Failed(OutOfMemory) then 1 else 0)
         + Rejections(cfg, Step(cfg, s, events[0]).store, events[1..])
  }

  function Victims(events: seq<Event>): nat {
    if events == [] then 0 else |events[0].victims| + Victims(events[1..])
  }

  /** Over a run the two counters are exactly the `OutOfMemory` replies and the keys
      evicted. */
  lemma {:induction false} CountersAreExact(cfg: StoreConfig, s: Store, events: seq<Event>)
    requires IsRun(cfg, s, events)
    ensures Run(cfg, s, events).rejected == s.rejected + Rejections(cfg, s, events)
    ensures Run(cfg, s, events).evicted == s.evicted + Victims(events)
    decreases |events|
  {
    if events != [] {
      CountersOfStep(cfg, s, events[0]);
      CountersAreExact(cfg, Step(cfg, s, events[0]).store, events[1..]);
    }
  }

  lemma CountersOfStep(cfg: StoreConfig, s: Store, e: Event)
    requires Legal(cfg, s, e)
    ensures Step(cfg, s, e).store.rejected ==
            s.rejected + if Step(cfg, s, e).reply == Failed(OutOfMemory) then 1 else 0
    ensures Step(cfg, s, e).store.evicted == s.evicted + |e.victims|
  {
    var v := Visit(s, e.op, e.now);
    assert v.rejected == s.rejected && v.evicted == s.evicted;
    if Attempt(v.db, e.op).Some? {
      CommitCounters(cfg, v, Attempt(v.db, e.op).value, e.victims);
    } else {
      CountersOfOthers(cfg, v, e.op, e.now);
    }
  }

  lemma CommitCounters(cfg: StoreConfig, s: Store, w: Write, victims: set<Key>)
    requires w.reply != Failed(OutOfMemory)
    requires victims == {} || Evicts(cfg, s.db[w.key := w.entry], w.key)
    ensures var after := Commit(cfg, s, w, victims);
            && after.store.rejected == s.rejected + (if after.reply == Failed(OutOfMemory) then 1 else 0)
            && after.store.evicted == s.evicted + |victims|
  {
  }

  lemma CountersOfOthers(cfg: StoreConfig, s: Store, op: Op, now: Time)
    requires Attempt(s.db, op).None?
    ensures var after := Plain(cfg, s, op, now, {});
            && after.store.rejected == s.rejected && after.store.evicted == s.evicted
            && after.reply != Failed(OutOfMemory)
  {
  }

  // ---- when the requests alone decide what is left ----

  predicate SameRequests(a: seq<Event>, b: seq<Event>) {
    |a| == |b| && forall i :: 0 <= i < |a| ==> a[i].op == b[i].op && a[i].now == b[i].now
  }

  /** The same requests at the same times always end in the same keyspace. */
  ghost predicate RequestsDecide(cfg: StoreConfig) {
    forall a: seq<Event>, b: seq<Event> ::
      IsRun(cfg, EMPTY, a) && IsRun(cfg, EMPTY, b) && SameRequests(a, b) ==>
        Run(cfg, EMPTY, a).db == Run(cfg, EMPTY, b).db
  }

  /** Nothing is evicted, or two keys never fit together. */
  predicate NoChoice(cfg: StoreConfig) {
    cfg.maxMemory.None? || cfg.policy.NoEviction? || cfg.maxMemory.value <= 2 * ENTRY_OVERHEAD
  }

  lemma OneKeyFits(db: Db, limit: nat, j: Key, k: Key)
    requires Footprint(db) <= limit <= 2 * ENTRY_OVERHEAD && j in db && k in db
    ensures j == k
  {
    if j != k {
      assert |j| + |k| > 0;
      SumStep(db, EntryBytes, j);
      RemoveTwo(db, j, k);
      SumStep(db - {j}, EntryBytes, k);
    }
  }

  lemma VictimsForced(cfg: StoreConfig, db: Db, op: Op, a: set<Key>, b: set<Key>)
    requires NoChoice(cfg) && Fits(cfg, db) && Chosen(cfg, db, op, a) && Chosen(cfg, db, op, b)
    ensures a == b
  {
    if a != {} && b != {} {
      var w := Attempt(db, op).value;
      var j: Key :| j in a;
      var k: Key :| k in b;
      forall x: Key | x in a || x in b
        ensures x == j
      {
        OneKeyFits(db, cfg.maxMemory.value, x, j);
      }
    }
  }

  lemma {:induction false} NoChoiceNoDoubt(cfg: StoreConfig, s: Store, a: seq<Event>, b: seq<Event>)
    requires NoChoice(cfg) && Fits(cfg, s.db) && IsRun(cfg, s, a) && IsRun(cfg, s, b) && SameRequests(a, b)
    ensures Run(cfg, s, a) == Run(cfg, s, b)
    decreases |a|
  {
    if a != [] {
      PurgeShrinks(cfg, s.db, if VisitsAll(a[0].op) then s.db.Keys else Named(a[0].op), a[0].now);
      VictimsForced(cfg, Visit(s, a[0].op, a[0].now).db, a[0].op, a[0].victims, b[0].victims);
      assert a[0] == b[0];
      StepKeepsLimit(cfg, s, a[0]);
      NoChoiceNoDoubt(cfg, Step(cfg, s, a[0]).store, a[1..], b[1..]);
    }
  }

  // ---- a choice that shows ----

  lemma AddEntry(db: Db, k: Key, e: Entry)
    requires k !in db
    ensures Footprint(db[k := e]) == EntryBytes(k, e) + Footprint(db)
  {
    SumUpdate(db, EntryBytes, k, e);
    assert db - {k} == db;
  }

  function Zeros(n: nat): Bytes {
    seq(n, _ => 0)
  }

  function Lasting(value: Bytes): Entry {
    Entry(Text(value), None)
  }

  const Y: Key := [121]
  const Z: Key := [122]

  /** The value that, under the empty key and beside one empty value under a key of one byte,
      fills the memory. */
  function Filler(limit: nat): (value: Bytes)
    requires limit > 2 * ENTRY_OVERHEAD
    ensures Fills(Lasting(value), limit)
  {
    Zeros(limit - 2 * ENTRY_OVERHEAD - 1)
  }

  /** The filler, with a deadline or without, and the other key. */
  function Full(filler: Entry): Db {
    map[[] := filler][Y := Lasting([])]
  }

  predicate Fills(filler: Entry, limit: nat) {
    EntryBytes([], filler) == limit - 65
  }

  lemma FullFills(limit: nat, filler: Entry)
    requires limit > 2 * ENTRY_OVERHEAD && Fills(filler, limit)
    ensures Footprint(map[[] := filler]) == limit - 65
    ensures Footprint(Full(filler)) == limit
    ensures Footprint(Full(filler)[Z := Lasting([])]) == limit + 65
    ensures Footprint(map[[] := filler][Z := Lasting([])]) == limit
    ensures Footprint(map[Y := Lasting([])][Z := Lasting([])]) == 130
    ensures Footprint(map[Z := Lasting([])]) == 65
  {
    var none: Db := map[];
    AddEntry(none, [], filler);
    AddEntry(none, Y, Lasting([]));
    AddEntry(none, Z, Lasting([]));
    assert none[[] := filler] == map[[] := filler] && none[Y := Lasting([])] == map[Y := Lasting([])];
    assert none[Z := Lasting([])] == map[Z := Lasting([])];
    AddEntry(map[[] := filler], Y, Lasting([]));
    AddEntry(map[[] := filler], Z, Lasting([]));
    AddEntry(Full(filler), Z, Lasting([]));
    AddEntry(map[Y := Lasting([])], Z, Lasting([]));
  }

  /** What makes room by sparing the filler, and what makes room by giving it up. */
  function Giving(limit: nat, gone: bool): set<Key> {
    if !gone then {Y} else if limit > 129 then {[]} else {[], Y}
  }

  lemma GivingIsPossible(limit: nat, filler: Entry, gone: bool)
    requires limit > 2 * ENTRY_OVERHEAD && Fills(filler, limit)
    ensures IsVictimSet(Full(filler)[Z := Lasting([])], Z, limit, Giving(limit, gone))
  {
    var full, victims := Full(filler)[Z := Lasting([])], Giving(limit, gone);
    FullFills(limit, filler);
    if !gone {
      assert full - victims == map[[] := filler][Z := Lasting([])];
      assert Y in victims && full - (victims - {Y}) == full;
    } else if limit > 129 {
      assert full - victims == map[Y := Lasting([])][Z := Lasting([])];
      assert [] in victims && full - (victims - {[]}) == full;
    } else {
      assert full - victims == map[Z := Lasting([])];
      assert Y in victims && full - (victims - {Y}) == map[Y := Lasting([])][Z := Lasting([])];
    }
  }

  predicate NoDeadlines(db: Db) {
    forall k: Key :: k in db ==> db[k].expiresAt == None
  }

  lemma SetStores(cfg: StoreConfig, s: Store, e: Event)
    requires e.op.Set? && NoDeadlines(s.db)
    requires var full := s.db[e.op.key := Lasting(e.op.value)];
             if Evicts(cfg, full, e.op.key) then IsVictimSet(full, e.op.key, cfg.maxMemory.value, e.victims)
             else Fits(cfg, full) && e.victims == {}
    ensures Legal(cfg, s, e)
    ensures Step(cfg, s, e).store.db == s.db[e.op.key := Lasting(e.op.value)] - e.victims
    ensures Step(cfg, s, e).reply == Done
  {
    assert Visit(s, e.op, e.now) == s;
    CommitAccepts(cfg, s, Write(e.op.key, Lasting(e.op.value), Done), e.victims);
  }

  lemma CommitAccepts(cfg: StoreConfig, s: Store, w: Write, victims: set<Key>)
    requires var full := s.db[w.key := w.entry]; Evicts(cfg, full, w.key) || (Fits(cfg, full) && victims == {})
    ensures Commit(cfg, s, w, victims).store.db == s.db[w.key := w.entry] - victims
    ensures Commit(cfg, s, w, victims).reply == w.reply
  {
    assert s.db[w.key := w.entry] - {} == s.db[w.key := w.entry];
  }

  /** The memory is filled, and then a third key comes. */
  function ThreeSets(limit: nat, now: Time, gone: bool): seq<Event>
    requires limit > 2 * ENTRY_OVERHEAD
  {
    [Event(Set([], Filler(limit)), now, {})]
    + ([Event(Set(Y, []), now, {})] + ([Event(Set(Z, []), now, Giving(limit, gone))] + []))
  }

  lemma RunCons(cfg: StoreConfig, s: Store, e: Event, rest: seq<Event>)
    ensures Run(cfg, s, [e] + rest) == Run(cfg, Step(cfg, s, e).store, rest)
    ensures IsRun(cfg, s, [e] + rest) <==> Legal(cfg, s, e) && IsRun(cfg, Step(cfg, s, e).store, rest)
  {
    assert ([e] + rest)[1..] == rest;
  }

  /** The configurations with room for two keys and a choice of victims. */
  predicate Choosing(cfg: StoreConfig, limit: nat) {
    cfg.maxMemory == Some(limit) && cfg.policy.AllKeysRandom? && limit > 2 * ENTRY_OVERHEAD
  }

  lemma FillerStored(cfg: StoreConfig, s: Store, limit: nat, e: Event)
    requires Choosing(cfg, limit) && s.db == map[] && e.op == Set([], Filler(limit)) && e.victims == {}
    ensures Legal(cfg, s, e) && Step(cfg, s, e).reply == Done
    ensures Step(cfg, s, e).store.db == map[[] := Lasting(Filler(limit))]
  {
    FullFills(limit, Lasting(Filler(limit)));
    var full := s.db[[] := Lasting(Filler(limit))];
    assert full == map[[] := Lasting(Filler(limit))] && full - {} == full;
    SetStores(cfg, s, e);
  }

  lemma MemoryFilled(cfg: StoreConfig, s: Store, limit: nat, e: Event)
    requires Choosing(cfg, limit) && s.db == map[[] := Lasting(Filler(limit))] && e.op == Set(Y, []) && e.victims == {}
    ensures Legal(cfg, s, e) && Step(cfg, s, e).reply == Done
    ensures Step(cfg, s, e).store.db == Full(Lasting(Filler(limit)))
  {
    FullFills(limit, Lasting(Filler(limit)));
    assert Full(Lasting(Filler(limit))) - {} == Full(Lasting(Filler(limit)));
    SetStores(cfg, s, e);
  }

  lemma ThirdStored(cfg: StoreConfig, s: Store, limit: nat, e: Event, gone: bool)
    requires Choosing(cfg, limit) && s.db == Full(Lasting(Filler(limit))) && e.op == Set(Z, [])
    requires e.victims == Giving(limit, gone)
    ensures Legal(cfg, s, e) && Step(cfg, s, e).reply == Done
    ensures Step(cfg, s, e).store.db == Full(Lasting(Filler(limit)))[Z := Lasting([])] - Giving(limit, gone)
  {
    FullFills(limit, Lasting(Filler(limit)));
    GivingIsPossible(limit, Lasting(Filler(limit)), gone);
    var full := Full(Lasting(Filler(limit)))[Z := Lasting([])];
    assert map[Z := full[Z]] == map[Z := Lasting([])];
    SetStores(cfg, s, e);
  }

  lemma ThreeSetsRun(cfg: StoreConfig, limit: nat, now: Time, gone: bool)
    requires Choosing(cfg, limit)
    ensures IsRun(cfg, EMPTY, ThreeSets(limit, now, gone))
    ensures Run(cfg, EMPTY, ThreeSets(limit, now, gone)).db ==
            Full(Lasting(Filler(limit)))[Z := Lasting([])] - Giving(limit, gone)
  {
    var e1, e2, e3 := Event(Set([], Filler(limit)), now, {}), Event(Set(Y, []), now, {}),
                      Event(Set(Z, []), now, Giving(limit, gone));
    FillerStored(cfg, EMPTY, limit, e1);
    var s1 := Step(cfg, EMPTY, e1).store;
    MemoryFilled(cfg, s1, limit, e2);
    var s2 := Step(cfg, s1, e2).store;
    ThirdStored(cfg, s2, limit, e3, gone);
    RunCons(cfg, s2, e3, []);
    RunCons(cfg, s1, e2, [e3] + []);
    RunCons(cfg, EMPTY, e1, [e2] + ([e3] + []));
  }

  lemma SameThreeSets(limit: nat, now: Time)
    requires limit > 2 * ENTRY_OVERHEAD
    ensures SameRequests(ThreeSets(limit, now, false), ThreeSets(limit, now, true))
  {
  }

  lemma ChoiceShows(cfg: StoreConfig, limit: nat, now: Time) returns (a: seq<Event>, b: seq<Event>)
    requires Choosing(cfg, limit)
    ensures IsRun(cfg, EMPTY, a) && IsRun(cfg, EMPTY, b) && SameRequests(a, b)
    ensures Run(cfg, EMPTY, a).db != Run(cfg, EMPTY, b).db
  {
    a, b := ThreeSets(limit, now, false), ThreeSets(limit, now, true);
    ThreeSetsRun(cfg, limit, now, false);
    ThreeSetsRun(cfg, limit, now, true);
    SameThreeSets(limit, now);
    GivingShows(limit);
  }

  lemma GivingShows(limit: nat)
    requires limit > 2 * ENTRY_OVERHEAD
    ensures Full(Lasting(Filler(limit)))[Z := Lasting([])] - Giving(limit, false) !=
            Full(Lasting(Filler(limit)))[Z := Lasting([])] - Giving(limit, true)
  {
    var none: Key := [];
    assert none in Full(Lasting(Filler(limit)))[Z := Lasting([])] - {Y};
  }

  /** Whether the requests and their times decide what is left: exactly when nothing is
      evicted or the memory never holds two keys. In all other configurations no log of the
      requests can tell what eviction left. */
  lemma RequestsDecideExactly(cfg: StoreConfig)
    ensures RequestsDecide(cfg) <==> NoChoice(cfg)
  {
    if NoChoice(cfg) {
      forall a: seq<Event>, b: seq<Event> | IsRun(cfg, EMPTY, a) && IsRun(cfg, EMPTY, b) && SameRequests(a, b)
        ensures Run(cfg, EMPTY, a).db == Run(cfg, EMPTY, b).db
      {
        NoChoiceNoDoubt(cfg, EMPTY, a, b);
      }
    } else {
      var _, _ := ChoiceShows(cfg, cfg.maxMemory.value, 0);
    }
  }

  // ---- one request after another ----

  /** A stored value is found at any later time, and has no lifetime. */
  lemma FoundAt(cfg: StoreConfig, s: Store, key: Key, value: Bytes, t: Time)
    requires key in s.db && s.db[key] == Entry(Text(value), None)
    ensures Apply(cfg, s, Get(key), t, {}).reply == Found(Some(value))
    ensures Apply(cfg, s, TtlOf(key), t, {}).reply == Lifetime(NoExpiration)
  {
    PurgeOne(s.db, key, t);
  }

  /** A key that was given a deadline is there until the deadline and not from then on; one
      that was persisted stays. */
  lemma ThereUntilDeadline(cfg: StoreConfig, s: Store, s': Store, op: Op, now: Time, t: Time)
    requires op.Expire? || op.ExpireAt? || op.Persist?
    requires Apply(cfg, s, op, now, {}) == Outcome(s', Flag(true)) && now <= t
    ensures Apply(cfg, s', Exists([op.key]), t, {}).reply ==
            Count(if op.Persist? then 1
                  else if op.Expire? then if t < Deadline(now, op.seconds) then 1 else 0
                  else if t < UnixDeadline(now, op.unixSeconds) then 1 else 0)
  {
    Dated(cfg, s, s', op, now);
    ExistsOne(cfg, s', op.key, t);
  }

  lemma Dated(cfg: StoreConfig, s: Store, s': Store, op: Op, now: Time)
    requires op.Expire? || op.ExpireAt? || op.Persist?
    requires Apply(cfg, s, op, now, {}) == Outcome(s', Flag(true))
    ensures if op.Persist? then op.key in s'.db && s'.db[op.key].expiresAt == None
            else
              var deadline := if op.Expire? then Deadline(now, op.seconds) else UnixDeadline(now, op.unixSeconds);
              if deadline <= now then op.key !in s'.db
              else op.key in s'.db && s'.db[op.key].expiresAt == Some(deadline)
  {
    PurgeOne(s.db, op.key, now);
  }

  lemma ExistsOne(cfg: StoreConfig, s: Store, key: Key, t: Time)
    ensures Apply(cfg, s, Exists([key]), t, {}).reply ==
            Count(if key in s.db && !s.db[key].Expired(t) then 1 else 0)
  {
    assert KeySet([key]) == {key} && [key][1..] == [];
    PurgeOne(s.db, key, t);
    var visited := Purge(s.db, {key}, t);
    assert CountPresent([key], visited) == if key in visited then 1 else 0;
  }

  /** `EXISTS` counts the places in its arguments that name a live key, repeated ones too. */
  lemma {:induction false} PlacesCounted(keys: seq<Key>, db: Db)
    ensures CountPresent(keys, db) == |Places(keys, db)|
    decreases |keys|
  {
    if keys != [] {
      var last := |keys| - 1;
      PlacesCounted(keys[..last], db);
      CountLast(keys[..last], keys[last], db);
      assert keys == keys[..last] + [keys[last]];
      LastPlace(keys, db);
    }
  }

  lemma LastPlace(keys: seq<Key>, db: Db)
    requires keys != []
    ensures |Places(keys, db)| == |Places(keys[..|keys| - 1], db)| + if keys[|keys| - 1] in db then 1 else 0
  {
    var last := |keys| - 1;
    assert Places(keys, db) == Places(keys[..last], db) + if keys[last] in db then {last} else {};
  }

  function Places(keys: seq<Key>, db: Db): set<int> {
    set i | 0 <= i < |keys| && keys[i] in db
  }

  lemma {:induction false} CountLast(keys: seq<Key>, key: Key, db: Db)
    ensures CountPresent(keys + [key], db) == CountPresent(keys, db) + if key in db then 1 else 0
  {
    if keys == [] {
      assert keys + [key] == [key] && [key][1..] == [];
    } else {
      assert (keys + [key])[1..] == keys[1..] + [key];
      CountLast(keys[1..], key, db);
    }
  }

  lemma ExistsCountsPlaces(cfg: StoreConfig, s: Store, keys: seq<Key>, now: Time)
    ensures Apply(cfg, s, Exists(keys), now, {}).reply ==
            Count(|Places(keys, Live(s.db, now))|)
  {
    var visited := Purge(s.db, KeySet(keys), now);
    PlacesCounted(keys, visited);
    assert Places(keys, visited) == Places(keys, Live(s.db, now));
  }

  /** `DEL` counts the live keys it removes, once each; none of them exists afterwards, and
      no other key is touched. */
  lemma DelRemoves(cfg: StoreConfig, s: Store, s': Store, keys: seq<Key>, now: Time, t: Time, n: nat)
    requires Apply(cfg, s, Del(keys), now, {}) == Outcome(s', Count(n))
    ensures n == |Live(s.db, now).Keys * KeySet(keys)|
    ensures Apply(cfg, s', Exists(keys), t, {}).reply == Count(0)
    ensures s'.db == s.db - KeySet(keys)
  {
    DelStep(cfg, s, keys, now);
    NoneExists(cfg, s', keys, t);
  }

  lemma DelStep(cfg: StoreConfig, s: Store, keys: seq<Key>, now: Time)
    ensures Apply(cfg, s, Del(keys), now, {}) ==
            Outcome(s.(db := s.db - KeySet(keys)), Count(|Live(s.db, now).Keys * KeySet(keys)|))
  {
    var visited := Purge(s.db, KeySet(keys), now);
    assert visited.Keys * KeySet(keys) == Live(s.db, now).Keys * KeySet(keys);
    assert visited - KeySet(keys) == s.db - KeySet(keys);
  }

  lemma NoneExists(cfg: StoreConfig, s: Store, keys: seq<Key>, t: Time)
    requires s.db.Keys !! KeySet(keys)
    ensures Apply(cfg, s, Exists(keys), t, {}).reply == Count(0)
  {
    ExistsCountsPlaces(cfg, s, keys, t);
    forall i | 0 <= i < |keys|
      ensures keys[i] !in Live(s.db, t)
    {
      assert keys[i] in KeySet(keys);
    }
    assert Places(keys, Live(s.db, t)) == {};
  }

  /** An operation is refused for the wrong type exactly when its key holds, unexpired, a
      value of the other type. */
  lemma WrongTypeExactly(cfg: StoreConfig, s: Store, e: Event)
    ensures Step(cfg, s, e).reply == Failed(WrongType) <==>
            && (e.op.Get? || e.op.Push? || e.op.Pop? || e.op.Lrange?)
            && e.op.key in Live(s.db, e.now)
            && s.db[e.op.key].value.Text? != e.op.Get?
  {
    var v := Visit(s, e.op, e.now);
    if e.op.Get? || e.op.Push? || e.op.Pop? || e.op.Lrange? {
      PurgeOne(s.db, e.op.key, e.now);
    }
    WrongTypeOfPlain(cfg, v, e.op, e.now, e.victims);
  }

  lemma WrongTypeOfPlain(cfg: StoreConfig, s: Store, op: Op, now: Time, victims: set<Key>)
    ensures Plain(cfg, s, op, now, victims).reply == Failed(WrongType) <==>
            && (op.Get? || op.Push? || op.Pop? || op.Lrange?)
            && op.key in s.db && s.db[op.key].value.Text? != op.Get?
  {
  }

  lemma {:induction false} SortedKeysAscend(keys: set<Key>, i: nat, j: nat)
    requires i < j < |SortedKeys(keys)|
    ensures Leq(SortedKeys(keys)[i], SortedKeys(keys)[j]) && SortedKeys(keys)[i] != SortedKeys(keys)[j]
    decreases i
  {
    var later := SortedKeys(keys - {LeastKey(keys)});
    assert SortedKeys(keys) == [LeastKey(keys)] + later;
    if i == 0 {
      assert later[j - 1] in KeySet(later);
    } else {
      SortedKeysAscend(keys - {LeastKey(keys)}, i - 1, j - 1);
    }
  }

  /** Rows about entries of `db`, in ascending byte order of their keys, no key twice. */
  ghost predicate Listed(rows: seq<KeyInspection>, db: Db, now: Time) {
    && (forall i :: 0 <= i < |rows| ==> rows[i].key in db && rows[i] == RowOf(rows[i].key, db[rows[i].key], now))
    && (forall i, j :: 0 <= i < j < |rows| ==> Leq(rows[i].key, rows[j].key) && rows[i].key != rows[j].key)
  }

  lemma AllListed(db: Db, now: Time)
    ensures |AllRows(db, now)| == |db| && Listed(AllRows(db, now), db, now)
  {
    var keys := SortedKeys(db.Keys);
    forall i | 0 <= i < |keys|
      ensures keys[i] in db
    {
      assert keys[i] in KeySet(keys);
    }
    forall i, j | 0 <= i < j < |keys|
      ensures Leq(keys[i], keys[j]) && keys[i] != keys[j]
    {
      SortedKeysAscend(db.Keys, i, j);
    }
  }

  lemma InspectionRows(cfg: StoreConfig, s: Store, limit: nat, now: Time, db: Db, rows: seq<KeyInspection>)
    requires db == Live(s.db, now) && rows == AllRows(db, now)
    ensures Apply(cfg, s, Inspect(limit), now, {}).reply == Rows(rows[..Min(limit, |rows|)])
  {
    var visited := Visit(s, Inspect(limit), now);
    if limit > 0 {
      assert visited.db == db;
      FirstInspected(cfg, visited, limit, now, rows);
    } else {
      assert rows[..0] == [];
    }
  }

  lemma PlainInspect(cfg: StoreConfig, s: Store, limit: nat, now: Time, rows: seq<KeyInspection>)
    requires limit > 0 && rows == AllRows(s.db, now)
    ensures Plain(cfg, s, Inspect(limit), now, {}).reply == Rows(if limit < |rows| then rows[..limit] else rows)
  {
  }

  lemma FirstInspected(cfg: StoreConfig, s: Store, limit: nat, now: Time, rows: seq<KeyInspection>)
    requires limit > 0 && rows == AllRows(s.db, now)
    ensures Plain(cfg, s, Inspect(limit), now, {}).reply == Rows(rows[..Min(limit, |rows|)])
  {
    PlainInspect(cfg, s, limit, now, rows);
    FirstOf(rows, limit);
  }

  lemma FirstOf<T>(s: seq<T>, n: nat)
    ensures s[..Min(n, |s|)] == if n < |s| then s[..n] else s
  {
  }

  /** Nothing is left out but what comes after all of the rows, when there are enough. */
  ghost predicate LeavesOutLater(rows: seq<KeyInspection>, db: Db, limit: nat) {
    forall k: Key :: k in db && (forall i :: 0 <= i < |rows| ==> rows[i].key != k) ==>
      |rows| == limit && forall i :: 0 <= i < |rows| ==> Leq(rows[i].key, k)
  }

  lemma ComesLater(rows: seq<KeyInspection>, n: nat, place: nat, db: Db, now: Time)
    requires Listed(rows, db, now) && n <= |rows| && place < |rows|
    requires forall i :: 0 <= i < n ==> rows[i].key != rows[place].key
    ensures forall i :: 0 <= i < n ==> Leq(rows[i].key, rows[place].key)
  {
    var _ := rows[place].key;
    if place < n {
      assert false;
    }
  }

  lemma ListedPrefix(rows: seq<KeyInspection>, n: nat, db: Db, now: Time)
    requires Listed(rows, db, now) && n <= |rows|
    ensures Listed(rows[..n], db, now)
  {
  }

  lemma FirstRows(rows: seq<KeyInspection>, limit: nat, db: Db, now: Time)
    requires rows == AllRows(db, now)
    ensures |rows| == |db|
    ensures Listed(rows[..Min(limit, |rows|)], db, now) && LeavesOutLater(rows[..Min(limit, |rows|)], db, limit)
  {
    AllListed(db, now);
    var n := Min(limit, |rows|);
    ListedPrefix(rows, n, db, now);
    forall k: Key | k in db && (forall i :: 0 <= i < n ==> rows[..n][i].key != k)
      ensures n == limit && forall i :: 0 <= i < n ==> Leq(rows[..n][i].key, k)
    {
      var place := RowPlace(db, now, k);
      assert forall i :: 0 <= i < n ==> rows[i] == rows[..n][i];
      ComesLater(rows, n, place, db, now);
    }
  }

  /** The inspection lists the first live keys in byte order, each once, up to the limit. */
  lemma InspectionIsSorted(cfg: StoreConfig, s: Store, limit: nat, now: Time, rows: seq<KeyInspection>)
    requires Apply(cfg, s, Inspect(limit), now, {}).reply == Rows(rows)
    ensures |rows| == Min(limit, |Live(s.db, now)|)
    ensures Listed(rows, Live(s.db, now), now) && LeavesOutLater(rows, Live(s.db, now), limit)
  {
    var db := Live(s.db, now);
    InspectionRows(cfg, s, limit, now, db, AllRows(db, now));
    FirstRows(AllRows(db, now), limit, db, now);
  }

  lemma RowPlace(db: Db, now: Time, k: Key) returns (i: nat)
    requires k in db
    ensures i < |AllRows(db, now)| && AllRows(db, now)[i].key == k
  {
    var keys := SortedKeys(db.Keys);
    assert k in KeySet(keys);
    i :| 0 <= i < |keys| && keys[i] == k;
  }

  // ---- lists ----

  ghost predicate NoEmptyLists(db: Db) {
    forall k: Key :: k in db && db[k].value.List? ==> db[k].value.items != []
  }

  /** Pushes carry at least one value, as the command parser demands. */
  predicate Pushes(op: Op) {
    op.Push? ==> op.values != []
  }

  lemma StepKeepsListsFull(cfg: StoreConfig, s: Store, e: Event)
    requires NoEmptyLists(s.db) && Pushes(e.op)
    ensures NoEmptyLists(Step(cfg, s, e).store.db)
  {
    var v := Visit(s, e.op, e.now);
    VisitKeepsListsFull(s, e.op, e.now);
    if !e.op.Sweep? {
      PlainKeepsListsFull(cfg, v, e.op, e.now, e.victims);
    }
  }

  lemma VisitKeepsListsFull(s: Store, op: Op, now: Time)
    requires NoEmptyLists(s.db)
    ensures NoEmptyLists(Visit(s, op, now).db)
  {
  }

  lemma PlainKeepsListsFull(cfg: StoreConfig, s: Store, op: Op, now: Time, victims: set<Key>)
    requires NoEmptyLists(s.db) && Pushes(op)
    ensures NoEmptyLists(Plain(cfg, s, op, now, victims).store.db)
  {
    if Attempt(s.db, op).Some? {
      CommitKeepsListsFull(cfg, s, Attempt(s.db, op).value, victims);
    } else {
      OthersKeepListsFull(cfg, s, op, now, victims);
    }
  }

  lemma CommitKeepsListsFull(cfg: StoreConfig, s: Store, w: Write, victims: set<Key>)
    requires NoEmptyLists(s.db) && (w.entry.value.List? ==> w.entry.value.items != [])
    ensures NoEmptyLists(Commit(cfg, s, w, victims).store.db)
  {
    assert NoEmptyLists(s.db[w.key := w.entry]);
  }

  lemma OthersKeepListsFull(cfg: StoreConfig, s: Store, op: Op, now: Time, victims: set<Key>)
    requires NoEmptyLists(s.db) && Attempt(s.db, op).None?
    ensures NoEmptyLists(Plain(cfg, s, op, now, victims).store.db)
  {
  }

  /** No reachable state stores an empty list. */
  lemma {:induction false} NoEmptyListEver(cfg: StoreConfig, s: Store, events: seq<Event>)
    requires NoEmptyLists(s.db) && forall i :: 0 <= i < |events| ==> Pushes(events[i].op)
    ensures NoEmptyLists(Run(cfg, s, events).db)
    decreases |events|
  {
    if events != [] {
      StepKeepsListsFull(cfg, s, events[0]);
      NoEmptyListEver(cfg, Step(cfg, s, events[0]).store, events[1..]);
    }
  }

  /** The elements at the positions that lie between the two bounds, one by one. */
  function Select(items: seq<Bytes>, first: nat, lo: int, hi: int): seq<Bytes>
    requires first <= |items|
    decreases |items| - first
  {
    if first == |items| then []
    else (if lo <= first <= hi then [items[first]] else []) + Select(items, first + 1, lo, hi)
  }

  lemma {:induction false} SelectIsBetween(items: seq<Bytes>, first: nat, lo: int, hi: int)
    requires first <= |items|
    ensures Select(items, first, lo, hi) == Between(items, if lo < first then first else lo, hi)
    decreases |items| - first
  {
    if first < |items| {
      SelectIsBetween(items, first + 1, lo, hi);
      var last := Min(hi, |items| - 1);
      if lo <= first <= hi {
        assert items[first..last + 1] == [items[first]] + items[first + 1..last + 1];
      }
    }
  }

  /** `LRANGE` gives exactly the elements whose position is in range, in order; so two adjacent
      ranges make up the list. */
  lemma LrangeIsExact(items: seq<Bytes>, start: i64, stop: i64)
    ensures Slice(items, start, stop) == Select(items, 0, Resolve(|items|, start), Resolve(|items|, stop))
    ensures forall i: nat :: i < |items| ==> Slice(items, 0, i) + Slice(items, i + 1, -1) == items
  {
    SelectIsBetween(items, 0, Resolve(|items|, start), Resolve(|items|, stop));
  }

  /** What a key's list is to a client: a plain sequence, empty when the key is absent. */
  function ListAt(db: Db, key: Key): seq<Bytes> {
    if key in db && db[key].value.List? then db[key].value.items else []
  }

  /** The same pushes and pops on a plain sequence: the final sequence and the replies. A
      push that the memory limit refused, as `replies` tell, leaves it alone. */
  function OnSequence(items: seq<Bytes>, events: seq<Event>, replies: seq<Reply>): (seq<Bytes>, seq<Reply>)
    requires |replies| == |events|
    decreases |events|
  {
    if events == [] then (items, [])
    else
      var (now, reply) :=
        if Refused(events[0], replies[0]) then (items, replies[0]) else SequenceReply(items, events[0].op);
      var (final, later) := OnSequence(now, events[1..], replies[1..]);
      (final, [reply] + later)
  }

  predicate Refused(e: Event, reply: Reply) {
    e.op.Push? && reply == Failed(OutOfMemory)
  }

  predicate PushesOrPops(op: Op, key: Key) {
    (op.Push? || op.Pop?) && op.key == key
  }

  predicate Reads(op: Op) {
    op.Get? || op.Exists? || op.TtlOf? || op.Lrange? || op.Stats? || op.Inspect? || op.Sweep?
  }

  /** A request that does not write under `key`, and does not have it evicted. */
  predicate LeavesAlone(e: Event, key: Key) {
    (Reads(e.op) || key !in Named(e.op)) && key !in e.victims
  }

  /** A push or pop on `key`, or any request that leaves it alone, at a time when the key's
      deadline is not reached. */
  predicate OnList(db: Db, key: Key, e: Event) {
    && (PushesOrPops(e.op, key) || LeavesAlone(e, key)) && Pushes(e.op)
    && (key in db ==> !db[key].Expired(e.now))
  }

  /** Pushes and pops on a key among other requests. */
  ghost predicate ListSession(s: Store, key: Key, events: seq<Event>) {
    && NoEmptyLists(s.db)
    && (key in s.db ==> s.db[key].value.List?)
    && (forall i :: 0 <= i < |events| ==> OnList(s.db, key, events[i]))
  }

  /** The pushes and pops on `key` alone. */
  function OnlyOn(events: seq<Event>, key: Key): seq<Event> {
    if events == [] then []
    else (if PushesOrPops(events[0].op, key) then [events[0]] else []) + OnlyOn(events[1..], key)
  }

  /** The replies to them. */
  ghost function RepliesOn(cfg: StoreConfig, s: Store, events: seq<Event>, key: Key): (replies: seq<Reply>)
    ensures |replies| == |OnlyOn(events, key)|
    decreases |events|
  {
    if events == [] then []
    else
      var o := Step(cfg, s, events[0]);
      (if PushesOrPops(events[0].op, key) then [o.reply] else []) + RepliesOn(cfg, o.store, events[1..], key)
  }

  function ListOutcome(s: Store, op: Op): Outcome
    requires (op.Push? || op.Pop?) && (op.key in s.db ==> s.db[op.key].value.List?)
  {
    if op.Push? then
      var items := Pushed(ListAt(s.db, op.key), op.values, op.side);
      var deadline := if op.key in s.db then s.db[op.key].expiresAt else None;
      Outcome(s.(db := s.db[op.key := Entry(List(items), deadline)]), Count(|items|))
    else PopFrom(s, op.key, op.side)
  }

  /** `some` has the entry of `all` under `key`, and no entry that `all` has not. */
  ghost predicate KeptUnder(some: Db, all: Db, key: Key) {
    AgreeOn(some, all, {key}) && forall k: Key :: k in some ==> k in all && some[k] == all[k]
  }

  lemma ListEffect(cfg: StoreConfig, s: Store, e: Event)
    requires Legal(cfg, s, e) && (e.op.Push? || e.op.Pop?)
    requires (e.op.key in s.db ==> s.db[e.op.key].value.List?) && OnList(s.db, e.op.key, e)
    ensures var after, plain := Step(cfg, s, e), ListOutcome(s, e.op);
            if Refused(e, after.reply) then after.store.db == s.db
            else after.reply == plain.reply && KeptUnder(after.store.db, plain.store.db, e.op.key)
  {
    PurgeOne(s.db, e.op.key, e.now);
    if e.op.Push? {
      PushEffect(cfg, s, e);
    }
  }

  lemma PushEffect(cfg: StoreConfig, s: Store, e: Event)
    requires Legal(cfg, s, e) && e.op.Push? && Visit(s, e.op, e.now) == s
    requires e.op.key in s.db ==> s.db[e.op.key].value.List?
    ensures var after, plain := Step(cfg, s, e), ListOutcome(s, e.op);
            if Refused(e, after.reply) then after.store.db == s.db
            else after.reply == plain.reply && KeptUnder(after.store.db, plain.store.db, e.op.key)
  {
    var w := Attempt(s.db, e.op).value;
    WriteOutcome(cfg, s, e, w);
    assert ListOutcome(s, e.op) == Outcome(s.(db := s.db[w.key := w.entry]), w.reply);
    if Refused(e, Step(cfg, s, e).reply) {
      FailedPlain(cfg, s, e.op, e.now, e.victims);
    }
  }

  lemma ListStep(s: Store, key: Key, op: Op)
    requires NoEmptyLists(s.db) && Pushes(op) && (op.Push? || op.Pop?) && op.key == key
    requires key in s.db ==> s.db[key].value.List?
    ensures var after := ListOutcome(s, op);
            && (ListAt(after.store.db, key), after.reply) == SequenceReply(ListAt(s.db, key), op)
            && (key in after.store.db <==> ListAt(after.store.db, key) != [])
            && (key in after.store.db ==> after.store.db[key].value.List?)
            && (key in s.db && key in after.store.db ==> after.store.db[key].expiresAt == s.db[key].expiresAt)
            && (key !in s.db && key in after.store.db ==> after.store.db[key].expiresAt == None)
            && after.store.db - {key} == s.db - {key}
  {
  }

  function SequenceReply(items: seq<Bytes>, op: Op): (seq<Bytes>, Reply) {
    match op
    case Push(_, values, Left) => var now := Reverse(values) + items; (now, Count(|now|))
    case Push(_, values, Right) => var now := items + values; (now, Count(|now|))
    case Pop(_, Left) => if items == [] then (items, Found(None)) else (items[1..], Found(Some(items[0])))
    case Pop(_, Right) =>
      if items == [] then (items, Found(None))
      else (items[..|items| - 1], Found(Some(items[|items| - 1])))
    case _ => (items, Done)
  }

  /** One push or pop, as seen under its key: the sequence moves with the list, the deadline
      stays, and no other entry is added or changed. */
  ghost predicate Moved(before: Db, after: Db, key: Key, e: Event, reply: Reply) {
    && (ListAt(after, key), reply) ==
       (if Refused(e, reply) then (ListAt(before, key), reply) else SequenceReply(ListAt(before, key), e.op))
    && (key in after ==> after[key].value.List?)
    && (key in after ==> after[key].expiresAt == if key in before then before[key].expiresAt else None)
    && (forall k: Key :: k in after && k != key ==> k in before && after[k] == before[k])
  }

  lemma ListMoves(cfg: StoreConfig, s: Store, key: Key, e: Event)
    requires Legal(cfg, s, e) && ListSession(s, key, [e]) && PushesOrPops(e.op, key)
    ensures Moved(s.db, Step(cfg, s, e).store.db, key, e, Step(cfg, s, e).reply)
  {
    assert [e][0] == e;
    ListEffect(cfg, s, e);
    ListStep(s, key, e.op);
    var plain := ListOutcome(s, e.op).store.db;
    assert key in {key};
    forall k: Key | k in plain && k != key
      ensures k in s.db && plain[k] == s.db[k]
    {
      assert k in plain - {key};
    }
  }

  lemma BystanderStays(cfg: StoreConfig, s: Store, key: Key, e: Event)
    requires OnList(s.db, key, e) && LeavesAlone(e, key)
    ensures AgreeOn(s.db, Step(cfg, s, e).store.db, {key})
  {
    var v := Visit(s, e.op, e.now);
    assert AgreeOn(s.db, v.db, {key});
    if !e.op.Sweep? {
      if Reads(e.op) {
        ReadsKeepAll(cfg, v, e.op, e.now, e.victims);
      } else {
        PlainFrame(cfg, v, e.op, e.now, e.victims);
      }
    }
  }

  lemma ReadsKeepAll(cfg: StoreConfig, s: Store, op: Op, now: Time, victims: set<Key>)
    requires Reads(op)
    ensures Plain(cfg, s, op, now, victims).store == s
  {
  }

  /** One event of a session, as seen under the key. */
  lemma SessionMoves(cfg: StoreConfig, s: Store, key: Key, e: Event)
    requires Legal(cfg, s, e) && ListSession(s, key, [e])
    ensures var after, reply := Step(cfg, s, e).store.db, Step(cfg, s, e).reply;
            && (if PushesOrPops(e.op, key) then Moved(s.db, after, key, e, reply)
                else ListAt(after, key) == ListAt(s.db, key))
            && (key in after ==> after[key].value.List?)
            && (key in after ==> after[key].expiresAt == if key in s.db then s.db[key].expiresAt else None)
  {
    assert [e][0] == e && key in {key};
    if PushesOrPops(e.op, key) {
      ListMoves(cfg, s, key, e);
    } else {
      BystanderStays(cfg, s, key, e);
    }
  }

  lemma SessionGoesOn(before: Db, next: Store, key: Key, events: seq<Event>)
    requires events != [] && NoEmptyLists(next.db)
    requires forall i :: 0 <= i < |events| ==> OnList(before, key, events[i])
    requires key in next.db ==> next.db[key].value.List?
    requires key in next.db ==> next.db[key].expiresAt == if key in before then before[key].expiresAt else None
    ensures ListSession(next, key, events[1..])
  {
    forall i | 0 <= i < |events[1..]|
      ensures OnList(next.db, key, events[1..][i])
    {
      assert OnList(before, key, events[i + 1]);
    }
  }

  lemma SequenceGoesOn(items: seq<Bytes>, e: Event, reply: Reply, later: seq<Event>, replies: seq<Reply>)
    requires |later| == |replies|
    ensures var (now, said) := if Refused(e, reply) then (items, reply) else SequenceReply(items, e.op);
            var (final, rest) := OnSequence(now, later, replies);
            OnSequence(items, [e] + later, [reply] + replies) == (final, [said] + rest)
  {
    assert ([e] + later)[1..] == later && ([reply] + replies)[1..] == replies;
  }

  /** The pushes and pops on a key, among any requests that leave it alone and under every
      limit and policy, give the replies and the contents of a plain sequence. */
  lemma {:induction false} ListsRefineSequences(cfg: StoreConfig, s: Store, key: Key, events: seq<Event>)
    requires IsRun(cfg, s, events) && ListSession(s, key, events)
    ensures var replies := RepliesOn(cfg, s, events, key);
            (ListAt(Run(cfg, s, events).db, key), replies) ==
            OnSequence(ListAt(s.db, key), OnlyOn(events, key), replies)
    decreases |events|
  {
    if events != [] {
      var e := events[0];
      assert ListSession(s, key, [e]);
      SessionMoves(cfg, s, key, e);
      StepKeepsListsFull(cfg, s, e);
      var next, reply := Step(cfg, s, e).store, Step(cfg, s, e).reply;
      SessionGoesOn(s.db, next, key, events);
      ListsRefineSequences(cfg, next, key, events[1..]);
      var later, replies := OnlyOn(events[1..], key), RepliesOn(cfg, next, events[1..], key);
      if PushesOrPops(e.op, key) {
        SequenceGoesOn(ListAt(s.db, key), e, reply, later, replies);
      } else {
        assert OnlyOn(events, key) == later && RepliesOn(cfg, s, events, key) == replies;
      }
    }
  }

  // ---- locality ----

  ghost predicate AgreeOn(a: Db, b: Db, keys: set<Key>) {
    forall k: Key :: k in keys ==> (k in a <==> k in b) && (k in a ==> a[k] == b[k])
  }

  ghost predicate SameElsewhere(a: Db, b: Db, keys: set<Key>) {
    forall k: Key :: k !in keys ==> (k in a <==> k in b) && (k in a ==> a[k] == b[k])
  }

  /** An operation changes nothing but the keys it names and those it evicts. */
  lemma PlainFrame(cfg: StoreConfig, s: Store, op: Op, now: Time, victims: set<Key>)
    ensures SameElsewhere(s.db, Plain(cfg, s, op, now, victims).store.db, Named(op) + victims)
  {
    match op {
      case Set(_, _) => WriteFrame(cfg, s, op, now, victims);
      case Push(_, _, _) => WriteFrame(cfg, s, op, now, victims);
      case _ =>
    }
  }

  lemma NamedFrame(cfg: StoreConfig, s: Store, op: Op, now: Time)
    ensures SameElsewhere(s.db, Plain(cfg, s, op, now, {}).store.db, Named(op))
  {
    PlainFrame(cfg, s, op, now, {});
    assert Named(op) + {} == Named(op);
  }

  lemma WriteFrame(cfg: StoreConfig, s: Store, op: Op, now: Time, victims: set<Key>)
    requires op.Set? || op.Push?
    ensures SameElsewhere(s.db, Plain(cfg, s, op, now, victims).store.db, {op.key} + victims)
  {
  }

  /** Without a limit its reply and effect depend on nothing but the keys it names. */
  lemma PlainLocal(cfg: StoreConfig, a: Store, b: Store, op: Op, now: Time)
    requires cfg.maxMemory.None? && !VisitsAll(op)
    requires AgreeOn(a.db, b.db, Named(op))
    ensures Plain(cfg, a, op, now, {}).reply == Plain(cfg, b, op, now, {}).reply
    ensures AgreeOn(Plain(cfg, a, op, now, {}).store.db, Plain(cfg, b, op, now, {}).store.db, Named(op))
  {
    if op.Set? || op.Push? {
      WriteLocal(cfg, a, b, op, now);
    } else if op.Expire? || op.ExpireAt? || op.Persist? {
      DeadlineLocal(cfg, a, b, op, now);
    } else if op.Del? || op.Pop? {
      RemovalLocal(cfg, a, b, op, now);
    } else {
      ReadLocal(cfg, a, b, op, now);
    }
  }

  lemma DeadlineLocal(cfg: StoreConfig, a: Store, b: Store, op: Op, now: Time)
    requires (op.Expire? || op.ExpireAt? || op.Persist?) && AgreeOn(a.db, b.db, {op.key})
    ensures Plain(cfg, a, op, now, {}).reply == Plain(cfg, b, op, now, {}).reply
    ensures AgreeOn(Plain(cfg, a, op, now, {}).store.db, Plain(cfg, b, op, now, {}).store.db, {op.key})
  {
    assert op.key in {op.key};
    if !op.Persist? {
      var deadline := if op.Expire? then Deadline(now, op.seconds) else UnixDeadline(now, op.unixSeconds);
      ScheduleLocal(a, b, op.key, deadline, now);
    }
  }

  lemma RemovalLocal(cfg: StoreConfig, a: Store, b: Store, op: Op, now: Time)
    requires (op.Del? || op.Pop?) && AgreeOn(a.db, b.db, Named(op))
    ensures Plain(cfg, a, op, now, {}).reply == Plain(cfg, b, op, now, {}).reply
    ensures AgreeOn(Plain(cfg, a, op, now, {}).store.db, Plain(cfg, b, op, now, {}).store.db, Named(op))
  {
    if op.Pop? {
      PopLocal(a, b, op.key, op.side);
    } else {
      assert a.db.Keys * KeySet(op.keys) == b.db.Keys * KeySet(op.keys);
    }
  }

  lemma ReadLocal(cfg: StoreConfig, a: Store, b: Store, op: Op, now: Time)
    requires (op.Get? || op.Exists? || op.TtlOf? || op.Lrange? || op == Inspect(0)) && AgreeOn(a.db, b.db, Named(op))
    ensures Plain(cfg, a, op, now, {}) == Outcome(a, Plain(cfg, b, op, now, {}).reply)
    ensures Plain(cfg, b, op, now, {}).store == b
  {
    if op.Exists? {
      PresentLocal(op.keys, a.db, b.db);
    } else if !op.Inspect? {
      assert op.key in {op.key};
    }
  }

  lemma ScheduleLocal(a: Store, b: Store, key: Key, deadline: Time, now: Time)
    requires AgreeOn(a.db, b.db, {key})
    ensures Schedule(a, key, deadline, now).reply == Schedule(b, key, deadline, now).reply
    ensures AgreeOn(Schedule(a, key, deadline, now).store.db, Schedule(b, key, deadline, now).store.db, {key})
  {
    assert key in {key};
  }

  lemma PopLocal(a: Store, b: Store, key: Key, side: Side)
    requires AgreeOn(a.db, b.db, {key})
    ensures PopFrom(a, key, side).reply == PopFrom(b, key, side).reply
    ensures AgreeOn(PopFrom(a, key, side).store.db, PopFrom(b, key, side).store.db, {key})
  {
    assert key in {key};
  }

  lemma WriteLocal(cfg: StoreConfig, a: Store, b: Store, op: Op, now: Time)
    requires cfg.maxMemory.None? && (op.Set? || op.Push?) && AgreeOn(a.db, b.db, {op.key})
    ensures Plain(cfg, a, op, now, {}).reply == Plain(cfg, b, op, now, {}).reply
    ensures AgreeOn(Plain(cfg, a, op, now, {}).store.db, Plain(cfg, b, op, now, {}).store.db, {op.key})
  {
    assert op.key in {op.key};
    assert Attempt(a.db, op) == Attempt(b.db, op);
  }

  lemma {:induction false} PresentLocal(keys: seq<Key>, a: Db, b: Db)
    requires AgreeOn(a, b, KeySet(keys))
    ensures CountPresent(keys, a) == CountPresent(keys, b)
  {
    if keys != [] {
      assert keys[0] in KeySet(keys);
      forall k: Key | k in KeySet(keys[1..]) ensures k in KeySet(keys) {}
      PresentLocal(keys[1..], a, b);
    }
  }

  // ---- lazy expiry ----

  /** The reference: a store that holds live entries only, and whose operations never
      look at a deadline to decide whether an entry exists. */
  ghost function Eager(cfg: StoreConfig, s: Store, op: Op, now: Time): Outcome {
    Plain(cfg, s.(db := Live(s.db, now)), op, now, {})
  }

  /** A reply without the count of purged entries, which tells when purging happened. */
  function Visible(reply: Reply): Reply {
    if reply.Snapshot? then Snapshot(reply.stats.(expired := 0)) else reply
  }

  /** The lazy and the eager store show the same entries at `now` and ever after. */
  ghost predicate Alike(lazy: Store, eager: Store, now: Time) {
    && lazy.evicted == eager.evicted && lazy.rejected == eager.rejected
    && forall t: Time :: t >= now ==> Live(lazy.db, t) == Live(eager.db, t)
  }

  lemma LiveLater(db: Db, keys: set<Key>, now: Time, t: Time)
    requires t >= now
    ensures Live(Purge(db, keys, now), t) == Live(db, t)
  {
  }

  lemma EagerStep(cfg: StoreConfig, lazy: Store, eager: Store, op: Op, now: Time)
    requires cfg.maxMemory.None? && !op.Sweep? && Alike(lazy, eager, now)
    ensures Visible(Apply(cfg, lazy, op, now, {}).reply) == Visible(Eager(cfg, eager, op, now).reply)
    ensures Alike(Apply(cfg, lazy, op, now, {}).store, Eager(cfg, eager, op, now).store, now)
  {
    var v, e := Visit(lazy, op, now), eager.(db := Live(eager.db, now));
    assert e.db == Live(lazy.db, now);
    if VisitsAll(op) {
      ReportStep(cfg, v, e, op, now);
      assert forall t: Time :: t >= now ==> Live(v.db, t) == Live(e.db, t);
    } else {
      NamedStep(cfg, lazy.db, v, e, op, now);
    }
  }

  lemma ReportStep(cfg: StoreConfig, v: Store, e: Store, op: Op, now: Time)
    requires (op.Stats? || op.Inspect?) && v == e.(expired := v.expired)
    ensures Visible(Plain(cfg, v, op, now, {}).reply) == Visible(Plain(cfg, e, op, now, {}).reply)
    ensures Plain(cfg, v, op, now, {}).store == v && Plain(cfg, e, op, now, {}).store == e
  {
  }

  lemma NamedStep(cfg: StoreConfig, lazy: Db, v: Store, e: Store, op: Op, now: Time)
    requires cfg.maxMemory.None? && !VisitsAll(op) && v.evicted == e.evicted && v.rejected == e.rejected
    requires v.db == Purge(lazy, Named(op), now) && e.db == Live(lazy, now)
    ensures Plain(cfg, v, op, now, {}).reply == Plain(cfg, e, op, now, {}).reply
    ensures Alike(Plain(cfg, v, op, now, {}).store, Plain(cfg, e, op, now, {}).store, now)
  {
    assert AgreeOn(v.db, e.db, Named(op));
    PlainLocal(cfg, v, e, op, now);
    NamedFrame(cfg, v, op, now);
    NamedFrame(cfg, e, op, now);
    CountersUntouched(cfg, v, op, now);
    CountersUntouched(cfg, e, op, now);
    SameEverAfter(lazy, v.db, e.db, Plain(cfg, v, op, now, {}).store.db, Plain(cfg, e, op, now, {}).store.db,
                  Named(op), now);
  }

  lemma SameEverAfter(lazy: Db, v: Db, e: Db, v': Db, e': Db, keys: set<Key>, now: Time)
    requires v == Purge(lazy, keys, now) && e == Live(lazy, now)
    requires SameElsewhere(v, v', keys) && SameElsewhere(e, e', keys) && AgreeOn(v', e', keys)
    ensures forall t: Time :: t >= now ==> Live(v', t) == Live(e', t)
  {
    forall t: Time | t >= now
      ensures Live(v', t) == Live(e', t)
    {
      LiveLater(lazy, keys, now, t);
      LiveLater(lazy, lazy.Keys, now, t);
      SameLive(v, e, v', e', keys, t);
    }
  }

  lemma CountersUntouched(cfg: StoreConfig, s: Store, op: Op, now: Time)
    requires cfg.maxMemory.None?
    ensures Plain(cfg, s, op, now, {}).store == s.(db := Plain(cfg, s, op, now, {}).store.db)
  {
  }

  lemma SameLive(a: Db, b: Db, a': Db, b': Db, keys: set<Key>, t: Time)
    requires Live(a, t) == Live(b, t)
    requires SameElsewhere(a, a', keys) && SameElsewhere(b, b', keys) && AgreeOn(a', b', keys)
    ensures Live(a', t) == Live(b', t)
  {
    forall k: Key
      ensures k in Live(a', t) <==> k in Live(b', t)
      ensures k in Live(a', t) ==> a'[k] == b'[k]
    {
      assert k in Live(a, t) <==> k in Live(b, t);
      assert k in Live(a, t) ==> Live(a, t)[k] == Live(b, t)[k];
    }
  }

  predicate ClockRuns(events: seq<Event>) {
    forall i :: 0 <= i < |events| - 1 ==> events[i].now <= events[i + 1].now
  }

  /** Replies to clients along a run of the real store; sweeps are not requests. */
  ghost function LazyReplies(cfg: StoreConfig, s: Store, events: seq<Event>): seq<Reply>
    decreases |events|
  {
    if events == [] then []
    else
      var e := events[0];
      var o := Apply(cfg, s, e.op, e.now, {});
      (if e.op.Sweep? then [] else [Visible(o.reply)]) + LazyReplies(cfg, o.store, events[1..])
  }

  /** Replies of the eager store to the same requests, with no sweep at all. */
  ghost function EagerReplies(cfg: StoreConfig, s: Store, events: seq<Event>): seq<Reply>
    decreases |events|
  {
    if events == [] then []
    else
      var e := events[0];
      if e.op.Sweep? then EagerReplies(cfg, s, events[1..])
      else
        var o := Eager(cfg, s, e.op, e.now);
        [Visible(o.reply)] + EagerReplies(cfg, o.store, events[1..])
  }

  /** Without a limit and with a clock that does not run backwards, no reply tells lazy
      expiry from eager expiry, wherever sweeps are inserted. */
  lemma {:induction false} LazyRefinesEager(cfg: StoreConfig, lazy: Store, eager: Store, now: Time, events: seq<Event>)
    requires cfg.maxMemory.None? && Alike(lazy, eager, now)
    requires ClockRuns(events) && (events != [] ==> now <= events[0].now)
    ensures LazyReplies(cfg, lazy, events) == EagerReplies(cfg, eager, events)
    decreases |events|
  {
    if events != [] {
      var e := events[0];
      assert ClockRuns(events[1..]) by {
        assert forall i :: 0 <= i < |events[1..]| ==> events[1..][i] == events[i + 1];
      }
      var lazy' := Apply(cfg, lazy, e.op, e.now, {}).store;
      if e.op.Sweep? {
        forall t: Time | t >= e.now ensures Live(lazy'.db, t) == Live(eager.db, t) {
          LiveLater(lazy.db, lazy.db.Keys, e.now, t);
        }
        LazyRefinesEager(cfg, lazy', eager, e.now, events[1..]);
      } else {
        EagerStep(cfg, lazy, eager, e.op, e.now);
        LazyRefinesEager(cfg, lazy', Eager(cfg, eager, e.op, e.now).store, e.now, events[1..]);
      }
    }
  }

  function Requests(events: seq<Event>): seq<Event> {
    if events == [] then []
    else (if events[0].op.Sweep? then [] else [events[0]]) + Requests(events[1..])
  }

  lemma {:induction false} RequestsKeepClock(events: seq<Event>, now: Time)
    requires ClockRuns(events) && (events != [] ==> now <= events[0].now)
    ensures ClockRuns(Requests(events))
    ensures Requests(events) != [] ==> now <= Requests(events)[0].now
  {
    if events != [] {
      assert ClockRuns(events[1..]) by {
        assert forall i :: 0 <= i < |events[1..]| ==> events[1..][i] == events[i + 1];
      }
      RequestsKeepClock(events[1..], events[0].now);
      var later := Requests(events[1..]);
      assert forall i :: 0 < i < |[events[0]] + later| ==> ([events[0]] + later)[i] == later[i - 1];
    }
  }

  lemma {:induction false} EagerIgnoresSweeps(cfg: StoreConfig, s: Store, events: seq<Event>)
    ensures EagerReplies(cfg, s, Requests(events)) == EagerReplies(cfg, s, events)
    decreases |events|
  {
    if events != [] {
      var e, later := events[0], Requests(events[1..]);
      if e.op.Sweep? {
        assert Requests(events) == later;
        EagerIgnoresSweeps(cfg, s, events[1..]);
      } else {
        assert Requests(events) == [e] + later && ([e] + later)[1..] == later;
        EagerIgnoresSweeps(cfg, Eager(cfg, s, e.op, e.now).store, events[1..]);
      }
    }
  }

  /** Inserting or removing sweeps changes no reply. */
  lemma SweepsAreInvisible(cfg: StoreConfig, s: Store, now: Time, events: seq<Event>)
    requires cfg.maxMemory.None? && ClockRuns(events) && (events != [] ==> now <= events[0].now)
    ensures LazyReplies(cfg, s, events) == LazyReplies(cfg, s, Requests(events))
  {
    RequestsKeepClock(events, now);
    LazyRefinesEager(cfg, s, s, now, events);
    LazyRefinesEager(cfg, s, s, now, Requests(events));
    EagerIgnoresSweeps(cfg, s, events);
  }

  lemma AttemptOnLive(db: Db, op: Op, now: Time)
    requires op.Set? || op.Push?
    ensures Attempt(Live(db, now), op) == Attempt(Purge(db, {op.key}, now), op)
  {
  }

  /** With a limit and no eviction a write tells the two apart exactly when the expired
      entries that are still there take the room it needs. */
  lemma LimitTellsLazyFromEager(cfg: StoreConfig, s: Store, op: Op, w: Write, now: Time)
    requires cfg.maxMemory.Some? && cfg.policy.NoEviction?
    requires (op.Set? || op.Push?) && Attempt(Purge(s.db, {op.key}, now), op) == Some(w)
    ensures Apply(cfg, s, op, now, {}).reply != Eager(cfg, s, op, now).reply <==>
            Footprint(Live(s.db, now)[w.key := w.entry]) <= cfg.maxMemory.value
            < Footprint(Purge(s.db, {w.key}, now)[w.key := w.entry])
  {
    AttemptOnLive(s.db, op, now);
    WriteAdmitted(cfg, s.(db := Purge(s.db, {op.key}, now)), op, w, now, {});
    WriteAdmitted(cfg, s.(db := Live(s.db, now)), op, w, now, {});
    LessIsLive(s.db, w.key, w.entry, now);
  }

  lemma WriteAdmitted(cfg: StoreConfig, s: Store, op: Op, w: Write, now: Time, victims: set<Key>)
    requires (op.Set? || op.Push?) && Attempt(s.db, op) == Some(w)
    ensures w.key == op.key && w.reply != Failed(OutOfMemory)
    ensures var full := s.db[w.key := w.entry];
            Plain(cfg, s, op, now, victims).reply ==
            if Fits(cfg, full) || Evicts(cfg, full, w.key) then w.reply else Failed(OutOfMemory)
  {
  }

  /** Random eviction makes every reply of a write agree: what is refused is refused for the
      new entry alone. What is evicted need not agree, as `LiveGoesForDeadExactly` shows. */
  lemma RandomEvictionHidesLaziness(cfg: StoreConfig, s: Store, op: Op, w: Write, now: Time, victims: set<Key>)
    requires cfg.policy.AllKeysRandom?
    requires (op.Set? || op.Push?) && Attempt(Purge(s.db, {op.key}, now), op) == Some(w)
    ensures Apply(cfg, s, op, now, victims).reply == Eager(cfg, s, op, now).reply
  {
    AttemptOnLive(s.db, op, now);
    WriteAdmitted(cfg, s.(db := Purge(s.db, {op.key}, now)), op, w, now, victims);
    WriteAdmitted(cfg, s.(db := Live(s.db, now)), op, w, now, {});
    RefusedAlone(cfg, Purge(s.db, {op.key}, now), w);
    RefusedAlone(cfg, Live(s.db, now), w);
  }

  lemma RefusedAlone(cfg: StoreConfig, db: Db, w: Write)
    requires cfg.policy.AllKeysRandom?
    ensures var full := db[w.key := w.entry];
            Fits(cfg, full) || Evicts(cfg, full, w.key) <==> Fits(cfg, map[w.key := w.entry])
  {
    var full := db[w.key := w.entry];
    assert map[w.key := full[w.key]] == map[w.key := w.entry];
    SumRemove(full, EntryBytes, full.Keys - {w.key});
    assert full - (full.Keys - {w.key}) == map[w.key := w.entry];
  }

  lemma LessIsLive(db: Db, key: Key, entry: Entry, now: Time)
    ensures Footprint(Live(db, now)[key := entry]) <= Footprint(Purge(db, {key}, now)[key := entry])
  {
    var kept, live := Purge(db, {key}, now)[key := entry], Live(db, now)[key := entry];
    var gone := kept.Keys - live.Keys;
    assert live == kept - gone;
    SumRemove(kept, EntryBytes, gone);
  }

  // ---- expired entries in the way ----

  lemma ExpireStores(cfg: StoreConfig, s: Store, e: Event)
    requires e.op.Expire? && e.op.key in s.db && NoDeadlines(s.db) && e.victims == {}
    requires e.now < Deadline(e.now, e.op.seconds)
    ensures Legal(cfg, s, e)
    ensures Step(cfg, s, e).store.db ==
            s.db[e.op.key := s.db[e.op.key].(expiresAt := Some(Deadline(e.now, e.op.seconds)))]
  {
    PurgeOne(s.db, e.op.key, e.now);
  }

  function SetAndExpire(x: Key, value: Bytes, seconds: u64, now: Time): seq<Event> {
    [Event(Set(x, value), now, {})] + ([Event(Expire(x, seconds), now, {})] + [])
  }

  lemma DyingKey(cfg: StoreConfig, x: Key, value: Bytes, seconds: u64, now: Time)
    requires Fits(cfg, map[x := Lasting(value)]) && now < Deadline(now, seconds)
    ensures IsRun(cfg, EMPTY, SetAndExpire(x, value, seconds, now))
    ensures Run(cfg, EMPTY, SetAndExpire(x, value, seconds, now)).db ==
            map[x := Entry(Text(value), Some(Deadline(now, seconds)))]
  {
    var e1, e2 := Event(Set(x, value), now, {}), Event(Expire(x, seconds), now, {});
    OnlyStored(cfg, EMPTY, e1);
    var s1 := Step(cfg, EMPTY, e1).store;
    OnlyExpires(cfg, s1, e2, value);
    RunCons(cfg, s1, e2, []);
    RunCons(cfg, EMPTY, e1, [e2] + []);
  }

  lemma OnlyStored(cfg: StoreConfig, s: Store, e: Event)
    requires e.op.Set? && e.victims == {} && s.db == map[] && Fits(cfg, map[e.op.key := Lasting(e.op.value)])
    ensures Legal(cfg, s, e) && Step(cfg, s, e).store.db == map[e.op.key := Lasting(e.op.value)]
  {
    var only: Db := map[e.op.key := Lasting(e.op.value)];
    assert s.db[e.op.key := Lasting(e.op.value)] == only && only - {} == only;
    SetStores(cfg, s, e);
  }

  lemma OnlyExpires(cfg: StoreConfig, s: Store, e: Event, value: Bytes)
    requires e.op.Expire? && e.victims == {} && s.db == map[e.op.key := Lasting(value)]
    requires e.now < Deadline(e.now, e.op.seconds)
    ensures Legal(cfg, s, e)
    ensures Step(cfg, s, e).store.db == map[e.op.key := Entry(Text(value), Some(Deadline(e.now, e.op.seconds)))]
  {
    ExpireStores(cfg, s, e);
  }

  /** It happens: after `SET` and `EXPIRE` of one key, a `SET` of another at or after the
      deadline is refused for the room the first still takes, although it fits alone. */
  lemma RefusedForDead(cfg: StoreConfig, x: Key, v: Bytes, seconds: u64, now: Time, y: Key, w: Bytes, t: Time)
    requires cfg.maxMemory.Some? && cfg.policy.NoEviction? && x != y
    requires now < Deadline(now, seconds) <= t
    requires EntryBytes(x, Lasting(v)) <= cfg.maxMemory.value && EntryBytes(y, Lasting(w)) <= cfg.maxMemory.value
    requires EntryBytes(x, Lasting(v)) + EntryBytes(y, Lasting(w)) > cfg.maxMemory.value
    ensures var s := Run(cfg, EMPTY, SetAndExpire(x, v, seconds, now));
            && IsRun(cfg, EMPTY, SetAndExpire(x, v, seconds, now))
            && Apply(cfg, s, Set(y, w), t, {}).reply == Failed(OutOfMemory)
            && Eager(cfg, s, Set(y, w), t).reply == Done
  {
    AloneFits(cfg, x, Lasting(v));
    DyingKey(cfg, x, v, seconds, now);
    var s := Run(cfg, EMPTY, SetAndExpire(x, v, seconds, now));
    DeadTakesRoom(cfg, s, x, Entry(Text(v), Some(Deadline(now, seconds))), y, w, t);
  }

  lemma DeadTakesRoom(cfg: StoreConfig, s: Store, x: Key, dead: Entry, y: Key, value: Bytes, t: Time)
    requires cfg.maxMemory.Some? && cfg.policy.NoEviction? && x != y && s.db == map[x := dead] && dead.Expired(t)
    requires EntryBytes(y, Lasting(value)) <= cfg.maxMemory.value
    requires EntryBytes(x, dead) + EntryBytes(y, Lasting(value)) > cfg.maxMemory.value
    ensures Apply(cfg, s, Set(y, value), t, {}).reply == Failed(OutOfMemory)
    ensures Eager(cfg, s, Set(y, value), t).reply == Done
  {
    var none: Db := map[];
    var entry := Lasting(value);
    AddEntry(none, x, dead);
    AddEntry(none, y, entry);
    AddEntry(s.db, y, entry);
    assert none[x := dead] == s.db && Purge(s.db, {y}, t) == s.db && Live(s.db, t) == none;
    WriteAdmitted(cfg, s.(db := s.db), Set(y, value), Write(y, entry, Done), t, {});
    WriteAdmitted(cfg, s.(db := none), Set(y, value), Write(y, entry, Done), t, {});
  }

  // ---- live entries that go for expired ones ----

  /** A write that fits together with the live entries. */
  ghost predicate FitsLive(cfg: StoreConfig, db: Db, op: Op, now: Time) {
    && (op.Set? || op.Push?) && Attempt(Purge(db, {op.key}, now), op).Some?
    && var w := Attempt(Purge(db, {op.key}, now), op).value;
       Fits(cfg, Live(db, now)[w.key := w.entry])
  }

  /** The eviction that it may cause can take a live entry. */
  ghost predicate LiveMayGo(cfg: StoreConfig, db: Db, op: Op, now: Time)
    requires op.Set? || op.Push?
  {
    exists victims: set<Key> ::
      Chosen(cfg, Purge(db, {op.key}, now), op, victims) && victims * Live(db, now).Keys != {}
  }

  /** Under random eviction a live entry may go although all live ones fit, exactly when the
      expired ones that are still there leave too little room and there is another live one. */
  lemma LiveGoesForDeadExactly(cfg: StoreConfig, db: Db, op: Op, w: Write, now: Time)
    requires cfg.maxMemory.Some? && cfg.policy.AllKeysRandom? && FitsLive(cfg, db, op, now)
    requires Attempt(Purge(db, {op.key}, now), op) == Some(w)
    ensures LiveMayGo(cfg, db, op, now) <==>
            && cfg.maxMemory.value < Footprint(Purge(db, {w.key}, now)[w.key := w.entry])
            && Live(db, now).Keys - {w.key} != {}
  {
    var kept := Purge(db, {op.key}, now);
    var full := kept[w.key := w.entry];
    assert w.key == op.key;
    if LiveMayGo(cfg, db, op, now) {
      var victims: set<Key> :| Chosen(cfg, kept, op, victims) && victims * Live(db, now).Keys != {};
      var k: Key :| k in victims && k in Live(db, now).Keys;
      assert Evicts(cfg, full, w.key) && k in Live(db, now).Keys - {w.key};
    } else if !Fits(cfg, full) && Live(db, now).Keys - {w.key} != {} {
      var k: Key :| k in Live(db, now).Keys - {w.key};
      RefusedAlone(cfg, Live(db, now), w);
      var victims := StartWith(full, w.key, cfg.maxMemory.value, k, w.entry);
      assert Chosen(cfg, kept, op, victims) && k in victims * Live(db, now).Keys;
    }
  }

  lemma StartWith(full: Db, key: Key, limit: nat, first: Key, entry: Entry) returns (victims: set<Key>)
    requires key in full && full[key] == entry && first in full && first != key
    requires Footprint(full) > limit && Footprint(map[key := entry]) <= limit
    ensures IsVictimSet(full, key, limit, victims) && first in victims
  {
    victims := {first};
    assert full - ({first} - {first}) == full && first in {first};
    if Footprint(full - {first}) > limit {
      victims := MakeRoom(full, key, limit, {first});
    }
  }

  /** Along no run can a live entry go while the live ones fit. */
  ghost predicate LiveNeverGoes(cfg: StoreConfig) {
    forall events: seq<Event>, op: Op, now: Time ::
      IsRun(cfg, EMPTY, events) && FitsLive(cfg, Run(cfg, EMPTY, events).db, op, now) ==>
        !LiveMayGo(cfg, Run(cfg, EMPTY, events).db, op, now)
  }

  lemma NoChoiceSparesLive(cfg: StoreConfig, db: Db, op: Op, now: Time)
    requires NoChoice(cfg) && FitsLive(cfg, db, op, now)
    ensures !LiveMayGo(cfg, db, op, now)
  {
    if LiveMayGo(cfg, db, op, now) {
      var kept := Purge(db, {op.key}, now);
      var w := Attempt(kept, op).value;
      var victims: set<Key> :| Chosen(cfg, kept, op, victims) && victims * Live(db, now).Keys != {};
      var k: Key :| k in victims && k in Live(db, now).Keys;
      assert Evicts(cfg, kept[w.key := w.entry], w.key) && k != w.key;
      OneKeyFits(Live(db, now)[w.key := w.entry], cfg.maxMemory.value, k, w.key);
    }
  }

  /** The filler beside a key that expires. */
  function HalfDead(limit: nat, deadline: Time): Db
    requires limit > 2 * ENTRY_OVERHEAD
  {
    map[[] := Lasting(Filler(limit))][Y := Entry(Text([]), Some(deadline))]
  }

  lemma HalfDeadReached(cfg: StoreConfig, limit: nat, seconds: u64, now: Time) returns (events: seq<Event>)
    requires Choosing(cfg, limit) && now < Deadline(now, seconds)
    ensures IsRun(cfg, EMPTY, events) && Run(cfg, EMPTY, events).db == HalfDead(limit, Deadline(now, seconds))
  {
    var e1, e2 := Event(Set([], Filler(limit)), now, {}), Event(Set(Y, []), now, {});
    var e3 := Event(Expire(Y, seconds), now, {});
    FillerStored(cfg, EMPTY, limit, e1);
    var s1 := Step(cfg, EMPTY, e1).store;
    MemoryFilled(cfg, s1, limit, e2);
    var s2 := Step(cfg, s1, e2).store;
    OtherExpires(cfg, s2, limit, e3);
    RunCons(cfg, s2, e3, []);
    RunCons(cfg, s1, e2, [e3] + []);
    RunCons(cfg, EMPTY, e1, [e2] + ([e3] + []));
    events := [e1] + ([e2] + ([e3] + []));
  }

  lemma OtherExpires(cfg: StoreConfig, s: Store, limit: nat, e: Event)
    requires limit > 2 * ENTRY_OVERHEAD && s.db == Full(Lasting(Filler(limit)))
    requires e.op.Expire? && e.op.key == Y && e.victims == {} && e.now < Deadline(e.now, e.op.seconds)
    ensures Legal(cfg, s, e) && Step(cfg, s, e).store.db == HalfDead(limit, Deadline(e.now, e.op.seconds))
  {
    ExpireStores(cfg, s, e);
  }

  lemma HalfDeadCrowds(cfg: StoreConfig, limit: nat, deadline: Time, t: Time)
    requires Choosing(cfg, limit) && deadline <= t
    ensures FitsLive(cfg, HalfDead(limit, deadline), Set(Z, []), t)
    ensures LiveMayGo(cfg, HalfDead(limit, deadline), Set(Z, []), t)
  {
    var db, filler, entry := HalfDead(limit, deadline), Lasting(Filler(limit)), Lasting([]);
    FullFills(limit, filler);
    AddEntry(map[[] := filler], Y, Entry(Text([]), Some(deadline)));
    AddEntry(db, Z, entry);
    assert Live(db, t) == map[[] := filler] && Purge(db, {Z}, t) == db;
    var none: Key := [];
    assert none in Live(db, t).Keys - {Z};
    LiveGoesForDeadExactly(cfg, db, Set(Z, []), Write(Z, entry, Done), t);
  }

  /** Under random eviction laziness shows in what is left, exactly in the configurations that
      leave a choice of victims: a live entry goes although all live ones would fit. */
  lemma LiveGoesByChoiceOnly(cfg: StoreConfig)
    ensures LiveNeverGoes(cfg) <==> NoChoice(cfg)
  {
    if NoChoice(cfg) {
      forall events: seq<Event>, op: Op, now: Time
        | IsRun(cfg, EMPTY, events) && FitsLive(cfg, Run(cfg, EMPTY, events).db, op, now)
        ensures !LiveMayGo(cfg, Run(cfg, EMPTY, events).db, op, now)
      {
        NoChoiceSparesLive(cfg, Run(cfg, EMPTY, events).db, op, now);
      }
    } else {
      var events := HalfDeadReached(cfg, cfg.maxMemory.value, 1, 0);
      HalfDeadCrowds(cfg, cfg.maxMemory.value, SECOND, SECOND);
    }
  }
}
