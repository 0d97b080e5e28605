/** The storage engine: entries and counters changed in place. Every operation is proved
    to do to them what the store model says. */
module Storage {
  import opened ByteStrings
  import opened StoreModel

  type Removed = seq<(Key, Entry)>

  function KeysOf(removed: Removed): set<Key> {
    set i | 0 <= i < |removed| :: removed[i].0
  }

  /** The part of the keyspace that eviction may not touch. */
  function Pinned(db: Db, protected: Option<Key>): Db {
    map k: Key | k in db && protected == Some(k) :: db[k]
  }

  lemma KeysOfSnoc(removed: Removed, key: Key, entry: Entry)
    ensures KeysOf(removed + [(key, entry)]) == KeysOf(removed) + {key}
  {
    var more := removed + [(key, entry)];
    assert forall i :: 0 <= i < |removed| ==> more[i] == removed[i];
    assert more[|removed|].0 == key;
    assert KeysOf(removed) <= KeysOf(more) by {
      forall k | k in KeysOf(removed) ensures k in KeysOf(more) {
        var i :| 0 <= i < |removed| && removed[i].0 == k;
        assert more[i].0 == k;
      }
    }
  }

  lemma KeysOfHead(removed: Removed, i: nat)
    requires i < |removed|
    ensures KeysOf(removed[i..]) == {removed[i].0} + KeysOf(removed[i + 1..])
  {
    var now, later := removed[i..], removed[i + 1..];
    forall k | k in KeysOf(now) ensures k in {removed[i].0} + KeysOf(later) {
      var j :| 0 <= j < |now| && now[j].0 == k;
      if j > 0 {
        assert later[j - 1].0 == k;
      }
    }
    forall k | k in KeysOf(later) ensures k in KeysOf(now) {
      var j :| 0 <= j < |later| && later[j].0 == k;
      assert now[j + 1].0 == k;
    }
    assert now[0].0 in KeysOf(now);
  }

  lemma DropLast(db: Db, victims: set<Key>, last: Key)
    requires last in db && last !in victims
    ensures db - victims - {last} == db - (victims + {last})
    ensures victims + {last} - {last} == victims
  {
  }

  class MemoryStore {
    const config: StoreConfig
    var entries: Db
    var expired: nat
    var evicted: nat
    var rejected: nat

    ghost function State(): Store
      reads this
    {
      Store(entries, expired, evicted, rejected)
    }

    constructor (config: StoreConfig)
      ensures this.config == config && State() == EMPTY
    {
      this.config := config;
      entries := map[];
      expired, evicted, rejected := 0, 0, 0;
    }

    // ---- helpers over the entries ----

    method RemoveIfExpired(key: Key, now: Time)
      modifies this`entries
      ensures entries == Purge(old(entries), {key}, now)
    {
      if key in entries && entries[key].Expired(now) {
        entries := entries - {key};
      }
    }

    method RestoreEntry(key: Key, previous: Option<Entry>)
      modifies this`entries
      ensures entries == match previous
                         case Some(entry) => old(entries)[key := entry]
                         case None => old(entries) - {key}
    {
      match previous {
        case Some(entry) => entries := entries[key := entry];
        case None => entries := entries - {key};
      }
    }

    /** The sum over all entries, in whatever order they come. */
    method EstimatedMemoryBytes() returns (total: nat)
      ensures total == Footprint(entries)
    {
      total := 0;
      var todo: Db := entries;
      while todo.Keys != {}
        invariant total + Footprint(todo) == Footprint(entries)
        decreases |todo|
      {
        var key: Key :| key in todo;
        SumStep(todo, EntryBytes, key);
        total := total + EntryBytes(key, todo[key]);
        assert (todo - {key}).Keys == todo.Keys - {key};
        todo := todo - {key};
      }
    }

    /** Any key but the protected one; none only when there is no other. */
    method PickEvictionKey(protected: Option<Key>) returns (key: Option<Key>)
      ensures key.None? <==> entries == Pinned(entries, protected)
      ensures key.Some? ==> key.value in entries && key != protected
    {
      var candidates := set k: Key | k in entries && protected != Some(k);
      if candidates == {} {
        assert forall k: Key :: k in entries ==> k !in candidates;
        return None;
      }
      var choice: Key :| choice in candidates;
      return Some(choice);
    }

    method RestoreEvicted(removed: Removed, ghost before: Db)
      requires entries == before - KeysOf(removed)
      requires forall i :: 0 <= i < |removed| ==> removed[i].0 in before && before[removed[i].0] == removed[i].1
      modifies this`entries
      ensures entries == before
    {
      for i := 0 to |removed|
        invariant forall k: Key :: k in before && k !in KeysOf(removed[i..]) ==> k in entries
        invariant forall k: Key :: k in entries ==> k in before && entries[k] == before[k]
      {
        KeysOfHead(removed, i);
        var (key, entry) := removed[i];
        entries := entries[key := entry];
      }
    }

    /** Random eviction. It ends for every sequence of choices, and whether it succeeds
        does not depend on them. */
    method EvictUntilWithinLimit(limit: nat, protected: Option<Key>)
      returns (r: Result<Removed, StoreError>)
      modifies this`entries
      ensures r.Ok? <==> Footprint(Pinned(old(entries), protected)) <= limit
      ensures r.Err? ==> r.error == OutOfMemory && entries == old(entries)
      ensures r.Ok? ==> EvictedFrom(old(entries), protected, limit, r.value, entries)
      ensures r.Ok? ==> Footprint(entries) <= limit
    {
      ghost var before := entries;
      var removed: Removed := [];
      NothingEvicted(before, protected, limit);
      var total := EstimatedMemoryBytes();
      while total > limit
        invariant total == Footprint(entries)
        invariant EvictedFrom(before, protected, limit, removed, entries)
        decreases |entries|
      {
        var pick := PickEvictionKey(protected);
        if pick.None? {
          PinnedIsLeft(before, protected, limit, removed, entries);
          RestoreEvicted(removed, before);
          return Err(OutOfMemory);
        }
        var key := pick.value;
        var entry := entries[key];
        OneMoreEvicted(before, protected, limit, removed, entries, key);
        assert (entries - {key}).Keys == entries.Keys - {key};
        entries := entries - {key};
        removed := removed + [(key, entry)];
        total := EstimatedMemoryBytes();
      }
      PinnedFits(before, protected, KeysOf(removed));
      return Ok(removed);
    }

    /** `after` and `removed` partition `before`, the protected key was spared, and the
        last removal was needed. */
    static ghost predicate EvictedFrom(before: Db, protected: Option<Key>, limit: nat, removed: Removed, after: Db) {
      && after == before - KeysOf(removed)
      && |KeysOf(removed)| == |removed|
      && (forall i :: 0 <= i < |removed| ==>
            removed[i].0 in before && before[removed[i].0] == removed[i].1 && protected != Some(removed[i].0))
      && (removed != [] ==> Footprint(before - (KeysOf(removed) - {removed[|removed| - 1].0})) > limit)
    }

    static lemma NothingEvicted(before: Db, protected: Option<Key>, limit: nat)
      ensures EvictedFrom(before, protected, limit, [], before)
    {
      assert before == before - KeysOf([]);
    }

    static lemma OneMoreEvicted(
      before: Db, protected: Option<Key>, limit: nat, removed: Removed, after: Db, key: Key)
      requires EvictedFrom(before, protected, limit, removed, after)
      requires key in after && protected != Some(key) && Footprint(after) > limit
      ensures EvictedFrom(before, protected, limit, removed + [(key, after[key])], after - {key})
    {
      DropLast(before, KeysOf(removed), key);
      KeysOfSnoc(removed, key, after[key]);
      var more := removed + [(key, after[key])];
      assert more[|more| - 1] == (key, after[key]);
      assert forall i :: 0 <= i < |removed| ==> more[i] == removed[i];
    }

    static lemma PinnedIsLeft(before: Db, protected: Option<Key>, limit: nat, removed: Removed, after: Db)
      requires EvictedFrom(before, protected, limit, removed, after)
      requires after == Pinned(after, protected)
      ensures Pinned(before, protected) == after
    {
      assert forall k: Key :: k in before && protected == Some(k) ==> k !in KeysOf(removed);
    }

    static lemma PinnedFits(db: Db, protected: Option<Key>, victims: set<Key>)
      requires protected.Some? ==> protected.value !in victims
      ensures Footprint(Pinned(db, protected)) <= Footprint(db - victims)
    {
      var kept := db - victims;
      assert Pinned(db, protected) == Pinned(kept, protected);
      var rest := set k: Key | k in kept && protected != Some(k);
      assert Pinned(kept, protected) == kept - rest;
      SumRemove(kept, EntryBytes, rest);
    }

    method EnforceMemoryLimit(protected: Key) returns (r: Result<Removed, StoreError>)
      requires protected in entries
      modifies this`entries
      ensures r.Err? ==>
                && r.error == OutOfMemory && entries == old(entries)
                && !Fits(config, entries) && !Evicts(config, entries, protected)
      ensures r.Ok? ==>
                && entries == old(entries) - KeysOf(r.value)
                && |KeysOf(r.value)| == |r.value|
                && (if Fits(config, old(entries)) then KeysOf(r.value) == {}
                    else Evicts(config, old(entries), protected)
                         && IsVictimSet(old(entries), protected, config.maxMemory.value, KeysOf(r.value)))
    {
      if config.maxMemory.None? {
        return Ok([]);
      }
      var total := EstimatedMemoryBytes();
      if total <= config.maxMemory.value {
        return Ok([]);
      }
      match config.policy {
        case NoEviction => return Err(OutOfMemory);
        case AllKeysRandom =>
          assert Pinned(entries, Some(protected)) == map[protected := entries[protected]];
          ghost var before := entries;
          r := EvictUntilWithinLimit(config.maxMemory.value, Some(protected));
          if r.Ok? {
            ghost var victims := KeysOf(r.value);
            assert victims <= before.Keys - {protected};
            assert before - {} == before;
            assert r.value == [] ==> victims == {};
            assert r.value[|r.value| - 1].0 in victims;
          }
      }
    }

    // ---- writes ----

    method Set(key: Key, value: Bytes, now: Time) returns (reply: Reply, ghost victims: set<Key>)
      modifies this
      ensures Chosen(config, Visit(old(State()), Op.Set(key, value), now).db, Op.Set(key, value), victims)
      ensures Outcome(State(), reply) == Apply(config, old(State()), Op.Set(key, value), now, victims)
    {
      RemoveIfExpired(key, now);
      ghost var base := entries;
      var previous := if key in entries then Some(entries[key]) else None;
      entries := entries[key := Entry(Text(value), None)];
      reply, victims := Settle(key, previous, Done, base);
    }

    /** The end of every write: enforce the limit, then count or roll back. */
    method Settle(key: Key, previous: Option<Entry>, accepted: Reply, ghost base: Db)
      returns (reply: Reply, ghost victims: set<Key>)
      requires key in entries && entries == base[key := entries[key]]
      requires previous == if key in base then Some(base[key]) else None
      modifies this
      ensures if Evicts(config, old(entries), key)
              then IsVictimSet(old(entries), key, config.maxMemory.value, victims) else victims == {}
      ensures Outcome(State(), reply) ==
              Commit(config, old(State()).(db := base), Write(key, old(entries[key]), accepted), victims)
    {
      assert base[key := entries[key]] == entries;
      ghost var before, write := State(), Write(key, entries[key], accepted);
      var enforced := EnforceMemoryLimit(key);
      if enforced.Ok? {
        victims := KeysOf(enforced.value);
        CommitAccepted(config, before.(db := base), write, victims);
        evicted := evicted + |enforced.value|;
        reply := accepted;
      } else {
        victims := {};
        RestoreEntry(key, previous);
        PutBack(base, before.db, key);
        rejected := rejected + 1;
        reply := Failed(enforced.error);
      }
    }

    static lemma CommitAccepted(cfg: StoreConfig, s: Store, w: Write, victims: set<Key>)
      requires var full := s.db[w.key := w.entry];
               if Fits(cfg, full) then victims == {} else Evicts(cfg, full, w.key)
      ensures var full := s.db[w.key := w.entry];
              Commit(cfg, s, w, victims) ==
              Outcome(s.(db := full - victims, evicted := s.evicted + |victims|), w.reply)
    {
      var full := s.db[w.key := w.entry];
      assert full - {} == full;
    }

    static lemma PutBack(base: Db, full: Db, key: Key)
      requires key in full && full == base[key := full[key]]
      ensures key in base ==> full[key := base[key]] == base
      ensures key !in base ==> full - {key} == base
    {
    }

    method Push(key: Key, values: seq<Bytes>, side: Side, now: Time) returns (reply: Reply, ghost victims: set<Key>)
      modifies this
      ensures var op := Op.Push(key, values, side); Chosen(config, Visit(old(State()), op, now).db, op, victims)
      ensures Outcome(State(), reply) == Apply(config, old(State()), Op.Push(key, values, side), now, victims)
    {
      ghost var before := State();
      RemoveIfExpired(key, now);
      ghost var base := entries;
      var previous := if key in entries then Some(entries[key]) else None;
      var entry := if key in entries then entries[key] else Entry(List([]), None);
      if entry.value.Text? {
        victims := {};
        PushOnText(config, before, key, values, side, now);
        return Failed(WrongType), {};
      }
      var items := PushAll(entry.value.items, values, side);
      entries := entries[key := entry.(value := List(items))];
      reply, victims := Settle(key, previous, Count(|items|), base);
      PushOnList(config, before, key, values, side, now, victims,
                 Write(key, entry.(value := List(items)), Count(|items|)));
    }

    static lemma PushOnText(
      cfg: StoreConfig, s: Store, key: Key, values: seq<Bytes>, side: Side, now: Time)
      requires var base := Purge(s.db, {key}, now); key in base && base[key].value.Text?
      ensures var op := Op.Push(key, values, side);
              && Attempt(Visit(s, op, now).db, op) == None
              && Apply(cfg, s, op, now, {}) == Outcome(s.(db := Purge(s.db, {key}, now)), Failed(WrongType))
    {
    }

    static lemma PushOnList(
      cfg: StoreConfig, s: Store, key: Key, values: seq<Bytes>, side: Side, now: Time, victims: set<Key>, w: Write)
      requires var base := Purge(s.db, {key}, now);
               var entry := if key in base then base[key] else Entry(List([]), None);
               && entry.value.List?
               && w.entry == entry.(value := List(Pushed(entry.value.items, values, side)))
               && w.key == key && w.reply == Count(|w.entry.value.items|)
      ensures var op := Op.Push(key, values, side);
              && Attempt(Visit(s, op, now).db, op) == Some(w)
              && Apply(cfg, s, op, now, victims) ==
                 Commit(cfg, s.(db := Purge(s.db, {key}, now)), w, victims)
    {
    }

    static method PushAll(items: seq<Bytes>, values: seq<Bytes>, side: Side) returns (list: seq<Bytes>)
      ensures list == Pushed(items, values, side)
    {
      list := items;
      for i := 0 to |values|
        invariant list == Pushed(items, values[..i], side)
      {
        assert values[..i + 1] == values[..i] + [values[i]];
        match side {
          case Left =>
            ReverseSnoc(values[..i], values[i]);
            list := [values[i]] + list;
          case Right =>
            list := list + [values[i]];
        }
      }
      assert values[..|values|] == values;
    }

    static lemma ReverseSnoc(s: seq<Bytes>, x: Bytes)
      ensures Reverse(s + [x]) == [x] + Reverse(s)
    {
    }

    // ---- reads and removals ----

    method Get(key: Key, now: Time) returns (reply: Reply)
      modifies this
      ensures Outcome(State(), reply) == Apply(config, old(State()), Op.Get(key), now, {})
    {
      RemoveIfExpired(key, now);
      if key !in entries {
        return Found(None);
      }
      match entries[key].value {
        case Text(bytes) => reply := Found(Some(bytes));
        case List(_) => reply := Failed(WrongType);
      }
    }

    method Del(keys: seq<Key>, now: Time) returns (reply: Reply)
      modifies this
      ensures Outcome(State(), reply) == Apply(config, old(State()), Op.Del(keys), now, {})
    {
      var count := RemoveKeys(keys, now);
      reply := Count(count);
    }

    /** The filter of `del`: removes the keys one by one and counts those that were there. */
    method RemoveKeys(keys: seq<Key>, now: Time) returns (count: nat)
      modifies this`entries
      ensures entries == Purge(old(entries), KeySet(keys), now) - KeySet(keys)
      ensures count == |Purge(old(entries), KeySet(keys), now).Keys * KeySet(keys)|
    {
      ghost var before := entries;
      ghost var present := Purge(before, KeySet(keys), now).Keys;
      count := 0;
      for i := 0 to |keys|
        invariant entries == before - KeySet(keys[..i])
        invariant count == |present * KeySet(keys[..i])|
      {
        var key := keys[i];
        DelStep(before, present, keys, i, now);
        RemoveIfExpired(key, now);
        if key in entries {
          count := count + 1;
        }
        entries := entries - {key};
      }
      assert keys[..|keys|] == keys;
      PurgeThenRemove(before, KeySet(keys), now);
    }

    static lemma DelStep(before: Db, present: set<Key>, keys: seq<Key>, i: nat, now: Time)
      requires i < |keys| && present == Purge(before, KeySet(keys), now).Keys
      ensures var seen := Purge(before - KeySet(keys[..i]), {keys[i]}, now);
              && seen - {keys[i]} == before - KeySet(keys[..i + 1])
              && |present * KeySet(keys[..i + 1])| ==
                 |present * KeySet(keys[..i])| + if keys[i] in seen then 1 else 0
    {
      var key, done := keys[i], KeySet(keys[..i]);
      KeySetStep(keys, i);
      StillPresent(before, KeySet(keys), done, key, now);
      CountOneMore(present, done, key);
      PurgeThenRemove(before - done, {key}, now);
      RemoveMore(before, done, key);
    }

    static lemma RemoveMore(db: Db, done: set<Key>, key: Key)
      ensures db - done - {key} == db - (done + {key})
    {
    }

    static lemma KeySetStep(keys: seq<Key>, i: nat)
      requires i < |keys|
      ensures KeySet(keys[..i + 1]) == KeySet(keys[..i]) + {keys[i]}
      ensures keys[i] in KeySet(keys)
    {
      assert keys[..i + 1] == keys[..i] + [keys[i]];
    }

    static lemma PurgeThenRemove(db: Db, keys: set<Key>, now: Time)
      ensures Purge(db, keys, now) - keys == db - keys
    {
    }

    static lemma StillPresent(db: Db, keys: set<Key>, done: set<Key>, key: Key, now: Time)
      requires key in keys
      ensures key in Purge(db - done, {key}, now) <==> key in Purge(db, keys, now) && key !in done
    {
    }

    static lemma CountOneMore(present: set<Key>, done: set<Key>, key: Key)
      ensures |present * (done + {key})| == |present * done| + if key in present && key !in done then 1 else 0
    {
      if key in present && key !in done {
        assert present * (done + {key}) == present * done + {key};
      } else {
        assert present * (done + {key}) == present * done;
      }
    }

    method Exists(keys: seq<Key>, now: Time) returns (reply: Reply)
      modifies this
      ensures Outcome(State(), reply) == Apply(config, old(State()), Op.Exists(keys), now, {})
    {
      ghost var before := entries;
      ghost var base := Purge(before, KeySet(keys), now);
      var count := 0;
      for i := 0 to |keys|
        invariant entries == Purge(before, KeySet(keys[..i]), now)
        invariant count + CountPresent(keys[i..], base) == CountPresent(keys, base)
        invariant State() == old(State()).(db := entries)
      {
        var key := keys[i];
        KeySetStep(keys, i);
        PurgeMore(before, KeySet(keys[..i]), KeySet(keys), key, now);
        assert keys[i..][1..] == keys[i + 1..];
        RemoveIfExpired(key, now);
        if key in entries {
          count := count + 1;
        }
      }
      assert keys[..|keys|] == keys;
      reply := Count(count);
    }

    static lemma PurgeMore(db: Db, done: set<Key>, keys: set<Key>, key: Key, now: Time)
      requires key in keys
      ensures Purge(Purge(db, done, now), {key}, now) == Purge(db, done + {key}, now)
      ensures key in Purge(db, done + {key}, now) <==> key in Purge(db, keys, now)
    {
    }

    method Pop(key: Key, side: Side, now: Time) returns (reply: Reply)
      modifies this
      ensures Outcome(State(), reply) == Apply(config, old(State()), Op.Pop(key, side), now, {})
    {
      RemoveIfExpired(key, now);
      if key !in entries {
        return Found(None);
      }
      if entries[key].value.Text? {
        return Failed(WrongType);
      }
      var list := entries[key].value.items;
      var value: Option<Bytes> := None;
      if list != [] {
        match side {
          case Left => value, list := Some(list[0]), list[1..];
          case Right => value, list := Some(list[|list| - 1]), list[..|list| - 1];
        }
      }
      entries := entries[key := entries[key].(value := List(list))];
      if list == [] {
        assert entries - {key} == Purge(old(entries), {key}, now) - {key};
        entries := entries - {key};
      }
      reply := Found(value);
    }

    method Lrange(key: Key, start: i64, stop: i64, now: Time) returns (reply: Reply)
      modifies this
      ensures Outcome(State(), reply) == Apply(config, old(State()), Op.Lrange(key, start, stop), now, {})
    {
      RemoveIfExpired(key, now);
      if key !in entries {
        return Elements([]);
      }
      if entries[key].value.Text? {
        return Failed(WrongType);
      }
      var list := entries[key].value.items;
      var range := NormalizeRange(|list|, start, stop);
      if range.None? {
        return Elements([]);
      }
      var (first, last) := range.value;
      assert list[first..][..last - first + 1] == list[first..last + 1];
      reply := Elements(list[first..][..last - first + 1]);
    }

    /** The two bounds, resolved and clamped; every intermediate value is an i64. */
    static method NormalizeRange(len: nat, start: i64, stop: i64) returns (range: Option<(nat, nat)>)
      ensures range.Some? ==>
                && range.value.0 <= range.value.1 < len
                && forall items: seq<Bytes> :: |items| == len ==>
                     Slice(items, start, stop) == items[range.value.0..range.value.1 + 1]
      ensures range.None? ==> forall items: seq<Bytes> :: |items| == len ==> Slice(items, start, stop) == []
    {
      if len == 0 {
        return None;
      }
      var first: int, last: int := start, stop;
      if start < 0 {
        first := len + start;
      }
      if stop < 0 {
        last := len + stop;
      }
      assert len <= I64_MAX ==> -0x8000_0000_0000_0000 <= first <= I64_MAX;
      assert len <= I64_MAX ==> -0x8000_0000_0000_0000 <= last <= I64_MAX;
      if first < 0 {
        first := 0;
      }
      if last < 0 || first >= len {
        return None;
      }
      if last >= len {
        last := len - 1;
      }
      if first > last {
        return None;
      }
      var lo: nat, hi: nat := first, last;
      return Some((lo, hi));
    }

    // ---- expiration ----

    method Expire(key: Key, seconds: u64, now: Time) returns (reply: Reply)
      modifies this
      ensures Outcome(State(), reply) == Apply(config, old(State()), Op.Expire(key, seconds), now, {})
    {
      var yes := ExpireAtTime(key, Deadline(now, seconds), now);
      reply := Flag(yes);
    }

    method ExpireAtUnix(key: Key, unixSeconds: u64, now: Time) returns (reply: Reply)
      modifies this
      ensures Outcome(State(), reply) == Apply(config, old(State()), Op.ExpireAt(key, unixSeconds), now, {})
    {
      var yes := ExpireAtTime(key, UnixDeadline(now, unixSeconds), now);
      reply := Flag(yes);
    }

    method ExpireAtTime(key: Key, deadline: Time, now: Time) returns (yes: bool)
      modifies this
      ensures Outcome(State(), Flag(yes)) ==
              Schedule(old(State()).(db := Purge(old(entries), {key}, now)), key, deadline, now)
    {
      RemoveIfExpired(key, now);
      if deadline <= now {
        yes := key in entries;
        assert !yes ==> entries - {key} == entries;
        entries := entries - {key};
        return;
      }
      if key !in entries {
        return false;
      }
      entries := entries[key := entries[key].(expiresAt := Some(deadline))];
      yes := true;
    }

    method TimeToLive(key: Key, now: Time) returns (reply: Reply)
      modifies this
      ensures Outcome(State(), reply) == Apply(config, old(State()), Op.TtlOf(key), now, {})
    {
      RemoveIfExpired(key, now);
      if key !in entries {
        return Lifetime(Missing);
      }
      match entries[key].expiresAt {
        case Some(deadline) =>
          reply := Lifetime(Seconds(if deadline < now then 0 else (deadline - now) / SECOND));
        case None => reply := Lifetime(NoExpiration);
      }
    }

    method Persist(key: Key, now: Time) returns (reply: Reply)
      modifies this
      ensures Outcome(State(), reply) == Apply(config, old(State()), Op.Persist(key), now, {})
    {
      RemoveIfExpired(key, now);
      if key !in entries {
        return Flag(false);
      }
      if entries[key].expiresAt.None? {
        return Flag(false);
      }
      entries := entries[key := entries[key].(expiresAt := None)];
      reply := Flag(true);
    }

    // ---- whole-keyspace operations ----

    /** `retain` over the entries, with the count of what it dropped. */
    method DropExpired(now: Time) returns (removed: nat)
      modifies this`entries, this`expired
      ensures entries == Live(old(entries), now)
      ensures removed == |old(entries).Keys - entries.Keys| && expired == old(expired) + removed
    {
      var before := |entries|;
      var kept := map k: Key | k in entries && !entries[k].Expired(now) :: entries[k];
      assert kept == Live(entries, now);
      assert |entries| == |entries.Keys| && |kept| == |kept.Keys|;
      assert entries.Keys == kept.Keys + (entries.Keys - kept.Keys);
      removed := before - |kept|;
      entries := kept;
      expired := expired + removed;
    }

    method CleanupExpired(now: Time) returns (reply: Reply)
      modifies this
      ensures Outcome(State(), reply) == Apply(config, old(State()), Sweep, now, {})
    {
      var removed := DropExpired(now);
      reply := Count(removed);
    }

    method Stats(now: Time) returns (reply: Reply)
      modifies this
      ensures Outcome(State(), reply) == Apply(config, old(State()), Op.Stats, now, {})
    {
      var removed := DropExpired(now);
      var stats := BuildStats();
      reply := Snapshot(stats.(expired := expired, evicted := evicted, rejected := rejected));
    }

    method BuildStats() returns (stats: StoreStats)
      ensures stats == StatsOf(config, Store(entries, 0, 0, 0))
    {
      stats := StoreStats(|entries|, 0, 0, 0, 0, 0, 0, 0, config.maxMemory, config.policy, 0, 0, 0);
      var todo: Db := entries;
      while todo.Keys != {}
        invariant WithRest(stats, todo) == StatsOf(config, Store(entries, 0, 0, 0))
        decreases |todo|
      {
        var key: Key :| key in todo;
        AddedOne(stats, todo, key);
        stats := AddEntry(stats, key, todo[key]);
        assert (todo - {key}).Keys == todo.Keys - {key};
        todo := todo - {key};
      }
    }

    /** What the loop of `build_stats` adds for one entry. */
    static function AddEntry(stats: StoreStats, key: Key, entry: Entry): StoreStats {
      var sized := stats.(
        keyBytes := stats.keyBytes + |key|,
        payloadBytes := stats.payloadBytes + entry.value.PayloadBytes(),
        estimatedBytes := stats.estimatedBytes + EntryBytes(key, entry),
        listItems := stats.listItems + entry.value.ListItems());
      var timed := if entry.expiresAt.Some? then sized.(expiringKeys := sized.expiringKeys + 1) else sized;
      match entry.value
      case Text(_) => timed.(stringKeys := timed.stringKeys + 1)
      case List(_) => timed.(listKeys := timed.listKeys + 1)
    }

    static ghost function WithRest(stats: StoreStats, rest: Db): StoreStats {
      stats.(
        stringKeys := stats.stringKeys + Sum(rest, IsText),
        listKeys := stats.listKeys + Sum(rest, IsList),
        expiringKeys := stats.expiringKeys + Sum(rest, IsExpiring),
        keyBytes := stats.keyBytes + Sum(rest, KeyBytes),
        payloadBytes := stats.payloadBytes + Sum(rest, PayloadBytes),
        estimatedBytes := stats.estimatedBytes + Footprint(rest),
        listItems := stats.listItems + Sum(rest, ItemCount))
    }

    static lemma AddedOne(stats: StoreStats, rest: Db, key: Key)
      requires key in rest
      ensures WithRest(AddEntry(stats, key, rest[key]), rest - {key}) == WithRest(stats, rest)
    {
      SumSteps(rest, key);
    }

    static lemma SumSteps(db: Db, key: Key)
      requires key in db
      ensures Sum(db, IsText) == IsText(key, db[key]) + Sum(db - {key}, IsText)
      ensures Sum(db, IsList) == IsList(key, db[key]) + Sum(db - {key}, IsList)
      ensures Sum(db, IsExpiring) == IsExpiring(key, db[key]) + Sum(db - {key}, IsExpiring)
      ensures Sum(db, KeyBytes) == KeyBytes(key, db[key]) + Sum(db - {key}, KeyBytes)
      ensures Sum(db, PayloadBytes) == PayloadBytes(key, db[key]) + Sum(db - {key}, PayloadBytes)
      ensures Footprint(db) == EntryBytes(key, db[key]) + Footprint(db - {key})
      ensures Sum(db, ItemCount) == ItemCount(key, db[key]) + Sum(db - {key}, ItemCount)
    {
      SumStep(db, IsText, key);
      SumStep(db, IsList, key);
      SumStep(db, IsExpiring, key);
      SumStep(db, KeyBytes, key);
      SumStep(db, PayloadBytes, key);
      SumStep(db, EntryBytes, key);
      SumStep(db, ItemCount, key);
    }

    static lemma InspectNothing(config: StoreConfig, s: Store, now: Time)
      ensures Apply(config, s, Op.Inspect(0), now, {}) == Outcome(s, Rows([]))
    {
      assert Purge(s.db, {}, now) == s.db;
    }

    static lemma InspectSome(config: StoreConfig, s: Store, limit: nat, now: Time)
      requires limit > 0
      ensures var db := Live(s.db, now);
              var rows := AllRows(db, now);
              Apply(config, s, Op.Inspect(limit), now, {}) ==
              Outcome(s.(db := db, expired := s.expired + |s.db.Keys - db.Keys|),
                      Rows(if limit < |rows| then rows[..limit] else rows))
    {
    }

    method InspectKeys(limit: nat, now: Time) returns (reply: Reply)
      modifies this
      ensures Outcome(State(), reply) == Apply(config, old(State()), Op.Inspect(limit), now, {})
    {
      if limit == 0 {
        InspectNothing(config, State(), now);
        return Rows([]);
      }
      InspectSome(config, State(), limit, now);
      var removed := DropExpired(now);
      var rows := AllRows(entries, now);
      reply := Rows(if limit < |rows| then rows[..limit] else rows);
    }
  }
}
