/** Replaying the log of a session rebuilds the store that the session left. */
module Recovery {
  import opened ByteStrings
  import opened Frames
  import opened Encoder
  import opened Parser
  import opened StoreModel
  import StoreTheorems
  import opened Commands
  import opened Sessions
  import opened LogFile

  // ---- deadlines in whole seconds ----

  function RoundUp(deadline: Time): Time {
    if CeilSeconds(deadline) <= I64_MAX then CeilSeconds(deadline) * SECOND else deadline
  }

  function RoundedEntry(entry: Entry): Entry {
    match entry.expiresAt
    case None => entry
    case Some(deadline) => entry.(expiresAt := Some(RoundUp(deadline)))
  }

  /** The same keys and values, deadlines rounded up to whole seconds. */
  function Rounded(db: Db): Db {
    map k: Key | k in db :: RoundedEntry(db[k])
  }

  /** The rounded deadline is reached by `start`, when the replay starts. */
  predicate Doomed(entry: Entry, start: Time) {
    entry.expiresAt.Some? && RoundUp(entry.expiresAt.value) <= start
  }

  /** What a replay that starts at `start` is to rebuild. */
  function Restored(db: Db, start: Time): Db {
    map k: Key | k in db && !Doomed(db[k], start) :: RoundedEntry(db[k])
  }

  /** In whole seconds, every deadline is reached by `start` or not by `finish`. */
  ghost predicate Lasts(db: Db, start: Time, finish: Time) {
    forall k: Key :: k in db && !Doomed(db[k], start) && db[k].expiresAt.Some? ==>
      RoundUp(db[k].expiresAt.value) > finish
  }

  /** What has expired is doomed. */
  ghost predicate Fresh(db: Db, now: Time, start: Time) {
    forall k: Key :: k in db && db[k].Expired(now) ==> Doomed(db[k], start)
  }

  /** So it is whenever the next full second comes before the replay. */
  lemma FreshBeforeStart(db: Db, now: Time, start: Time)
    requires RoundUp(now) <= start
    ensures Fresh(db, now, start)
  {
  }

  /** No client can tell the restored entries from the rounded ones once the replay has
      started: what is missing has expired. */
  lemma RestoredLooksRounded(db: Db, start: Time)
    ensures forall t: Time :: start <= t ==> Live(Restored(db, start), t) == Live(Rounded(db), t)
  {
  }

  lemma RestoredInsert(db: Db, key: Key, entry: Entry, start: Time)
    ensures Restored(db[key := entry], start) ==
            if Doomed(entry, start) then Restored(db, start) - {key}
            else Restored(db, start)[key := RoundedEntry(entry)]
  {
  }

  lemma RestoredRemove(db: Db, keys: set<Key>, start: Time)
    ensures Restored(db - keys, start) == Restored(db, start) - keys
  {
  }

  lemma {:induction false} RestoredFootprint(db: Db, start: Time)
    ensures Footprint(Restored(db, start)) <= Footprint(db)
    decreases |db|
  {
    if db.Keys == {} {
      assert db == map[] && Restored(db, start) == map[];
    } else {
      var k: Key :| k in db;
      assert (db - {k}).Keys == db.Keys - {k};
      RestoredFootprint(db - {k}, start);
      OneRestored(db, k, start);
      SumStep(db, EntryBytes, k);
    }
  }

  lemma OneRestored(db: Db, k: Key, start: Time)
    requires k in db
    ensures Footprint(Restored(db, start)) <= EntryBytes(k, db[k]) + Footprint(Restored(db - {k}, start))
  {
    RestoredRemove(db, {k}, start);
    if k in Restored(db, start) {
      SumStep(Restored(db, start), EntryBytes, k);
    } else {
      assert Restored(db, start) - {k} == Restored(db, start);
    }
  }

  /** Dropping what has expired drops doomed entries only. */
  lemma PurgeKeepsRestored(db: Db, keys: set<Key>, now: Time, start: Time, finish: Time)
    requires Lasts(db, start, finish) && Fresh(db, now, start)
    ensures Restored(Purge(db, keys, now), start) == Restored(db, start) && Lasts(Purge(db, keys, now), start, finish)
  {
  }

  lemma VisitKeepsRestored(s: Store, op: Op, now: Time, start: Time, finish: Time)
    requires Lasts(s.db, start, finish) && Fresh(s.db, now, start)
    ensures Restored(Visit(s, op, now).db, start) == Restored(s.db, start) && Lasts(Visit(s, op, now).db, start, finish)
  {
    PurgeKeepsRestored(s.db, s.db.Keys, now, start, finish);
    PurgeKeepsRestored(s.db, Named(op), now, start, finish);
  }

  /** No deadline is reached by `finish`. */
  ghost predicate AllLater(db: Db, finish: Time) {
    forall k: Key :: k in db && db[k].expiresAt.Some? ==> db[k].expiresAt.value > finish
  }

  lemma RestoredLater(db: Db, start: Time, finish: Time)
    requires Lasts(db, start, finish)
    ensures AllLater(Restored(db, start), finish)
  {
  }

  lemma NothingToVisit(s: Store, op: Op, now: Time, finish: Time)
    requires AllLater(s.db, finish) && now <= finish
    ensures Visit(s, op, now) == s
  {
    assert forall k: Key :: k in s.db ==> !s.db[k].Expired(now);
    assert Purge(s.db, Named(op), now) == s.db && Live(s.db, now) == s.db;
  }

  // ---- logged deadlines ----

  function LiveDeadline(command: Command, now: Time): Time
    requires command.Expire? || command.ExpireAt?
  {
    if command.Expire? then Deadline(now, command.seconds) else UnixDeadline(now, command.unixSeconds)
  }

  lemma LoggedDeadline(command: Command, now: Time, at: Time)
    requires command.Expire? || command.ExpireAt?
    ensures var live, logged := LiveDeadline(command, now), Logged(command, now).unixSeconds;
            && (logged <= I64_MAX ==>
                  && UnixDeadline(at, logged) == logged * SECOND == RoundUp(live)
                  && live <= logged * SECOND < live + SECOND)
            && (logged > I64_MAX ==> UnixDeadline(at, logged) == at)
  {
  }

  /** The clock is read once to log an expiry and once more to execute it. The deadline
      logged is early by no more than the time in between, and late by less than a second. */
  lemma DeadlineBound(logging: Time, executing: Time, seconds: u64)
    requires logging <= executing && executing + seconds * SECOND <= MAX_TIME
    ensures var logged, live := ExpirationDeadline(logging, seconds) * SECOND, Deadline(executing, seconds);
            live - (executing - logging) <= logged < live + SECOND - (executing - logging)
  {
  }

  /** When the two readings agree, the `TTL` of the replayed key is the live one or one
      second more, as long as the live key exists. */
  lemma TtlAfterReplay(cfg: StoreConfig, live: Store, back: Store, live': Store, back': Store,
                       key: Key, seconds: u64, now: Time, at: Time, t: Time)
    requires key in live.db && !live.db[key].Expired(now) && key in back.db && !back.db[key].Expired(at)
    requires live' == Apply(cfg, live, Op.Expire(key, seconds), now, {}).store
    requires back' == Apply(cfg, back, Op.ExpireAt(key, ExpirationDeadline(now, seconds)), at, {}).store
    requires now + seconds * SECOND <= MAX_TIME - SECOND && now <= t && at <= t < now + seconds * SECOND
    ensures exists ttl, late ::
              && Apply(cfg, live', TtlOf(key), t, {}).reply == Lifetime(Seconds(ttl))
              && Apply(cfg, back', TtlOf(key), t, {}).reply == Lifetime(Seconds(late))
              && ttl <= late <= ttl + 1
  {
    var deadline, logged := Deadline(now, seconds), ExpirationDeadline(now, seconds);
    DeadlineBound(now, now, seconds);
    Scheduled(cfg, live, live', Op.Expire(key, seconds), now, deadline, t);
    Scheduled(cfg, back, back', Op.ExpireAt(key, logged), at, logged * SECOND, t);
    SecondsApart(deadline - t, logged * SECOND - t);
  }

  lemma Scheduled(cfg: StoreConfig, s: Store, s': Store, op: Op, now: Time, deadline: Time, t: Time)
    requires (op.Expire? || op.ExpireAt?) && op.key in s.db && !s.db[op.key].Expired(now)
    requires deadline == if op.Expire? then Deadline(now, op.seconds) else UnixDeadline(now, op.unixSeconds)
    requires now < deadline && t < deadline && s' == Apply(cfg, s, op, now, {}).store
    ensures Apply(cfg, s', TtlOf(op.key), t, {}).reply == Lifetime(Seconds((deadline - t) / SECOND))
  {
    assert op.key in s'.db && s'.db[op.key].expiresAt == Some(deadline);
    TtlOfEntry(cfg, s', op.key, deadline, t);
  }

  lemma TtlOfEntry(cfg: StoreConfig, s: Store, key: Key, deadline: Time, t: Time)
    requires key in s.db && s.db[key].expiresAt == Some(deadline) && t < deadline
    ensures Apply(cfg, s, TtlOf(key), t, {}).reply == Lifetime(Seconds((deadline - t) / SECOND))
  {
  }

  lemma SecondsApart(a: nat, b: nat)
    requires a <= b < a + SECOND
    ensures b / SECOND == a / SECOND || b / SECOND == a / SECOND + 1
  {
  }

  // ---- one operation ----

  /** Every victim is doomed anyway: so when nothing is evicted. */
  ghost predicate Expendable(db: Db, victims: set<Key>, start: Time) {
    forall k: Key :: k in victims ==> k in db && Doomed(db[k], start)
  }

  /** The operation on the restored entries succeeds, and leaves what is to be restored of the
      live outcome. */
  ghost predicate Alike(live: Outcome, back: Outcome, start: Time) {
    back.store.db == Restored(live.store.db, start) && !back.reply.Failed?
  }

  ghost predicate StaysAlike(live: Outcome, back: Outcome, start: Time, finish: Time) {
    Alike(live, back, start) && Lasts(live.store.db, start, finish)
  }

  lemma AttemptsAlike(db: Db, op: Op, start: Time)
    requires (op.Set? || op.Push?) && Attempt(db, op).Some?
    requires op.Push? && op.key in db ==> !Doomed(db[op.key], start)
    ensures var w := Attempt(db, op).value;
            && Attempt(Restored(db, start), op) == Some(w.(entry := RoundedEntry(w.entry)))
            && w.key == op.key && !Doomed(w.entry, start) && !w.reply.Failed?
            && w.entry.expiresAt == if op.Push? && op.key in db then db[op.key].expiresAt else None
  {
  }

  lemma VictimsMatterNot(db: Db, key: Key, entry: Entry, victims: set<Key>, start: Time)
    requires Expendable(db, victims, start) && key !in victims
    ensures Restored(db[key := entry] - victims, start) == Restored(db[key := entry], start)
  {
  }

  lemma WritesAlike(cfg: StoreConfig, live: Store, back: Store, w: Write, victims: set<Key>, victims': set<Key>,
                    start: Time, finish: Time)
    requires Lasts(live.db, start, finish) && back.db == Restored(live.db, start) && Expendable(live.db, victims, start)
    requires !w.reply.Failed? && !Doomed(w.entry, start)
    requires w.entry.expiresAt.Some? ==> RoundUp(w.entry.expiresAt.value) > finish
    requires var full := live.db[w.key := w.entry];
             if Evicts(cfg, full, w.key) then IsVictimSet(full, w.key, cfg.maxMemory.value, victims) else victims == {}
    requires !Commit(cfg, live, w, victims).reply.Failed?
    ensures StaysAlike(Commit(cfg, live, w, victims),
                       Commit(cfg, back, w.(entry := RoundedEntry(w.entry)), victims'), start, finish)
  {
    var full := live.db[w.key := w.entry];
    StoreTheorems.CommitOutcome(cfg, live, w, victims);
    VictimsMatterNot(live.db, w.key, w.entry, victims, start);
    RestoredInsert(live.db, w.key, w.entry, start);
    RestoredFits(cfg, full - victims, start);
  }

  lemma RestoredFits(cfg: StoreConfig, db: Db, start: Time)
    requires Fits(cfg, db)
    ensures Fits(cfg, Restored(db, start))
  {
    RestoredFootprint(db, start);
  }

  lemma PopsAlike(live: Store, back: Store, key: Key, side: Side, start: Time, finish: Time)
    requires Lasts(live.db, start, finish) && back.db == Restored(live.db, start)
    requires !PopFrom(live, key, side).reply.Failed?
    ensures StaysAlike(PopFrom(live, key, side), PopFrom(back, key, side), start, finish)
  {
    if key in live.db {
      if Doomed(live.db[key], start) {
        PopOfDoomed(live, key, side, start, finish);
      } else {
        PopOfLasting(live, back, key, side, start, finish);
      }
    }
  }

  lemma PopLeaves(s: Store, key: Key, side: Side, items: seq<Bytes>, left: seq<Bytes>)
    requires key in s.db && s.db[key].value == List(items)
    requires left == if items == [] then [] else if side.Left? then items[1..] else items[..|items| - 1]
    ensures !PopFrom(s, key, side).reply.Failed?
    ensures PopFrom(s, key, side).store.db ==
            if left == [] then s.db - {key} else s.db[key := s.db[key].(value := List(left))]
  {
  }

  lemma PopOfDoomed(live: Store, key: Key, side: Side, start: Time, finish: Time)
    requires Lasts(live.db, start, finish) && key in live.db && Doomed(live.db[key], start) && live.db[key].value.List?
    ensures var after := PopFrom(live, key, side).store.db;
            Lasts(after, start, finish) && Restored(after, start) == Restored(live.db, start)
  {
    var items := live.db[key].value.items;
    var left := if items == [] then [] else if side.Left? then items[1..] else items[..|items| - 1];
    PopLeaves(live, key, side, items, left);
    RestoredRemove(live.db, {key}, start);
    RestoredInsert(live.db, key, live.db[key].(value := List(left)), start);
    assert Restored(live.db, start) - {key} == Restored(live.db, start);
  }

  lemma PopOfLasting(live: Store, back: Store, key: Key, side: Side, start: Time, finish: Time)
    requires Lasts(live.db, start, finish) && back.db == Restored(live.db, start)
    requires key in live.db && !Doomed(live.db[key], start) && live.db[key].value.List?
    ensures StaysAlike(PopFrom(live, key, side), PopFrom(back, key, side), start, finish)
  {
    var items := live.db[key].value.items;
    var left := if items == [] then [] else if side.Left? then items[1..] else items[..|items| - 1];
    PopLeaves(live, key, side, items, left);
    PopLeaves(back, key, side, items, left);
    RestoredRemove(live.db, {key}, start);
    RestoredInsert(live.db, key, live.db[key].(value := List(left)), start);
  }

  lemma RemovalsAlike(cfg: StoreConfig, live: Store, back: Store, op: Op, now: Time, at: Time,
                      victims: set<Key>, victims': set<Key>, start: Time, finish: Time)
    requires op.Del? && Lasts(live.db, start, finish) && back.db == Restored(live.db, start)
    ensures StaysAlike(Plain(cfg, live, op, now, victims), Plain(cfg, back, op, at, victims'), start, finish)
  {
    RestoredRemove(live.db, KeySet(op.keys), start);
  }

  lemma PersistsAlike(cfg: StoreConfig, live: Store, back: Store, op: Op, now: Time, at: Time,
                      victims: set<Key>, victims': set<Key>, start: Time, finish: Time)
    requires op.Persist? && Lasts(live.db, start, finish) && back.db == Restored(live.db, start)
    requires op.key in live.db ==> !Doomed(live.db[op.key], start)
    ensures StaysAlike(Plain(cfg, live, op, now, victims), Plain(cfg, back, op, at, victims'), start, finish)
  {
    if op.key in live.db {
      RestoredInsert(live.db, op.key, live.db[op.key].(expiresAt := None), start);
    }
  }

  lemma PushesAlike(cfg: StoreConfig, live: Store, back: Store, op: Op, now: Time, at: Time,
                    victims: set<Key>, victims': set<Key>, start: Time, finish: Time)
    requires (op.Set? || op.Push?) && Lasts(live.db, start, finish) && back.db == Restored(live.db, start)
    requires op.Push? && op.key in live.db ==> !Doomed(live.db[op.key], start)
    requires Chosen(cfg, live.db, op, victims) && Expendable(live.db, victims, start)
    requires !Plain(cfg, live, op, now, victims).reply.Failed?
    ensures StaysAlike(Plain(cfg, live, op, now, victims), Plain(cfg, back, op, at, victims'), start, finish)
  {
    AttemptsAlike(live.db, op, start);
    WritesAlike(cfg, live, back, Attempt(live.db, op).value, victims, victims', start, finish);
  }

  /** Whether an expiry of `entry` at `now` can be replayed. A deadline reached at once has to
      be reached in whole seconds when the replay starts, unless the entry is doomed anyway.
      Another has to be so too, or else, in whole seconds, to outlast the replay on an entry
      that is not doomed. */
  predicate SafeDeadline(entry: Entry, command: Command, now: Time, start: Time, finish: Time)
    requires command.Expire? || command.ExpireAt?
  {
    var live, logged := LiveDeadline(command, now), Logged(command, now).unixSeconds;
    if live <= now then Doomed(entry, start) || logged > I64_MAX || logged * SECOND <= start
    else RoundUp(live) <= start || (!Doomed(entry, start) && logged <= I64_MAX && RoundUp(live) > finish)
  }

  lemma SchedulesAlike(live: Store, back: Store, command: Command, now: Time, at: Time, start: Time, finish: Time)
    requires (command.Expire? || command.ExpireAt?) && start <= at <= finish
    requires Lasts(live.db, start, finish) && back.db == Restored(live.db, start)
    requires command.key in live.db ==> SafeDeadline(live.db[command.key], command, now, start, finish)
    ensures StaysAlike(Schedule(live, command.key, LiveDeadline(command, now), now),
                       Schedule(back, command.key, UnixDeadline(at, Logged(command, now).unixSeconds), at),
                       start, finish)
  {
    LoggedDeadline(command, now, at);
    if command.key in live.db {
      KeptOrDropped(live, back, command, now, start, at);
      if LiveDeadline(command, now) <= now {
        DeletesAlike(live, back, command.key, UnixDeadline(at, Logged(command, now).unixSeconds), at, start, finish);
      } else {
        DatesAlike(live, back, command.key, LiveDeadline(command, now),
                   UnixDeadline(at, Logged(command, now).unixSeconds), at, start, finish);
      }
    }
  }

  lemma DeletesAlike(live: Store, back: Store, key: Key, again: Time, at: Time, start: Time, finish: Time)
    requires Lasts(live.db, start, finish) && back.db == Restored(live.db, start)
    requires key in live.db && (Doomed(live.db[key], start) || again <= at)
    ensures Lasts(live.db - {key}, start, finish)
    ensures Schedule(back, key, again, at).store.db == Restored(live.db - {key}, start)
  {
    RestoredRemove(live.db, {key}, start);
    assert key !in back.db ==> back.db - {key} == back.db;
  }

  lemma DatesAlike(live: Store, back: Store, key: Key, deadline: Time, again: Time, at: Time, start: Time, finish: Time)
    requires Lasts(live.db, start, finish) && back.db == Restored(live.db, start) && key in live.db
    requires RoundUp(deadline) <= start || RoundUp(deadline) > finish
    requires RoundUp(deadline) <= start ==> again <= at || Doomed(live.db[key], start)
    requires RoundUp(deadline) > finish >= start ==>
               !Doomed(live.db[key], start) && again == RoundUp(deadline) && again > at
    requires start <= finish
    ensures var db := live.db[key := live.db[key].(expiresAt := Some(deadline))];
            Lasts(db, start, finish) && Schedule(back, key, again, at).store.db == Restored(db, start)
  {
    var entry := live.db[key].(expiresAt := Some(deadline));
    RestoredInsert(live.db, key, entry, start);
    assert key !in back.db ==> back.db - {key} == back.db;
  }

  /** If it cannot, it is not rebuilt at the start of the replay or not at its end. */
  lemma SchedulesApart(live: Store, back: Store, command: Command, now: Time, start: Time, finish: Time)
    requires (command.Expire? || command.ExpireAt?) && start <= finish && back.db == Restored(live.db, start)
    requires command.key in live.db && !SafeDeadline(live.db[command.key], command, now, start, finish)
    ensures var done := Schedule(live, command.key, LiveDeadline(command, now), now);
            var logged := Logged(command, now).unixSeconds;
            !(&& Alike(done, Schedule(back, command.key, UnixDeadline(start, logged), start), start)
              && Alike(done, Schedule(back, command.key, UnixDeadline(finish, logged), finish), start))
  {
    var done := Schedule(live, command.key, LiveDeadline(command, now), now).store.db;
    KeptOrDropped(live, back, command, now, start, start);
    KeptOrDropped(live, back, command, now, start, finish);
    assert command.key in Restored(done, start) <==> command.key in done && !Doomed(done[command.key], start);
  }

  /** Which of the two keep the key. */
  lemma KeptOrDropped(live: Store, back: Store, command: Command, now: Time, start: Time, at: Time)
    requires (command.Expire? || command.ExpireAt?) && command.key in live.db && back.db == Restored(live.db, start)
    ensures var key, deadline := command.key, LiveDeadline(command, now);
            var logged := Logged(command, now).unixSeconds;
            var done := Schedule(live, key, deadline, now).store.db;
            && (key in done <==> deadline > now) && (key in done ==> done[key].expiresAt == Some(deadline))
            && (key in Schedule(back, key, UnixDeadline(at, logged), at).store.db <==>
                  !Doomed(live.db[key], start) && logged <= I64_MAX && logged * SECOND > at)
    ensures var logged := Logged(command, now).unixSeconds;
            logged <= I64_MAX ==> RoundUp(LiveDeadline(command, now)) == logged * SECOND
  {
    LoggedDeadline(command, now, at);
  }

  // ---- one command ----

  lemma ExecutedIsPlain(cfg: StoreConfig, s: Store, command: Command, now: Time, victims: set<Key>)
    requires OpOf(command).Some?
    ensures var (after, answer) := Executed(cfg, s, command, now, victims);
            var op := OpOf(command).value;
            var plain := Plain(cfg, Visit(s, op, now), op, now, victims);
            after == plain.store && (answer.Err? <==> plain.reply.Failed?)
  {
  }

  predicate Unexpired(db: Db, key: Key, now: Time) {
    key in db && !db[key].Expired(now)
  }

  /** Whether what a command does at `now` can be rebuilt by a replay between `start` and
      `finish`: nothing that is to last may be done to a key that is doomed and there. */
  predicate Safe(db: Db, command: Command, now: Time, start: Time, finish: Time) {
    match command
    case Persist(key) => Unexpired(db, key, now) ==> !Doomed(db[key], start)
    case Lpush(key, _) => Unexpired(db, key, now) ==> !Doomed(db[key], start)
    case Rpush(key, _) => Unexpired(db, key, now) ==> !Doomed(db[key], start)
    case Expire(key, _) => Unexpired(db, key, now) ==> SafeDeadline(db[key], command, now, start, finish)
    case ExpireAt(key, _) => Unexpired(db, key, now) ==> SafeDeadline(db[key], command, now, start, finish)
    case _ => true
  }

  lemma VisitedKey(s: Store, op: Op, key: Key, now: Time)
    requires Named(op) == {key} && !VisitsAll(op)
    ensures var db := Visit(s, op, now).db;
            (key in db <==> Unexpired(s.db, key, now)) && (key in db ==> db[key] == s.db[key])
  {
  }

  /** The logged command, replayed at `at`, succeeds and makes the entries `db`. */
  ghost predicate Redone(cfg: StoreConfig, back: Store, command: Command, now: Time, at: Time, victims: set<Key>,
                         db: Db) {
    var (after, answer) := Executed(cfg, back, Logged(command, now), at, victims);
    answer.Ok? && after.db == db
  }

  /** Whenever it is replayed, a command rebuilds what is to be restored of its effect. */
  ghost predicate Recovers(cfg: StoreConfig, live: Store, back: Store, command: Command, now: Time, victims: set<Key>,
                           start: Time, finish: Time) {
    var after := Executed(cfg, live, command, now, victims).0.db;
    forall at: Time, victims': set<Key> :: start <= at <= finish ==>
      Redone(cfg, back, command, now, at, victims', Restored(after, start))
  }

  lemma ExpiryIsSchedule(cfg: StoreConfig, s: Store, command: Command, now: Time, victims: set<Key>)
    requires command.Expire? || command.ExpireAt?
    ensures Executed(cfg, s, command, now, victims).1.Ok?
    ensures Executed(cfg, s, command, now, victims).0 ==
            Schedule(Visit(s, OpOf(command).value, now), command.key, LiveDeadline(command, now), now).store
  {
    ScheduledPlainly(cfg, Visit(s, OpOf(command).value, now), OpOf(command).value, now, LiveDeadline(command, now),
                     victims);
    ExecutedIsPlain(cfg, s, command, now, victims);
  }

  lemma ScheduledPlainly(cfg: StoreConfig, s: Store, op: Op, now: Time, deadline: Time, victims: set<Key>)
    requires op.Expire? || op.ExpireAt?
    requires deadline == if op.Expire? then Deadline(now, op.seconds) else UnixDeadline(now, op.unixSeconds)
    ensures Plain(cfg, s, op, now, victims) == Schedule(s, op.key, deadline, now)
    ensures !Plain(cfg, s, op, now, victims).reply.Failed?
  {
  }

  /** The live expiry as a change of one entry. */
  lemma ExpiryLive(cfg: StoreConfig, live: Store, command: Command, op: Op, now: Time, victims: set<Key>,
                   start: Time, finish: Time)
    requires (command.Expire? || command.ExpireAt?) && OpOf(command) == Some(op) && Fresh(live.db, now, start)
    requires Lasts(live.db, start, finish)
    ensures var v := Visit(live, op, now);
            && Lasts(v.db, start, finish) && Restored(v.db, start) == Restored(live.db, start)
            && (command.key in v.db <==> Unexpired(live.db, command.key, now))
            && (command.key in v.db ==> v.db[command.key] == live.db[command.key])
            && Executed(cfg, live, command, now, victims).0 ==
               Schedule(v, command.key, LiveDeadline(command, now), now).store
  {
    VisitKeepsRestored(live, op, now, start, finish);
    VisitedKey(live, op, command.key, now);
    ExpiryIsSchedule(cfg, live, command, now, victims);
  }

  /** And the logged one. */
  lemma ExpiryBack(cfg: StoreConfig, live: Db, back: Store, command: Command, now: Time, at: Time, victims: set<Key>,
                   start: Time, finish: Time)
    requires (command.Expire? || command.ExpireAt?) && at <= finish
    requires Lasts(live, start, finish) && back.db == Restored(live, start)
    ensures Executed(cfg, back, Logged(command, now), at, victims).1.Ok?
    ensures Executed(cfg, back, Logged(command, now), at, victims).0 ==
            Schedule(back, command.key, UnixDeadline(at, Logged(command, now).unixSeconds), at).store
  {
    RestoredLater(live, start, finish);
    NothingToVisit(back, OpOf(Logged(command, now)).value, at, finish);
    ExpiryIsSchedule(cfg, back, Logged(command, now), at, victims);
  }

  lemma ExpiryRedone(cfg: StoreConfig, live: Store, back: Store, command: Command, now: Time, victims: set<Key>,
                     at: Time, victims': set<Key>, start: Time, finish: Time)
    requires (command.Expire? || command.ExpireAt?) && Fresh(live.db, now, start) && start <= at <= finish
    requires Lasts(live.db, start, finish) && back.db == Restored(live.db, start)
    requires Safe(live.db, command, now, start, finish)
    ensures var after := Executed(cfg, live, command, now, victims).0.db;
            Lasts(after, start, finish) && Redone(cfg, back, command, now, at, victims', Restored(after, start))
  {
    ExpiryLive(cfg, live, command, OpOf(command).value, now, victims, start, finish);
    ExpiryBack(cfg, live.db, back, command, now, at, victims', start, finish);
    SchedulesAlike(Visit(live, OpOf(command).value, now), back, command, now, at, start, finish);
  }

  lemma ExpiryLost(cfg: StoreConfig, live: Store, back: Store, command: Command, now: Time, victims: set<Key>,
                   start: Time, finish: Time)
    requires (command.Expire? || command.ExpireAt?) && Fresh(live.db, now, start) && start <= finish
    requires Lasts(live.db, start, finish) && back.db == Restored(live.db, start)
    requires !Safe(live.db, command, now, start, finish)
    ensures var after := Executed(cfg, live, command, now, victims).0.db;
            !(&& Redone(cfg, back, command, now, start, {}, Restored(after, start))
              && Redone(cfg, back, command, now, finish, {}, Restored(after, start)))
  {
    ExpiryLive(cfg, live, command, OpOf(command).value, now, victims, start, finish);
    ExpiryBack(cfg, live.db, back, command, now, start, {}, start, finish);
    ExpiryBack(cfg, live.db, back, command, now, finish, {}, start, finish);
    SchedulesApart(Visit(live, OpOf(command).value, now), back, command, now, start, finish);
  }

  /** Whether an operation other than an expiry is safe, on entries that have been visited. */
  predicate SafeOp(db: Db, op: Op, start: Time) {
    (op.Persist? || op.Push?) && op.key in db ==> !Doomed(db[op.key], start)
  }

  lemma ChangesAlike(cfg: StoreConfig, live: Store, back: Store, op: Op, now: Time, at: Time,
                     victims: set<Key>, victims': set<Key>, start: Time, finish: Time)
    requires op.Set? || op.Push? || op.Pop? || op.Del? || op.Persist?
    requires Lasts(live.db, start, finish) && back.db == Restored(live.db, start) && SafeOp(live.db, op, start)
    requires Chosen(cfg, live.db, op, victims) && Expendable(live.db, victims, start)
    requires !Plain(cfg, live, op, now, victims).reply.Failed?
    ensures StaysAlike(Plain(cfg, live, op, now, victims), Plain(cfg, back, op, at, victims'), start, finish)
  {
    match op {
      case Set(_, _) => PushesAlike(cfg, live, back, op, now, at, victims, victims', start, finish);
      case Push(_, _, _) => PushesAlike(cfg, live, back, op, now, at, victims, victims', start, finish);
      case Pop(key, side) => PopsAlike(live, back, key, side, start, finish);
      case Del(_) => RemovalsAlike(cfg, live, back, op, now, at, victims, victims', start, finish);
      case Persist(_) => PersistsAlike(cfg, live, back, op, now, at, victims, victims', start, finish);
    }
  }

  /** What is done to a doomed key to last is lost: the replay does not find the key. */
  lemma ChangesApart(cfg: StoreConfig, live: Store, back: Store, op: Op, now: Time, at: Time,
                     victims: set<Key>, start: Time, finish: Time)
    requires (op.Persist? || op.Push?) && !SafeOp(live.db, op, start)
    requires Lasts(live.db, start, finish) && back.db == Restored(live.db, start)
    requires Chosen(cfg, live.db, op, victims) && !Plain(cfg, live, op, now, victims).reply.Failed?
    ensures !Alike(Plain(cfg, live, op, now, victims), Plain(cfg, back, op, at, {}), start)
  {
    assert op.key !in back.db;
    if op.Persist? {
      assert op.key in Restored(Plain(cfg, live, op, now, victims).store.db, start);
    } else {
      PushOnDoomed(cfg, live, op, now, victims, start);
      PushAfresh(cfg, back, op, at, {});
    }
  }

  lemma PushOnDoomed(cfg: StoreConfig, s: Store, op: Op, now: Time, victims: set<Key>, start: Time)
    requires op.Push? && op.key in s.db && Doomed(s.db[op.key], start)
    requires Chosen(cfg, s.db, op, victims) && !Plain(cfg, s, op, now, victims).reply.Failed?
    ensures op.key !in Restored(Plain(cfg, s, op, now, victims).store.db, start)
  {
    StoreTheorems.CommitOutcome(cfg, s, Attempt(s.db, op).value, victims);
  }

  lemma PushAfresh(cfg: StoreConfig, s: Store, op: Op, now: Time, victims: set<Key>)
    requires op.Push? && op.key !in s.db && op.key !in victims
    ensures var after := Plain(cfg, s, op, now, victims); !after.reply.Failed? ==> op.key in after.store.db
  {
  }

  lemma SafeVisited(live: Store, command: Command, op: Op, now: Time, start: Time, finish: Time)
    requires Durable(command) && !command.Expire? && !command.ExpireAt? && OpOf(command) == Some(op)
    ensures Safe(live.db, command, now, start, finish) <==> SafeOp(Visit(live, op, now).db, op, start)
  {
    if op.Persist? || op.Push? {
      VisitedKey(live, op, op.key, now);
    }
  }

  /** On the restored entries no deadline is in the way of a logged change. */
  lemma BackIsPlain(cfg: StoreConfig, live: Db, back: Store, command: Command, now: Time, at: Time, victims: set<Key>,
                    start: Time, finish: Time)
    requires Durable(command) && !command.Expire? && !command.ExpireAt? && at <= finish
    requires Lasts(live, start, finish) && back.db == Restored(live, start)
    ensures var (after, answer) := Executed(cfg, back, Logged(command, now), at, victims);
            var plain := Plain(cfg, back, OpOf(command).value, at, victims);
            after == plain.store && (answer.Err? <==> plain.reply.Failed?)
  {
    RestoredLater(live, start, finish);
    NothingToVisit(back, OpOf(command).value, at, finish);
    ExecutedIsPlain(cfg, back, command, at, victims);
  }

  /** Victims that a live command may have had, all of them doomed. */
  ghost predicate Spares(cfg: StoreConfig, live: Store, command: Command, now: Time, victims: set<Key>, start: Time) {
    ChosenFor(cfg, live, command, now, victims) && Expendable(live.db, victims, start)
  }

  lemma VisitedVictims(cfg: StoreConfig, live: Store, command: Command, now: Time, victims: set<Key>, start: Time)
    requires Spares(cfg, live, command, now, victims, start) && OpOf(command).Some?
    ensures var op := OpOf(command).value;
            Chosen(cfg, Visit(live, op, now).db, op, victims) && Expendable(Visit(live, op, now).db, victims, start)
  {
    var op := OpOf(command).value;
    if Attempt(Visit(live, op, now).db, op).Some? {
      assert Attempt(Visit(live, op, now).db, op).value.key == op.key;
    }
  }

  lemma ChangeRedone(cfg: StoreConfig, live: Store, back: Store, command: Command, now: Time, victims: set<Key>,
                     at: Time, victims': set<Key>, start: Time, finish: Time)
    requires Durable(command) && !command.Expire? && !command.ExpireAt? && Fresh(live.db, now, start)
    requires start <= at <= finish
    requires Lasts(live.db, start, finish) && back.db == Restored(live.db, start)
    requires Spares(cfg, live, command, now, victims, start) && Executed(cfg, live, command, now, victims).1.Ok?
    requires Safe(live.db, command, now, start, finish)
    ensures var after := Executed(cfg, live, command, now, victims).0.db;
            Lasts(after, start, finish) && Redone(cfg, back, command, now, at, victims', Restored(after, start))
  {
    var op := OpOf(command).value;
    SafeVisited(live, command, op, now, start, finish);
    VisitKeepsRestored(live, op, now, start, finish);
    ExecutedIsPlain(cfg, live, command, now, victims);
    BackIsPlain(cfg, live.db, back, command, now, at, victims', start, finish);
    VisitedVictims(cfg, live, command, now, victims, start);
    ChangesAlike(cfg, Visit(live, op, now), back, op, now, at, victims, victims', start, finish);
  }

  lemma ChangeLost(cfg: StoreConfig, live: Store, back: Store, command: Command, now: Time, victims: set<Key>,
                   start: Time, finish: Time)
    requires Durable(command) && !command.Expire? && !command.ExpireAt? && Fresh(live.db, now, start) && start <= finish
    requires Lasts(live.db, start, finish) && back.db == Restored(live.db, start)
    requires Spares(cfg, live, command, now, victims, start) && Executed(cfg, live, command, now, victims).1.Ok?
    requires !Safe(live.db, command, now, start, finish)
    ensures var after := Executed(cfg, live, command, now, victims).0.db;
            !Redone(cfg, back, command, now, start, {}, Restored(after, start))
  {
    var op := OpOf(command).value;
    SafeVisited(live, command, op, now, start, finish);
    VisitKeepsRestored(live, op, now, start, finish);
    ExecutedIsPlain(cfg, live, command, now, victims);
    BackIsPlain(cfg, live.db, back, command, now, start, {}, start, finish);
    VisitedVictims(cfg, live, command, now, victims, start);
    ChangesApart(cfg, Visit(live, op, now), back, op, now, start, victims, start, finish);
  }

  lemma CommandRedone(cfg: StoreConfig, live: Store, back: Store, command: Command, now: Time, victims: set<Key>,
                      at: Time, victims': set<Key>, start: Time, finish: Time)
    requires Durable(command) && Fresh(live.db, now, start) && start <= at <= finish
    requires Lasts(live.db, start, finish) && back.db == Restored(live.db, start)
    requires Spares(cfg, live, command, now, victims, start) && Executed(cfg, live, command, now, victims).1.Ok?
    requires Safe(live.db, command, now, start, finish)
    ensures var after := Executed(cfg, live, command, now, victims).0.db;
            Lasts(after, start, finish) && Redone(cfg, back, command, now, at, victims', Restored(after, start))
  {
    if command.Expire? || command.ExpireAt? {
      ExpiryRedone(cfg, live, back, command, now, victims, at, victims', start, finish);
    } else {
      ChangeRedone(cfg, live, back, command, now, victims, at, victims', start, finish);
    }
  }

  /** A logged command is rebuilt by every replay between `start` and `finish` if and only if
      it is safe: no `PERSIST`, push or longer expiry may reach a key that is doomed and still
      there, and its own deadline, if it sets one, may not fall between in whole seconds. */
  lemma CommandRecoversExactly(cfg: StoreConfig, live: Store, back: Store, command: Command, now: Time,
                               victims: set<Key>, start: Time, finish: Time)
    requires Durable(command) && Fresh(live.db, now, start) && start <= finish
    requires Lasts(live.db, start, finish) && back.db == Restored(live.db, start)
    requires Spares(cfg, live, command, now, victims, start) && Executed(cfg, live, command, now, victims).1.Ok?
    ensures Recovers(cfg, live, back, command, now, victims, start, finish) <==>
            Safe(live.db, command, now, start, finish)
  {
    var after := Executed(cfg, live, command, now, victims).0.db;
    if Safe(live.db, command, now, start, finish) {
      forall at: Time, victims': set<Key> | start <= at <= finish
        ensures Redone(cfg, back, command, now, at, victims', Restored(after, start))
      {
        CommandRedone(cfg, live, back, command, now, victims, at, victims', start, finish);
      }
      CommandRedone(cfg, live, back, command, now, victims, start, {}, start, finish);
    } else if command.Expire? || command.ExpireAt? {
      ExpiryLost(cfg, live, back, command, now, victims, start, finish);
    } else {
      ChangeLost(cfg, live, back, command, now, victims, start, finish);
    }
  }

  // ---- one turn ----

  lemma SilentCommand(cfg: StoreConfig, s: Store, command: Command, now: Time, victims: set<Key>)
    requires OpOf(command).Some? && (!Durable(command) || Executed(cfg, s, command, now, victims).1.Err?)
    ensures Executed(cfg, s, command, now, victims).0.db == Visit(s, OpOf(command).value, now).db
  {
    var op := OpOf(command).value;
    ExecutedIsPlain(cfg, s, command, now, victims);
    if Plain(cfg, Visit(s, op, now), op, now, victims).reply.Failed? {
      StoreTheorems.FailedPlain(cfg, Visit(s, op, now), op, now, victims);
    } else {
      StoreTheorems.ReadsKeepAll(cfg, Visit(s, op, now), op, now, victims);
    }
  }

  lemma VisitPurges(s: Store, op: Op, now: Time)
    ensures exists keys: set<Key> :: Visit(s, op, now).db == Purge(s.db, keys, now)
  {
    assert Visit(s, op, now).db == Purge(s.db, if VisitsAll(op) then s.db.Keys else Named(op), now);
  }

  /** A turn that logs nothing has at most dropped expired entries. */
  lemma SilentTurn(cfg: StoreConfig, s: Store, turn: Turn)
    requires Sized(turn.frame) && Entries(turn, ResultOf(cfg, s, turn).1) == []
    ensures exists keys: set<Key> :: ResultOf(cfg, s, turn).0.db == Purge(s.db, keys, turn.now)
  {
    if FromFrame(turn.frame).Ok? && OpOf(FromFrame(turn.frame).value).Some? {
      var command := FromFrame(turn.frame).value;
      ParserAccepts(turn.frame);
      LoggedFrameIsSound(command, turn.now);
      SilentCommand(cfg, s, command, turn.now, turn.victims);
      VisitPurges(s, OpOf(command).value, turn.now);
    } else {
      assert s.db == Purge(s.db, {}, turn.now);
    }
  }

  /** The turn's frame fits in memory, nothing that is to last has expired or was evicted, and
      the command, if it succeeded, was safe. */
  ghost predicate SettledTurn(cfg: StoreConfig, s: Store, turn: Turn, start: Time, finish: Time) {
    && Sized(turn.frame) && Fresh(s.db, turn.now, start)
    && LegalTurn(cfg, s, turn) && Expendable(s.db, turn.victims, start)
    && (ResultOf(cfg, s, turn).1.Ok? ==> Safe(s.db, FromFrame(turn.frame).value, turn.now, start, finish))
  }

  /** Nothing is evicted without a limit, without eviction, and whenever the write fits: then
      no turn has victims, and all of the above about them holds. */
  lemma NothingEvicted(cfg: StoreConfig, s: Store, turn: Turn, start: Time)
    requires LegalTurn(cfg, s, turn)
    requires FromFrame(turn.frame).Ok? ==>
               var command := FromFrame(turn.frame).value;
               OpOf(command).Some? ==>
                 var db := Visit(s, OpOf(command).value, turn.now).db;
                 Attempt(db, OpOf(command).value).Some? ==>
                   var w := Attempt(db, OpOf(command).value).value;
                   cfg.maxMemory.None? || cfg.policy.NoEviction? || Fits(cfg, db[w.key := w.entry])
    ensures turn.victims == {} && Expendable(s.db, turn.victims, start)
  {
  }

  lemma TurnKeepsLasts(cfg: StoreConfig, s: Store, turn: Turn, start: Time, finish: Time)
    requires Lasts(s.db, start, finish) && SettledTurn(cfg, s, turn, start, finish)
    requires Entries(turn, ResultOf(cfg, s, turn).1) == []
    ensures var after := ResultOf(cfg, s, turn).0.db;
            Lasts(after, start, finish) && Restored(after, start) == Restored(s.db, start)
  {
    SilentTurn(cfg, s, turn);
    var keys: set<Key> :| ResultOf(cfg, s, turn).0.db == Purge(s.db, keys, turn.now);
    PurgeKeepsRestored(s.db, keys, turn.now, start, finish);
  }

  /** What a turn logs rebuilds, when replayed, what is to be restored of its effect. */
  lemma TurnRecovers(cfg: StoreConfig, live: Store, back: Store, turn: Turn, again: Turn, start: Time, finish: Time)
    requires Lasts(live.db, start, finish) && back.db == Restored(live.db, start)
    requires SettledTurn(cfg, live, turn, start, finish) && start <= again.now <= finish
    requires Entries(turn, ResultOf(cfg, live, turn).1) == [again.frame]
    ensures ResultOf(cfg, back, again).1.Ok?
    ensures var after := ResultOf(cfg, live, turn).0.db;
            Lasts(after, start, finish) && ResultOf(cfg, back, again).0.db == Restored(after, start)
  {
    var command := FromFrame(turn.frame).value;
    ParserAccepts(turn.frame);
    LoggedFrameIsSound(command, turn.now);
    LoggedReadsBack(command, turn.now);
    CommandRedone(cfg, live, back, command, turn.now, turn.victims, again.now, again.victims, start, finish);
  }

  // ---- whole sessions ----

  ghost predicate SettledSession(cfg: StoreConfig, s: Store, turns: seq<Turn>, start: Time, finish: Time)
    decreases |turns|
  {
    var last := |turns| - 1;
    turns == [] ||
    (&& SettledSession(cfg, s, turns[..last], start, finish)
     && SettledTurn(cfg, SessionOf(cfg, s, turns[..last]).store, turns[last], start, finish))
  }

  ghost predicate During(replay: seq<Turn>, start: Time, finish: Time)
    decreases |replay|
  {
    var last := |replay| - 1;
    replay == [] || (During(replay[..last], start, finish) && start <= replay[last].now <= finish)
  }

  /** The replayed session stands where the live one is to be restored. */
  ghost predicate Recovered(h: Session, b: Session, start: Time, finish: Time) {
    Lasts(h.store.db, start, finish) && b.store.db == Restored(h.store.db, start) && b.successes == |h.log|
  }

  lemma ExtendSilently(cfg: StoreConfig, h: Session, b: Session, turn: Turn, start: Time, finish: Time)
    requires Recovered(h, b, start, finish) && SettledTurn(cfg, h.store, turn, start, finish)
    requires Extend(cfg, h, turn).log == h.log
    ensures Recovered(Extend(cfg, h, turn), b, start, finish)
  {
    assert Entries(turn, ResultOf(cfg, h.store, turn).1) == [];
    TurnKeepsLasts(cfg, h.store, turn, start, finish);
  }

  lemma ExtendRecovers(cfg: StoreConfig, h: Session, b: Session, turn: Turn, again: Turn, start: Time, finish: Time)
    requires Recovered(h, b, start, finish) && SettledTurn(cfg, h.store, turn, start, finish)
    requires start <= again.now <= finish && Extend(cfg, h, turn).log == h.log + [again.frame]
    ensures Recovered(Extend(cfg, h, turn), Extend(cfg, b, again), start, finish)
  {
    assert Entries(turn, ResultOf(cfg, h.store, turn).1) == Extend(cfg, h, turn).log[|h.log|..] == [again.frame];
    TurnRecovers(cfg, h.store, b.store, turn, again, start, finish);
  }

  lemma GrowsByOne(cfg: StoreConfig, h: Session, turn: Turn)
    ensures Extend(cfg, h, turn).log == h.log ||
            exists frame :: Extend(cfg, h, turn).log == h.log + [frame]
  {
    var entries := Entries(turn, ResultOf(cfg, h.store, turn).1);
    assert entries == [] || entries == [entries[0]];
  }

  /** From a store and what is to be restored of it, a session on the one and the replay of
      its log on the other end in a store and what is to be restored of it, and no command
      is skipped. */
  lemma {:induction false} SessionRecovers(cfg: StoreConfig, live: Store, back: Store, turns: seq<Turn>,
                                           replay: seq<Turn>, start: Time, finish: Time)
    requires Lasts(live.db, start, finish) && back.db == Restored(live.db, start)
    requires SettledSession(cfg, live, turns, start, finish) && During(replay, start, finish)
    requires FramesOf(replay) == SessionOf(cfg, live, turns).log
    ensures Recovered(SessionOf(cfg, live, turns), SessionOf(cfg, back, replay), start, finish)
    decreases |turns|
  {
    if turns != [] {
      var before, turn := turns[..|turns| - 1], turns[|turns| - 1];
      var h := SessionOf(cfg, live, before);
      assert SessionOf(cfg, live, turns) == Extend(cfg, h, turn);
      GrowsByOne(cfg, h, turn);
      if Extend(cfg, h, turn).log == h.log {
        SessionRecovers(cfg, live, back, before, replay, start, finish);
        ExtendSilently(cfg, h, SessionOf(cfg, back, replay), turn, start, finish);
      } else {
        var frame :| FramesOf(replay) == h.log + [frame];
        LastFrame(replay, h.log, frame);
        var earlier, again := replay[..|replay| - 1], replay[|replay| - 1];
        SessionRecovers(cfg, live, back, before, earlier, start, finish);
        ExtendRecovers(cfg, h, SessionOf(cfg, back, earlier), turn, again, start, finish);
      }
    }
  }

  lemma LastFrame(replay: seq<Turn>, frames: seq<Frame>, frame: Frame)
    requires FramesOf(replay) == frames + [frame]
    ensures replay != [] && replay[|replay| - 1].frame == frame && FramesOf(replay[..|replay| - 1]) == frames
  {
    assert (frames + [frame])[..|frames|] == frames;
    assert FramesOf(replay)[..|frames|] == FramesOf(replay[..|replay| - 1]);
  }

  // ---- the log file ----

  lemma EntriesAreLogged(turn: Turn, answer: Parsed<Frame>)
    requires Sized(turn.frame)
    ensures AreLogged(Entries(turn, answer))
  {
    if Entries(turn, answer) != [] {
      var command := FromFrame(turn.frame).value;
      ParserAccepts(turn.frame);
      LoggedFrameIsSound(command, turn.now);
      assert IsRequest(AofArgs(command, turn.now));
    }
  }

  lemma {:induction false} SessionIsLogged(cfg: StoreConfig, s: Store, turns: seq<Turn>, start: Time, finish: Time)
    requires SettledSession(cfg, s, turns, start, finish)
    ensures AreLogged(SessionOf(cfg, s, turns).log)
    decreases |turns|
  {
    if turns != [] {
      var before, turn := turns[..|turns| - 1], turns[|turns| - 1];
      SessionIsLogged(cfg, s, before, start, finish);
      EntriesAreLogged(turn, ResultOf(cfg, SessionOf(cfg, s, before).store, turn).1);
    }
  }

  lemma SettledWithoutLast(cfg: StoreConfig, s: Store, turns: seq<Turn>, start: Time, finish: Time)
    requires turns != [] && SettledSession(cfg, s, turns, start, finish)
    ensures SettledSession(cfg, s, turns[..|turns| - 1], start, finish)
  {
  }

  lemma {:induction false} SettledPrefix(cfg: StoreConfig, s: Store, turns: seq<Turn>, j: nat, start: Time,
                                         finish: Time)
    requires SettledSession(cfg, s, turns, start, finish) && j <= |turns|
    ensures SettledSession(cfg, s, turns[..j], start, finish)
    decreases |turns| - j
  {
    if j == |turns| {
      WholePrefix(turns);
    } else {
      SettledPrefix(cfg, s, turns, j + 1, start, finish);
      SettledWithoutLast(cfg, s, turns[..j + 1], start, finish);
      PrefixOfPrefix(turns, j + 1, j);
    }
  }

  lemma PrefixOfPrefix<T>(s: seq<T>, n: nat, j: nat)
    requires j <= n <= |s|
    ensures s[..n][..j] == s[..j]
  {
  }

  lemma WholePrefix<T>(s: seq<T>)
    ensures s[..|s|] == s
  {
  }

  lemma LogWithoutLast(cfg: StoreConfig, s: Store, turns: seq<Turn>, k: nat)
    requires k < |SessionOf(cfg, s, turns).log|
    ensures turns != []
    ensures var log := SessionOf(cfg, s, turns[..|turns| - 1]).log;
            k <= |log| && log[..k] == SessionOf(cfg, s, turns).log[..k]
  {
    GrowsByOne(cfg, SessionOf(cfg, s, turns[..|turns| - 1]), turns[|turns| - 1]);
  }

  /** The turns that the first `k` log entries account for. */
  lemma {:induction false} TurnsBehind(cfg: StoreConfig, s: Store, turns: seq<Turn>, k: nat, log: seq<Frame>)
    returns (j: nat)
    requires k <= |log| && log == SessionOf(cfg, s, turns).log
    ensures j <= |turns| && SessionOf(cfg, s, turns[..j]).log == log[..k]
    decreases |turns|
  {
    if k == |log| {
      j := |turns|;
      WholePrefix(turns);
      WholePrefix(log);
    } else {
      LogWithoutLast(cfg, s, turns, k);
      var before := turns[..|turns| - 1];
      j := TurnsBehind(cfg, s, before, k, SessionOf(cfg, s, before).log);
      PrefixOfPrefix(turns, |turns| - 1, j);
    }
  }

  lemma RecoversFromEmpty(cfg: StoreConfig, turns: seq<Turn>, replay: seq<Turn>, start: Time, finish: Time)
    requires SettledSession(cfg, EMPTY, turns, start, finish) && During(replay, start, finish)
    requires FramesOf(replay) == SessionOf(cfg, EMPTY, turns).log
    ensures Recovered(SessionOf(cfg, EMPTY, turns), SessionOf(cfg, EMPTY, replay), start, finish)
  {
    NothingToRestore(start, finish);
    SessionRecovers(cfg, EMPTY, EMPTY, turns, replay, start, finish);
  }

  lemma NothingToRestore(start: Time, finish: Time)
    ensures Restored(EMPTY.db, start) == EMPTY.db && Lasts(EMPTY.db, start, finish)
  {
  }

  /** The entries of `back` are those of `live`, but for deadlines rounded up to whole seconds,
      to every client from `start` on. */
  ghost predicate LooksAlike(live: Db, back: Db, start: Time) {
    forall t: Time :: start <= t ==> Live(back, t) == Live(Rounded(live), t)
  }

  /** Recovery: replaying the log file of a settled session into an empty store rebuilds
      the store, but for what has expired by then, deadlines rounded up to whole seconds. The
      file is read to its end, and every frame in it is executed and counted. */
  lemma RecoveryEqualsLive(cfg: StoreConfig, turns: seq<Turn>, replay: seq<Turn>, start: Time, finish: Time)
    requires SettledSession(cfg, EMPTY, turns, start, finish) && During(replay, start, finish)
    requires FramesOf(replay) == ReadAll(EncodeAll(SessionOf(cfg, EMPTY, turns).log)).frames
    ensures var live, back := SessionOf(cfg, EMPTY, turns), SessionOf(cfg, EMPTY, replay);
            && back.store.db == Restored(live.store.db, start) && LooksAlike(live.store.db, back.store.db, start)
            && ReadAll(EncodeAll(live.log)).failure == None && back.successes == |live.log|
  {
    var live := SessionOf(cfg, EMPTY, turns);
    SessionIsLogged(cfg, EMPTY, turns, start, finish);
    WholeLog(live.log);
    RecoversFromEmpty(cfg, turns, replay, start, finish);
    RestoredLooksRounded(live.store.db, start);
  }

  /** Crash safety: wherever the log file is cut, replaying what is left rebuilds the store
      as it was after some of the turns: those that the whole frames account for. The
      replay ends cleanly exactly when the cut is between two frames. */
  lemma CrashRecovery(cfg: StoreConfig, turns: seq<Turn>, n: nat, replay: seq<Turn>, start: Time, finish: Time)
    returns (j: nat)
    requires SettledSession(cfg, EMPTY, turns, start, finish) && During(replay, start, finish)
    requires n <= |EncodeAll(SessionOf(cfg, EMPTY, turns).log)|
    requires FramesOf(replay) == ReadAll(EncodeAll(SessionOf(cfg, EMPTY, turns).log)[..n]).frames
    ensures j <= |turns|
    ensures var live, back := SessionOf(cfg, EMPTY, turns[..j]), SessionOf(cfg, EMPTY, replay);
            && back.store.db == Restored(live.store.db, start) && LooksAlike(live.store.db, back.store.db, start)
            && live.log == FramesOf(replay)
    ensures var log := SessionOf(cfg, EMPTY, turns).log;
            && FramesOf(replay) == log[..Complete(log, n)]
            && (ReadAll(EncodeAll(log)[..n]).failure.None? <==> n == |EncodeAll(FramesOf(replay))|)
  {
    var log := SessionOf(cfg, EMPTY, turns).log;
    SessionIsLogged(cfg, EMPTY, turns, start, finish);
    CutLog(log, n);
    j := TurnsBehind(cfg, EMPTY, turns, Complete(log, n), log);
    SettledPrefix(cfg, EMPTY, turns, j, start, finish);
    RecoversFromEmpty(cfg, turns[..j], replay, start, finish);
    RestoredLooksRounded(SessionOf(cfg, EMPTY, turns[..j]).store.db, start);
  }
}
