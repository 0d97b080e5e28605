/** Where a replay does not rebuild the store: each failing family with its sessions. */
module Losses {
  import opened ByteStrings
  import opened Frames
  import opened Encoder
  import opened Parser
  import opened StoreModel
  import StoreTheorems
  import opened Commands
  import opened Sessions
  import opened LogFile
  import opened Recovery

  // ---- single turns ----

  /** A turn that asks for the durable `command` and evicts nothing. */
  predicate AsksFor(turn: Turn, command: Command) {
    Sized(turn.frame) && FromFrame(turn.frame) == Ok(command) && Durable(command) && turn.victims == {}
  }

  /** A turn that succeeds in making the entries `db`, and logs `line`. */
  ghost predicate Makes(cfg: StoreConfig, s: Store, turn: Turn, line: Frame, db: Db) {
    var (after, answer) := ResultOf(cfg, s, turn);
    LegalTurn(cfg, s, turn) && answer.Ok? && after.db == db && Entries(turn, answer) == [line]
  }

  lemma TurnMakes(cfg: StoreConfig, s: Store, turn: Turn, command: Command, db: Db)
    requires AsksFor(turn, command) && ChosenFor(cfg, s, command, turn.now, {})
    requires Executed(cfg, s, command, turn.now, {}).1.Ok? && Executed(cfg, s, command, turn.now, {}).0.db == db
    ensures Makes(cfg, s, turn, LogLine(command, turn.now), db)
  {
    ParserAccepts(turn.frame);
    LoggedFrameIsSound(command, turn.now);
  }

  lemma SetMakes(cfg: StoreConfig, s: Store, turn: Turn, key: Key, value: Bytes)
    requires AsksFor(turn, Command.Set(key, value)) && s.db == map[]
    requires Fits(cfg, map[key := StoreTheorems.Lasting(value)])
    ensures Makes(cfg, s, turn, LogLine(Command.Set(key, value), turn.now), map[key := StoreTheorems.Lasting(value)])
  {
    var only: Db := map[key := StoreTheorems.Lasting(value)];
    assert s.db[key := StoreTheorems.Lasting(value)] == only && only - {} == only;
    StoreTheorems.SetStores(cfg, s, StoreTheorems.Event(Op.Set(key, value), turn.now, {}));
    ExecutedIsPlain(cfg, s, Command.Set(key, value), turn.now, {});
    TurnMakes(cfg, s, turn, Command.Set(key, value), only);
  }

  lemma ExpireMakes(cfg: StoreConfig, s: Store, turn: Turn, command: Command, value: Bytes, deadline: Time, db: Db)
    requires command.Expire? && AsksFor(turn, command) && deadline == LiveDeadline(command, turn.now)
    requires s.db == map[command.key := StoreTheorems.Lasting(value)]
    requires db == if deadline <= turn.now then map[] else map[command.key := Entry(Text(value), Some(deadline))]
    ensures Makes(cfg, s, turn, LogLine(command, turn.now), db)
  {
    ExpiryDoes(cfg, s, command, turn.now, {}, value, deadline);
    ExpiryEvictsNothing(cfg, s, command, turn.now);
    TurnMakes(cfg, s, turn, command, db);
  }

  lemma ExpiryEvictsNothing(cfg: StoreConfig, s: Store, command: Command, now: Time)
    requires command.Expire? || command.ExpireAt?
    ensures ChosenFor(cfg, s, command, now, {})
  {
    NothingToEvict(cfg, Visit(s, OpOf(command).value, now).db, OpOf(command).value);
  }

  lemma ExpiryDoes(cfg: StoreConfig, s: Store, command: Command, now: Time, victims: set<Key>, value: Bytes,
                   deadline: Time)
    requires (command.Expire? || command.ExpireAt?) && deadline == LiveDeadline(command, now)
    requires s.db == map[command.key := StoreTheorems.Lasting(value)]
    ensures Executed(cfg, s, command, now, victims).1.Ok?
    ensures Executed(cfg, s, command, now, victims).0.db ==
            if deadline <= now then map[] else map[command.key := Entry(Text(value), Some(deadline))]
  {
    NothingToVisit(s, OpOf(command).value, now, now);
    ExpiryIsSchedule(cfg, s, command, now, victims);
    ScheduleOnly(s, command.key, value, deadline, now);
  }

  lemma ScheduleOnly(s: Store, key: Key, value: Bytes, deadline: Time, now: Time)
    requires s.db == map[key := StoreTheorems.Lasting(value)]
    ensures Schedule(s, key, deadline, now).store.db ==
            if deadline <= now then map[] else map[key := Entry(Text(value), Some(deadline))]
  {
  }

  lemma PersistMakes(cfg: StoreConfig, s: Store, turn: Turn, key: Key, value: Bytes, deadline: Time)
    requires AsksFor(turn, Command.Persist(key)) && turn.now < deadline
    requires s.db == map[key := Entry(Text(value), Some(deadline))]
    ensures Makes(cfg, s, turn, LogLine(Command.Persist(key), turn.now), map[key := StoreTheorems.Lasting(value)])
  {
    PersistDoes(cfg, s, Command.Persist(key), turn.now, value, deadline);
    TurnMakes(cfg, s, turn, Command.Persist(key), map[key := StoreTheorems.Lasting(value)]);
  }

  lemma PersistDoes(cfg: StoreConfig, s: Store, command: Command, now: Time, value: Bytes, deadline: Time)
    requires command.Persist? && now < deadline && s.db == map[command.key := Entry(Text(value), Some(deadline))]
    ensures Executed(cfg, s, command, now, {}).1.Ok? && ChosenFor(cfg, s, command, now, {})
    ensures Executed(cfg, s, command, now, {}).0.db == map[command.key := StoreTheorems.Lasting(value)]
  {
    NothingToVisit(s, OpOf(command).value, now, now);
    NothingToEvict(cfg, s.db, OpOf(command).value);
    ExecutedIsPlain(cfg, s, command, now, {});
    PersistPlainly(cfg, s, command.key, now, {});
    MadeLasting(s.db, command.key, value, deadline);
  }

  lemma MadeLasting(db: Db, key: Key, value: Bytes, deadline: Time)
    requires db == map[key := Entry(Text(value), Some(deadline))]
    ensures db[key := db[key].(expiresAt := None)] == map[key := StoreTheorems.Lasting(value)]
  {
  }

  lemma PersistFindsNothing(cfg: StoreConfig, s: Store, turn: Turn, key: Key)
    requires FromFrame(turn.frame) == Ok(Command.Persist(key)) && s.db == map[]
    ensures ResultOf(cfg, s, turn).1.Ok? && ResultOf(cfg, s, turn).0.db == map[]
  {
    NothingToVisit(s, Op.Persist(key), turn.now, turn.now);
    PersistPlainly(cfg, s, key, turn.now, turn.victims);
    ExecutedIsPlain(cfg, s, Command.Persist(key), turn.now, turn.victims);
  }

  lemma PersistPlainly(cfg: StoreConfig, s: Store, key: Key, now: Time, victims: set<Key>)
    ensures Plain(cfg, s, Op.Persist(key), now, victims) ==
            if key in s.db && s.db[key].expiresAt.Some?
            then Outcome(s.(db := s.db[key := s.db[key].(expiresAt := None)]), Flag(true))
            else Outcome(s, Flag(false))
  {
  }

  // ---- sessions, turn by turn ----

  lemma OneMore(cfg: StoreConfig, turns: seq<Turn>, turn: Turn, line: Frame, db: Db)
    requires Makes(cfg, SessionOf(cfg, EMPTY, turns).store, turn, line, db)
    ensures var h, h' := SessionOf(cfg, EMPTY, turns), SessionOf(cfg, EMPTY, turns + [turn]);
            && h'.store.db == db && h'.log == h.log + [line]
            && h'.successes == h.successes + 1 && (h.legal ==> h'.legal)
  {
    OneMoreTurn(cfg, EMPTY, turns, turn);
  }

  lemma SettledOneMore(cfg: StoreConfig, turns: seq<Turn>, turn: Turn, start: Time, finish: Time)
    requires SettledSession(cfg, EMPTY, turns, start, finish)
    requires SettledTurn(cfg, SessionOf(cfg, EMPTY, turns).store, turn, start, finish)
    ensures SettledSession(cfg, EMPTY, turns + [turn], start, finish)
  {
    assert (turns + [turn])[..|turns|] == turns;
  }

  lemma SetAlone(cfg: StoreConfig, key: Key, value: Bytes, first: Turn, start: Time, finish: Time)
    requires AsksFor(first, Command.Set(key, value)) && Fits(cfg, map[key := StoreTheorems.Lasting(value)])
    ensures var h := SessionOf(cfg, EMPTY, [first]);
            && SettledSession(cfg, EMPTY, [first], start, finish) && h.legal && h.successes == 1
            && h.store.db == map[key := StoreTheorems.Lasting(value)]
            && h.log == [LogLine(Command.Set(key, value), first.now)]
  {
    SetMakes(cfg, EMPTY, first, key, value);
    OneMore(cfg, [], first, LogLine(Command.Set(key, value), first.now), map[key := StoreTheorems.Lasting(value)]);
    SettledOneMore(cfg, [], first, start, finish);
    assert [] + [first] == [first];
  }

  /** `SET`, then an `EXPIRE` whose deadline is reached by the restart: the session so far can
      be restored, with nothing left. */
  lemma SetThenExpire(cfg: StoreConfig, key: Key, value: Bytes, seconds: u64, first: Turn, second: Turn,
                      start: Time, finish: Time)
    requires AsksFor(first, Command.Set(key, value)) && AsksFor(second, Command.Expire(key, seconds))
    requires Fits(cfg, map[key := StoreTheorems.Lasting(value)])
    requires second.now < Deadline(second.now, seconds) && RoundUp(Deadline(second.now, seconds)) <= start
    ensures var turns := [first] + [second];
            var h := SessionOf(cfg, EMPTY, turns);
            && SettledSession(cfg, EMPTY, turns, start, finish) && h.legal && h.successes == 2
            && h.store.db == map[key := Entry(Text(value), Some(Deadline(second.now, seconds)))]
            && h.log == [LogLine(Command.Set(key, value), first.now)]
                        + [LogLine(Command.Expire(key, seconds), second.now)]
  {
    var dying := map[key := Entry(Text(value), Some(Deadline(second.now, seconds)))];
    SetAlone(cfg, key, value, first, start, finish);
    ExpireMakes(cfg, SessionOf(cfg, EMPTY, [first]).store, second, Command.Expire(key, seconds), value,
                Deadline(second.now, seconds), dying);
    OneMore(cfg, [first], second, LogLine(Command.Expire(key, seconds), second.now), dying);
    SettledOneMore(cfg, [first], second, start, finish);
  }

  lemma LogReadsOneMore(cfg: StoreConfig, turns: seq<Turn>, turn: Turn, line: Frame, db: Db, start: Time, finish: Time)
    requires SettledSession(cfg, EMPTY, turns, start, finish) && Sized(turn.frame)
    requires Makes(cfg, SessionOf(cfg, EMPTY, turns).store, turn, line, db)
    ensures ReadAll(EncodeAll(SessionOf(cfg, EMPTY, turns + [turn]).log)).frames ==
            SessionOf(cfg, EMPTY, turns).log + [line]
  {
    OneMoreTurn(cfg, EMPTY, turns, turn);
    SessionIsLogged(cfg, EMPTY, turns, start, finish);
    EntriesAreLogged(turn, ResultOf(cfg, SessionOf(cfg, EMPTY, turns).store, turn).1);
    WholeLog(SessionOf(cfg, EMPTY, turns + [turn]).log);
  }

  lemma DyingIsDropped(key: Key, value: Bytes, deadline: Time, start: Time)
    requires RoundUp(deadline) <= start
    ensures var dying: Db := map[key := Entry(Text(value), Some(deadline))]; Restored(dying, start) == map[]
  {
  }

  /** The loss that matters: a key is set, given a deadline and persisted before it, and every
      client is told so; a restart after the old deadline finds no key, because its replay
      deletes the key at the logged expiry and the logged `PERSIST` comes too late. */
  lemma PersistIsLost(cfg: StoreConfig, key: Key, value: Bytes, seconds: u64, first: Turn, second: Turn, third: Turn,
                      replay: seq<Turn>, start: Time, finish: Time)
    requires AsksFor(first, Command.Set(key, value)) && AsksFor(second, Command.Expire(key, seconds))
    requires AsksFor(third, Command.Persist(key))
    requires Fits(cfg, map[key := StoreTheorems.Lasting(value)])
    requires second.now < Deadline(second.now, seconds) && third.now < Deadline(second.now, seconds)
    requires RoundUp(Deadline(second.now, seconds)) <= start <= finish
    requires During(replay, start, finish)
    requires FramesOf(replay) == ReadAll(EncodeAll(SessionOf(cfg, EMPTY, [first] + [second] + [third]).log)).frames
    ensures var live, back := SessionOf(cfg, EMPTY, [first] + [second] + [third]), SessionOf(cfg, EMPTY, replay);
            && live.legal && live.successes == 3 && live.store.db == map[key := StoreTheorems.Lasting(value)]
            && back.successes == 3 && back.store.db == map[]
  {
    var deadline := Deadline(second.now, seconds);
    var turns := [first] + [second];
    SetThenExpire(cfg, key, value, seconds, first, second, start, finish);
    var h := SessionOf(cfg, EMPTY, turns);
    var line, lasting := LogLine(Command.Persist(key), third.now), map[key := StoreTheorems.Lasting(value)];
    PersistMakes(cfg, h.store, third, key, value, deadline);
    OneMore(cfg, turns, third, line, lasting);
    LogReadsOneMore(cfg, turns, third, line, lasting, start, finish);
    LastFrame(replay, h.log, line);
    var earlier, again := replay[..|replay| - 1], replay[|replay| - 1];
    RecoversFromEmpty(cfg, turns, earlier, start, finish);
    DyingIsDropped(key, value, deadline, start);
    ParserAccepts(third.frame);
    LoggedReadsBack(Command.Persist(key), third.now);
    PersistFindsNothing(cfg, SessionOf(cfg, EMPTY, earlier).store, again, key);
  }

  /** What a replay before the logged deadline makes of an expiry on a lasting key. */
  lemma ExpiryTooEarly(cfg: StoreConfig, s: Store, again: Turn, command: Command, now: Time, value: Bytes)
    requires command.Expire? && Accepted(command) && again.frame == LogLine(command, now)
    requires s.db == map[command.key := StoreTheorems.Lasting(value)]
    requires again.now < ExpirationDeadline(now, command.seconds) * SECOND <= MAX_TIME
    ensures ResultOf(cfg, s, again).1.Ok?
    ensures ResultOf(cfg, s, again).0.db ==
            map[command.key := Entry(Text(value), Some(ExpirationDeadline(now, command.seconds) * SECOND))]
  {
    LoggedReadsBack(command, now);
    LoggedFrameIsSound(command, now);
    ExpiryDoes(cfg, s, Logged(command, now), again.now, again.victims, value,
               ExpirationDeadline(now, command.seconds) * SECOND);
  }

  /** A key set and deleted by `EXPIRE` with 0 seconds comes back when the restart is over
      within the same second: the logged deadline is the next full second. */
  lemma ExpireZeroComesBack(cfg: StoreConfig, key: Key, value: Bytes, first: Turn, second: Turn, replay: seq<Turn>,
                            start: Time, finish: Time)
    requires AsksFor(first, Command.Set(key, value)) && AsksFor(second, Command.Expire(key, 0))
    requires Fits(cfg, map[key := StoreTheorems.Lasting(value)])
    requires finish < CeilSeconds(second.now) * SECOND <= MAX_TIME
    requires During(replay, start, finish)
    requires FramesOf(replay) == ReadAll(EncodeAll(SessionOf(cfg, EMPTY, [first] + [second]).log)).frames
    ensures var live, back := SessionOf(cfg, EMPTY, [first] + [second]), SessionOf(cfg, EMPTY, replay);
            && live.legal && live.successes == 2 && live.store.db == map[]
            && back.successes == 2
            && back.store.db == map[key := Entry(Text(value), Some(CeilSeconds(second.now) * SECOND))]
  {
    var command := Command.Expire(key, 0);
    var line := LogLine(command, second.now);
    SetAlone(cfg, key, value, first, start, finish);
    var h := SessionOf(cfg, EMPTY, [first]);
    ExpireMakes(cfg, h.store, second, command, value, second.now, map[]);
    OneMore(cfg, [first], second, line, map[]);
    LogReadsOneMore(cfg, [first], second, line, map[], start, finish);
    LastFrame(replay, h.log, line);
    var earlier, again := replay[..|replay| - 1], replay[|replay| - 1];
    RecoversFromEmpty(cfg, [first], earlier, start, finish);
    LastingIsRestored(key, value, start);
    ParserAccepts(second.frame);
    ExpiryTooEarly(cfg, SessionOf(cfg, EMPTY, earlier).store, again, command, second.now, value);
  }

  lemma LastingIsRestored(key: Key, value: Bytes, start: Time)
    ensures var only: Db := map[key := StoreTheorems.Lasting(value)]; Restored(only, start) == only
  {
  }

  // ---- evictions ----

  /** A frame that fits in memory and sets no deadline. */
  predicate Undated(turn: Turn) {
    && Sized(turn.frame)
    && (FromFrame(turn.frame).Ok? ==> !FromFrame(turn.frame).value.Expire? && !FromFrame(turn.frame).value.ExpireAt?)
  }

  ghost predicate AllUndated(turns: seq<Turn>) {
    forall i :: 0 <= i < |turns| ==> Undated(turns[i])
  }

  /** The replayed session stands where the live one does. */
  ghost predicate SameEntries(cfg: StoreConfig, h: Session, b: Session) {
    && b.store.db == h.store.db && b.successes == |h.log|
    && StoreTheorems.NoDeadlines(h.store.db) && Fits(cfg, h.store.db)
  }

  predicate Changes(op: Op) {
    op.Set? || op.Push? || op.Pop? || op.Del? || op.Persist?
  }

  lemma SameOutcome(cfg: StoreConfig, s: Store, t: Store, op: Op, now: Time, at: Time, victims: set<Key>)
    requires Changes(op) && s.db == t.db
    ensures Plain(cfg, s, op, now, victims).store.db == Plain(cfg, t, op, at, victims).store.db
    ensures Plain(cfg, s, op, now, victims).reply == Plain(cfg, t, op, at, victims).reply
  {
    if op.Set? || op.Push? {
      SameWrite(cfg, s, t, op, now, at, victims);
    }
  }

  lemma SameWrite(cfg: StoreConfig, s: Store, t: Store, op: Op, now: Time, at: Time, victims: set<Key>)
    requires (op.Set? || op.Push?) && s.db == t.db
    ensures Plain(cfg, s, op, now, victims).store.db == Plain(cfg, t, op, at, victims).store.db
    ensures Plain(cfg, s, op, now, victims).reply == Plain(cfg, t, op, at, victims).reply
  {
    if Attempt(s.db, op).Some? {
      SameCommit(cfg, s, t, Attempt(s.db, op).value, victims);
    }
  }

  lemma SameCommit(cfg: StoreConfig, s: Store, t: Store, w: Write, victims: set<Key>)
    requires s.db == t.db
    ensures Commit(cfg, s, w, victims).store.db == Commit(cfg, t, w, victims).store.db
    ensures Commit(cfg, s, w, victims).reply == Commit(cfg, t, w, victims).reply
  {
  }

  lemma ChangeSetsNoDeadline(cfg: StoreConfig, s: Store, op: Op, now: Time, victims: set<Key>)
    requires Changes(op) && StoreTheorems.NoDeadlines(s.db)
    ensures StoreTheorems.NoDeadlines(Plain(cfg, s, op, now, victims).store.db)
  {
  }

  lemma UndatedCommand(cfg: StoreConfig, s: Store, command: Command, op: Op, now: Time, victims: set<Key>)
    requires OpOf(command) == Some(op) && StoreTheorems.NoDeadlines(s.db)
    ensures ChosenFor(cfg, s, command, now, victims) <==> Chosen(cfg, s.db, op, victims)
    ensures Executed(cfg, s, command, now, victims).0 == Plain(cfg, s, op, now, victims).store
    ensures Executed(cfg, s, command, now, victims).1.Err? <==> Plain(cfg, s, op, now, victims).reply.Failed?
  {
    NothingToVisit(s, op, now, now);
    ExecutedIsPlain(cfg, s, command, now, victims);
  }

  /** Without a choice a logged command has its live outcome again. */
  lemma CommandRepeats(cfg: StoreConfig, s: Store, t: Store, command: Command, op: Op, now: Time, at: Time,
                       victims: set<Key>, victims': set<Key>)
    requires StoreTheorems.NoChoice(cfg) && OpOf(command) == Some(op) && Changes(op) && s.db == t.db
    requires StoreTheorems.NoDeadlines(s.db) && Fits(cfg, s.db)
    requires ChosenFor(cfg, s, command, now, victims) && ChosenFor(cfg, t, command, at, victims')
    ensures Executed(cfg, s, command, now, victims).0.db == Executed(cfg, t, command, at, victims').0.db
    ensures Executed(cfg, s, command, now, victims).1.Ok? <==> Executed(cfg, t, command, at, victims').1.Ok?
    ensures var after := Executed(cfg, s, command, now, victims).0.db;
            StoreTheorems.NoDeadlines(after) && Fits(cfg, after)
  {
    UndatedCommand(cfg, s, command, op, now, victims);
    UndatedCommand(cfg, t, command, op, at, victims');
    StoreTheorems.VictimsForced(cfg, s.db, op, victims, victims');
    SameOutcome(cfg, s, t, op, now, at, victims);
    ChangeSetsNoDeadline(cfg, s, op, now, victims);
    StoreTheorems.PlainKeepsLimit(cfg, s, op, now, victims);
  }

  lemma TurnRepeats(cfg: StoreConfig, h: Session, b: Session, turn: Turn, again: Turn)
    requires StoreTheorems.NoChoice(cfg) && SameEntries(cfg, h, b) && Undated(turn)
    requires LegalTurn(cfg, h.store, turn) && LegalTurn(cfg, b.store, again)
    requires Extend(cfg, h, turn).log == h.log + [again.frame]
    ensures SameEntries(cfg, Extend(cfg, h, turn), Extend(cfg, b, again))
  {
    var command := FromFrame(turn.frame).value;
    assert Entries(turn, ResultOf(cfg, h.store, turn).1) == Extend(cfg, h, turn).log[|h.log|..] == [again.frame];
    ParserAccepts(turn.frame);
    LoggedFrameIsSound(command, turn.now);
    LoggedReadsBack(command, turn.now);
    CommandRepeats(cfg, h.store, b.store, command, OpOf(command).value, turn.now, again.now, turn.victims,
                   again.victims);
  }

  lemma SilentRepeats(cfg: StoreConfig, h: Session, b: Session, turn: Turn)
    requires SameEntries(cfg, h, b) && Undated(turn) && Extend(cfg, h, turn).log == h.log
    ensures SameEntries(cfg, Extend(cfg, h, turn), b)
  {
    assert Entries(turn, ResultOf(cfg, h.store, turn).1) == [];
    SilentTurn(cfg, h.store, turn);
    var keys: set<Key> :| ResultOf(cfg, h.store, turn).0.db == Purge(h.store.db, keys, turn.now);
    assert Purge(h.store.db, keys, turn.now) == h.store.db;
  }

  lemma {:induction false} SessionRepeats(cfg: StoreConfig, turns: seq<Turn>, replay: seq<Turn>)
    requires StoreTheorems.NoChoice(cfg) && AllUndated(turns)
    requires SessionOf(cfg, EMPTY, turns).legal && SessionOf(cfg, EMPTY, replay).legal
    requires FramesOf(replay) == SessionOf(cfg, EMPTY, turns).log
    ensures SameEntries(cfg, SessionOf(cfg, EMPTY, turns), SessionOf(cfg, EMPTY, replay))
    decreases |turns|
  {
    if turns != [] {
      var before, turn := turns[..|turns| - 1], turns[|turns| - 1];
      var h := SessionOf(cfg, EMPTY, before);
      assert SessionOf(cfg, EMPTY, turns) == Extend(cfg, h, turn) && Undated(turn);
      GrowsByOne(cfg, h, turn);
      if Extend(cfg, h, turn).log == h.log {
        SessionRepeats(cfg, before, replay);
        SilentRepeats(cfg, h, SessionOf(cfg, EMPTY, replay), turn);
      } else {
        var frame :| FramesOf(replay) == h.log + [frame];
        LastFrame(replay, h.log, frame);
        var earlier, again := replay[..|replay| - 1], replay[|replay| - 1];
        SessionRepeats(cfg, before, earlier);
        TurnRepeats(cfg, h, SessionOf(cfg, EMPTY, earlier), turn, again);
      }
    }
  }

  lemma {:induction false} UndatedIsLogged(cfg: StoreConfig, turns: seq<Turn>)
    requires AllUndated(turns)
    ensures AreLogged(SessionOf(cfg, EMPTY, turns).log)
    decreases |turns|
  {
    if turns != [] {
      var before, turn := turns[..|turns| - 1], turns[|turns| - 1];
      UndatedIsLogged(cfg, before);
      assert Undated(turn);
      EntriesAreLogged(turn, ResultOf(cfg, SessionOf(cfg, EMPTY, before).store, turn).1);
    }
  }

  /** Every possible replay of the log of a possible session without deadlines ends in the live
      entries. */
  ghost predicate LogDecides(cfg: StoreConfig) {
    forall turns: seq<Turn>, replay: seq<Turn> ::
      SessionOf(cfg, EMPTY, turns).legal && AllUndated(turns) && SessionOf(cfg, EMPTY, replay).legal
      && FramesOf(replay) == ReadAll(EncodeAll(SessionOf(cfg, EMPTY, turns).log)).frames ==>
        SessionOf(cfg, EMPTY, replay).store.db == SessionOf(cfg, EMPTY, turns).store.db
  }

  /** Whether the log decides what eviction left: exactly when there is no choice of victims. */
  lemma LogDecidesExactly(cfg: StoreConfig)
    requires cfg.maxMemory.Some? ==> cfg.maxMemory.value <= I64_MAX
    ensures LogDecides(cfg) <==> StoreTheorems.NoChoice(cfg)
  {
    if StoreTheorems.NoChoice(cfg) {
      forall turns: seq<Turn>, replay: seq<Turn>
        | SessionOf(cfg, EMPTY, turns).legal && AllUndated(turns) && SessionOf(cfg, EMPTY, replay).legal
          && FramesOf(replay) == ReadAll(EncodeAll(SessionOf(cfg, EMPTY, turns).log)).frames
        ensures SessionOf(cfg, EMPTY, replay).store.db == SessionOf(cfg, EMPTY, turns).store.db
      {
        UndatedIsLogged(cfg, turns);
        WholeLog(SessionOf(cfg, EMPTY, turns).log);
        SessionRepeats(cfg, turns, replay);
      }
    } else {
      var _, _ := EvictionIsNotReplayed(cfg, cfg.maxMemory.value);
    }
  }

  lemma SetTurnMakes(cfg: StoreConfig, s: Store, turn: Turn, key: Key, value: Bytes)
    requires Sized(turn.frame) && FromFrame(turn.frame) == Ok(Command.Set(key, value))
    requires var e := StoreTheorems.Event(Op.Set(key, value), turn.now, turn.victims);
             StoreTheorems.Legal(cfg, s, e) && StoreTheorems.Step(cfg, s, e).reply == Done
    ensures Makes(cfg, s, turn, LogLine(Command.Set(key, value), turn.now),
                  StoreTheorems.Step(cfg, s, StoreTheorems.Event(Op.Set(key, value), turn.now, turn.victims)).store.db)
  {
    ParserAccepts(turn.frame);
    LoggedFrameIsSound(Command.Set(key, value), turn.now);
  }

  /** A `SET`, asked for in the words of its own log line. */
  function SetTurn(key: Key, value: Bytes, victims: set<Key>): Turn {
    Turn(LogLine(Command.Set(key, value), 0), 0, victims)
  }

  lemma SetTurnAsks(key: Key, value: Bytes, victims: set<Key>)
    requires |key| <= I64_MAX && |value| <= I64_MAX
    ensures var turn := SetTurn(key, value, victims);
            Sized(turn.frame) && FromFrame(turn.frame) == Ok(Command.Set(key, value))
  {
    LoggedReadsBack(Command.Set(key, value), 0);
    LoggedFrameIsSound(Command.Set(key, value), 0);
  }

  /** The memory is filled, and then a third key comes. */
  function ThreeTurns(limit: nat, gone: bool): seq<Turn>
    requires limit > 2 * ENTRY_OVERHEAD
  {
    [SetTurn([], StoreTheorems.Filler(limit), {})] + [SetTurn(StoreTheorems.Y, [], {})]
    + [SetTurn(StoreTheorems.Z, [], StoreTheorems.Giving(limit, gone))]
  }

  lemma FramesOfThree(a: Turn, b: Turn, c: Turn)
    ensures FramesOf([a] + [b] + [c]) == [a.frame] + [b.frame] + [c.frame]
  {
    FramesOneMore([a] + [b], c);
    FramesOneMore([a], b);
    FramesOneMore([], a);
    assert [] + [a] == [a] && [] + [a.frame] == [a.frame];
  }

  lemma FramesOneMore(turns: seq<Turn>, turn: Turn)
    ensures FramesOf(turns + [turn]) == FramesOf(turns) + [turn.frame]
  {
    assert (turns + [turn])[..|turns|] == turns;
  }

  lemma FillerSession(cfg: StoreConfig, limit: nat, a: Turn)
    requires StoreTheorems.Choosing(cfg, limit) && limit <= I64_MAX
    requires a == SetTurn([], StoreTheorems.Filler(limit), {})
    ensures var h := SessionOf(cfg, EMPTY, [a]);
            h.legal && h.log == [a.frame] && h.store.db == map[[] := StoreTheorems.Lasting(StoreTheorems.Filler(limit))]
  {
    var value := StoreTheorems.Filler(limit);
    SetTurnAsks([], value, {});
    StoreTheorems.FillerStored(cfg, EMPTY, limit, StoreTheorems.Event(Op.Set([], value), 0, {}));
    SetTurnMakes(cfg, EMPTY, a, [], value);
    OneMore(cfg, [], a, a.frame, map[[] := StoreTheorems.Lasting(value)]);
    assert [] + [a] == [a];
  }

  lemma FillingSession(cfg: StoreConfig, limit: nat, a: Turn, b: Turn)
    requires StoreTheorems.Choosing(cfg, limit) && limit <= I64_MAX
    requires a == SetTurn([], StoreTheorems.Filler(limit), {}) && b == SetTurn(StoreTheorems.Y, [], {})
    ensures var h := SessionOf(cfg, EMPTY, [a] + [b]);
            && h.legal && h.store.db == StoreTheorems.Full(StoreTheorems.Lasting(StoreTheorems.Filler(limit)))
            && h.log == [a.frame] + [b.frame]
  {
    FillerSession(cfg, limit, a);
    SetTurnAsks(StoreTheorems.Y, [], {});
    var s := SessionOf(cfg, EMPTY, [a]).store;
    StoreTheorems.MemoryFilled(cfg, s, limit, StoreTheorems.Event(Op.Set(StoreTheorems.Y, []), 0, {}));
    SetTurnMakes(cfg, s, b, StoreTheorems.Y, []);
    OneMore(cfg, [a], b, b.frame, StoreTheorems.Full(StoreTheorems.Lasting(StoreTheorems.Filler(limit))));
  }

  lemma ThreeTurnsSession(cfg: StoreConfig, limit: nat, gone: bool)
    requires StoreTheorems.Choosing(cfg, limit) && limit <= I64_MAX
    ensures var h := SessionOf(cfg, EMPTY, ThreeTurns(limit, gone));
            && h.legal && h.log == FramesOf(ThreeTurns(limit, gone)) && AreLogged(h.log)
            && h.store.db == StoreTheorems.Full(StoreTheorems.Lasting(StoreTheorems.Filler(limit)))
                             [StoreTheorems.Z := StoreTheorems.Lasting([])] - StoreTheorems.Giving(limit, gone)
  {
    var victims := StoreTheorems.Giving(limit, gone);
    var before := [SetTurn([], StoreTheorems.Filler(limit), {})] + [SetTurn(StoreTheorems.Y, [], {})];
    var c := SetTurn(StoreTheorems.Z, [], victims);
    var filled := StoreTheorems.Full(StoreTheorems.Lasting(StoreTheorems.Filler(limit)));
    FillingSession(cfg, limit, before[0], before[1]);
    SetTurnAsks(StoreTheorems.Z, [], victims);
    var s := SessionOf(cfg, EMPTY, before).store;
    StoreTheorems.ThirdStored(cfg, s, limit, StoreTheorems.Event(Op.Set(StoreTheorems.Z, []), 0, victims), gone);
    SetTurnMakes(cfg, s, c, StoreTheorems.Z, []);
    OneMore(cfg, before, c, c.frame, filled[StoreTheorems.Z := StoreTheorems.Lasting([])] - victims);
    FramesOfThree(before[0], before[1], c);
    SetLinesAreLogged(limit);
  }

  lemma SetLinesAreLogged(limit: nat)
    requires 2 * ENTRY_OVERHEAD < limit <= I64_MAX
    ensures forall gone :: AreLogged(FramesOf(ThreeTurns(limit, gone)))
    ensures FramesOf(ThreeTurns(limit, false)) == FramesOf(ThreeTurns(limit, true))
  {
    var a, b := Command.Set([], StoreTheorems.Filler(limit)), Command.Set(StoreTheorems.Y, []);
    var c := Command.Set(StoreTheorems.Z, []);
    LineIsLogged(a);
    LineIsLogged(b);
    LineIsLogged(c);
    forall gone
      ensures FramesOf(ThreeTurns(limit, gone)) == [LogLine(a, 0)] + [LogLine(b, 0)] + [LogLine(c, 0)]
    {
      var turns := ThreeTurns(limit, gone);
      FramesOfThree(turns[0], turns[1], turns[2]);
    }
  }

  lemma LineIsLogged(command: Command)
    requires Durable(command) && Accepted(command)
    ensures IsLogged(LogLine(command, 0))
  {
    LoggedFrameIsSound(command, 0);
    assert IsRequest(AofArgs(command, 0));
  }

  /** Evictions are lost: for every limit that leaves a choice of victims there is a session
      whose log has a replay, as legal as the session, that ends in other entries. */
  lemma EvictionIsNotReplayed(cfg: StoreConfig, limit: nat) returns (turns: seq<Turn>, replay: seq<Turn>)
    requires StoreTheorems.Choosing(cfg, limit) && limit <= I64_MAX
    ensures SessionOf(cfg, EMPTY, turns).legal && SessionOf(cfg, EMPTY, replay).legal && AllUndated(turns)
    ensures FramesOf(replay) == ReadAll(EncodeAll(SessionOf(cfg, EMPTY, turns).log)).frames
    ensures SessionOf(cfg, EMPTY, replay).store.db != SessionOf(cfg, EMPTY, turns).store.db
  {
    turns, replay := ThreeTurns(limit, false), ThreeTurns(limit, true);
    ThreeTurnsSession(cfg, limit, false);
    ThreeTurnsSession(cfg, limit, true);
    SetLinesAreLogged(limit);
    WholeLog(SessionOf(cfg, EMPTY, turns).log);
    StoreTheorems.GivingShows(limit);
    ThreeAreUndated(limit, false);
  }

  lemma ThreeAreUndated(limit: nat, gone: bool)
    requires 2 * ENTRY_OVERHEAD < limit <= I64_MAX
    ensures AllUndated(ThreeTurns(limit, gone))
  {
    SetIsUndated([], StoreTheorems.Filler(limit), {});
    SetIsUndated(StoreTheorems.Y, [], {});
    SetIsUndated(StoreTheorems.Z, [], StoreTheorems.Giving(limit, gone));
    var turns := ThreeTurns(limit, gone);
    ThreeUndated(turns[0], turns[1], turns[2]);
  }

  lemma SetIsUndated(key: Key, value: Bytes, victims: set<Key>)
    requires |key| <= I64_MAX && |value| <= I64_MAX
    ensures Undated(SetTurn(key, value, victims))
  {
    SetTurnAsks(key, value, victims);
  }

  lemma ThreeUndated(a: Turn, b: Turn, c: Turn)
    requires Undated(a) && Undated(b) && Undated(c)
    ensures AllUndated([a] + [b] + [c])
  {
  }
}
