/** The server from one start to the next: it loads its log, serves, and is started again. */
module Restart {
  import opened ByteStrings
  import opened Frames
  import opened Encoder
  import opened Parser
  import opened StoreModel
  import opened Storage
  import opened Sessions
  import opened LogFile
  import opened Recovery

  function Contents(file: Option<Bytes>): Bytes {
    if file.Some? then file.value else []
  }

  /** A start with an append-only file: the file is replayed, the server refuses to start if
      that fails, and then a connection is served, appending to the file. */
  method Run(config: StoreConfig, file: Option<Bytes>, reader: Reader, output: Writer, loading: nat -> Time,
             serving: nat -> Time)
    returns (store: MemoryStore, aof: Aof?, r: Result<(), ReadError>, ghost replay: seq<Turn>, ghost turns: seq<Turn>)
    requires reader.Valid()
    modifies reader, output
    ensures store.config == config && (aof != null ==> aof.writer != output)
    ensures FramesOf(replay) == ReadAll(Contents(file)).frames
    ensures var loaded := SessionOf(config, EMPTY, replay).store;
            && Served(config, EMPTY, replay, loading, loaded)
            && match ReadAll(Contents(file)).failure
               case Some(error) => aof == null && r == Err(error) && store.State() == loaded
               case None =>
                 && aof != null && FramesOf(turns) == ReadAll(old(reader.Ahead())).frames
                 && InStep(config, loaded, turns, serving, store.State(), old(output.buffer), output.buffer,
                           Some(Contents(file)), Some(aof.writer.buffer))
  {
    store := new MemoryStore(config);
    var loaded;
    loaded, replay := Aof.Replay(file, store, loading);
    if loaded.Err? {
      return store, null, Err(loaded.error), replay, [];
    }
    aof := new Aof.Open(file);
    r, turns := HandleConnection(reader, output, store, aof, serving);
  }

  /** The clock reads times between `start` and `finish`. */
  ghost predicate Within(clock: nat -> Time, start: Time, finish: Time) {
    forall i: nat :: start <= clock(i) <= finish
  }

  lemma {:induction false} ClockedDuring(replay: seq<Turn>, clock: nat -> Time, start: Time, finish: Time)
    requires OnClock(replay, clock) && Within(clock, start, finish)
    ensures During(replay, start, finish)
    decreases |replay|
  {
    if replay != [] {
      ClockedDuring(replay[..|replay| - 1], clock, start, finish);
    }
  }

  /** What a connection left, served from an empty log, and what a replay of the bytes it
      logged makes: the latter is what is to be restored of the former. */
  lemma ServedThenReplayed(cfg: StoreConfig, turns: seq<Turn>, serving: nat -> Time, s: Store, output0: Bytes,
                           output: Bytes, log: Bytes, replay: seq<Turn>, loading: nat -> Time, s': Store,
                           start: Time, finish: Time)
    requires InStep(cfg, EMPTY, turns, serving, s, output0, output, Some([]), Some(log))
    requires Served(cfg, EMPTY, replay, loading, s') && FramesOf(replay) == ReadAll(log).frames
    requires SettledSession(cfg, EMPTY, turns, start, finish) && Within(loading, start, finish)
    ensures s'.db == Restored(s.db, start) && LooksAlike(s.db, s'.db, start)
    ensures ReadAll(log).failure == None
    ensures SessionOf(cfg, EMPTY, replay).successes == |SessionOf(cfg, EMPTY, turns).log|
  {
    assert log == EncodeAll(SessionOf(cfg, EMPTY, turns).log);
    ClockedDuring(replay, loading, start, finish);
    RecoveryEqualsLive(cfg, turns, replay, start, finish);
  }

  /** Served from an empty log and started again on it: if the session was settled, the new
      store holds what is to be restored of the old one, and every logged command counts. */
  method RunAndLoad(config: StoreConfig, reader: Reader, output: Writer, serving: nat -> Time, loading: nat -> Time,
                    ghost start: Time, ghost finish: Time)
    returns (store: MemoryStore, again: MemoryStore, loaded: Result<nat, ReadError>, ghost turns: seq<Turn>)
    requires reader.Valid() && Within(loading, start, finish)
    modifies reader, output
    ensures FramesOf(turns) == ReadAll(old(reader.Ahead())).frames
    ensures Served(config, EMPTY, turns, serving, store.State())
    ensures SettledSession(config, EMPTY, turns, start, finish) ==>
              && again.entries == Restored(store.entries, start) && LooksAlike(store.entries, again.entries, start)
              && loaded == Ok(|SessionOf(config, EMPTY, turns).log|)
  {
    ghost var output0 := output.buffer;
    var log;
    store, log, turns := FirstRun(config, reader, output, serving);
    again := new MemoryStore(config);
    ghost var replay;
    loaded, replay := Aof.Replay(Some(log), again, loading);
    if SettledSession(config, EMPTY, turns, start, finish) {
      ServedThenReplayed(config, turns, serving, store.State(), output0, output.buffer, log,
                         replay, loading, again.State(), start, finish);
    }
  }

  /** The first start, without a file: what it served, and what it logged. */
  method FirstRun(config: StoreConfig, reader: Reader, output: Writer, serving: nat -> Time)
    returns (store: MemoryStore, log: Bytes, ghost turns: seq<Turn>)
    requires reader.Valid()
    modifies reader, output
    ensures FramesOf(turns) == ReadAll(old(reader.Ahead())).frames
    ensures InStep(config, EMPTY, turns, serving, store.State(), old(output.buffer), output.buffer, Some([]), Some(log))
  {
    var aof, r;
    ghost var nothing;
    store, aof, r, nothing, turns := Run(config, None, reader, output, serving, serving);
    NothingReplayed(config, nothing);
    log := aof.writer.buffer;
  }

  lemma NothingReplayed(cfg: StoreConfig, replay: seq<Turn>)
    requires FramesOf(replay) == ReadAll([]).frames
    ensures replay == [] && SessionOf(cfg, EMPTY, replay).store == EMPTY
  {
  }

  // ---- any number of starts ----

  /** One life of the server: the replay it started with, and what it served. */
  datatype Life = Life(replay: seq<Turn>, turns: seq<Turn>, start: Time, finish: Time)

  ghost function Loaded(cfg: StoreConfig, life: Life): Store {
    SessionOf(cfg, EMPTY, life.replay).store
  }

  ghost function ServedIn(cfg: StoreConfig, life: Life): Session {
    SessionOf(cfg, Loaded(cfg, life), life.turns)
  }

  /** The store that the last life left. */
  ghost function LeftBy(cfg: StoreConfig, lives: seq<Life>): Store {
    if lives == [] then EMPTY else ServedIn(cfg, lives[|lives| - 1]).store
  }

  /** The frames in the file after all lives. */
  ghost function FileOf(cfg: StoreConfig, lives: seq<Life>): seq<Frame> {
    if lives == [] then []
    else FileOf(cfg, lives[..|lives| - 1]) + ServedIn(cfg, lives[|lives| - 1]).log
  }

  /** Every life is settled for a replay from `start` to `finish`, and started before it. */
  ghost predicate SettledLives(cfg: StoreConfig, lives: seq<Life>, start: Time, finish: Time) {
    var last := |lives| - 1;
    lives == [] ||
    (&& SettledLives(cfg, lives[..last], start, finish) && lives[last].start <= start
     && SettledSession(cfg, Loaded(cfg, lives[last]), lives[last].turns, start, finish))
  }

  /** Each life started with a replay of the file that the earlier ones had left, which were
      settled for it. */
  ghost predicate AreLives(cfg: StoreConfig, lives: seq<Life>) {
    var last := |lives| - 1;
    lives == [] ||
    (&& AreLives(cfg, lives[..last]) && SettledLives(cfg, lives[..last], lives[last].start, lives[last].finish)
     && FramesOf(lives[last].replay) == ReadAll(EncodeAll(FileOf(cfg, lives[..last]))).frames
     && During(lives[last].replay, lives[last].start, lives[last].finish))
  }

  lemma RoundUpTwice(deadline: Time)
    ensures RoundUp(RoundUp(deadline)) == RoundUp(deadline)
  {
  }

  lemma RestoredEntryTwice(entry: Entry, start: Time)
    ensures RoundedEntry(RoundedEntry(entry)) == RoundedEntry(entry)
    ensures Doomed(RoundedEntry(entry), start) <==> Doomed(entry, start)
  {
    if entry.expiresAt.Some? {
      RoundUpTwice(entry.expiresAt.value);
    }
  }

  /** Restoring twice is restoring once, later. */
  lemma RestoredTwice(db: Db, earlier: Time, start: Time, finish: Time)
    requires earlier <= start
    ensures Restored(Restored(db, earlier), start) == Restored(db, start)
    ensures Lasts(db, start, finish) ==> Lasts(Restored(db, earlier), start, finish)
  {
    forall k: Key | k in db
      ensures RoundedEntry(RoundedEntry(db[k])) == RoundedEntry(db[k])
      ensures Doomed(RoundedEntry(db[k]), start) <==> Doomed(db[k], start)
      ensures Doomed(db[k], earlier) ==> Doomed(db[k], start)
      ensures db[k].expiresAt.Some? ==> RoundUp(RoundUp(db[k].expiresAt.value)) == RoundUp(db[k].expiresAt.value)
    {
      RestoredEntryTwice(db[k], start);
      if db[k].expiresAt.Some? {
        RoundUpTwice(db[k].expiresAt.value);
      }
    }
  }

  lemma {:induction false} FramesConcat(a: seq<Turn>, b: seq<Turn>)
    ensures FramesOf(a + b) == FramesOf(a) + FramesOf(b)
    decreases |b|
  {
    if b == [] {
      assert a + b == a;
    } else {
      var last := |b| - 1;
      FramesConcat(a, b[..last]);
      assert (a + b)[..|a| + last] == a + b[..last];
    }
  }

  /** One session stands where another does, `n` successes ahead. */
  ghost predicate Ahead(h: Session, g: Session, n: nat) {
    h.store == g.store && h.successes == n + g.successes
  }

  lemma ExtendAhead(cfg: StoreConfig, h: Session, g: Session, turn: Turn, n: nat)
    requires Ahead(h, g, n)
    ensures Ahead(Extend(cfg, h, turn), Extend(cfg, g, turn), n)
  {
  }

  lemma AheadOneMore(cfg: StoreConfig, s: Store, all: seq<Turn>, middle: Store, part: seq<Turn>, turn: Turn, n: nat)
    requires Ahead(SessionOf(cfg, s, all), SessionOf(cfg, middle, part), n)
    ensures Ahead(SessionOf(cfg, s, all + [turn]), SessionOf(cfg, middle, part + [turn]), n)
  {
    OneMoreTurn(cfg, s, all, turn);
    OneMoreTurn(cfg, middle, part, turn);
    ExtendAhead(cfg, SessionOf(cfg, s, all), SessionOf(cfg, middle, part), turn, n);
  }

  lemma Snoc(a: seq<Turn>, b: seq<Turn>)
    requires b != []
    ensures b[..|b| - 1] + [b[|b| - 1]] == b && a + b[..|b| - 1] + [b[|b| - 1]] == a + b
  {
  }

  lemma {:induction false} SessionConcat(cfg: StoreConfig, s: Store, a: seq<Turn>, b: seq<Turn>, middle: Store, n: nat)
    requires middle == SessionOf(cfg, s, a).store && n == SessionOf(cfg, s, a).successes
    ensures Ahead(SessionOf(cfg, s, a + b), SessionOf(cfg, middle, b), n)
    decreases |b|
  {
    if b == [] {
      assert a + b == a;
    } else {
      var before, last := b[..|b| - 1], b[|b| - 1];
      SessionConcat(cfg, s, a, before, middle, n);
      AheadOneMore(cfg, s, a + before, middle, before, last, n);
      Snoc(a, b);
    }
  }

  lemma {:induction false} FramesLength(turns: seq<Turn>)
    ensures |FramesOf(turns)| == |turns|
  {
    if turns != [] {
      FramesLength(turns[..|turns| - 1]);
    }
  }

  /** A replay of a file in two parts. */
  lemma SplitReplay(replay: seq<Turn>, first: seq<Frame>, second: seq<Frame>, start: Time, finish: Time)
    returns (a: seq<Turn>, b: seq<Turn>)
    requires FramesOf(replay) == first + second && During(replay, start, finish)
    ensures replay == a + b && FramesOf(a) == first && FramesOf(b) == second
    ensures During(a, start, finish) && During(b, start, finish)
  {
    FramesLength(replay);
    a, b := replay[..|first|], replay[|first|..];
    assert replay == a + b;
    FramesConcat(a, b);
    FramesLength(a);
    FramesLength(b);
    assert FramesOf(a) == (first + second)[..|first|] && FramesOf(b) == (first + second)[|first|..];
    DuringParts(a, b, start, finish);
  }

  lemma {:induction false} DuringParts(a: seq<Turn>, b: seq<Turn>, start: Time, finish: Time)
    requires During(a + b, start, finish)
    ensures During(a, start, finish) && During(b, start, finish)
    decreases |b|
  {
    if b == [] {
      assert a + b == a;
    } else {
      assert (a + b)[..|a + b| - 1] == a + b[..|b| - 1];
      DuringParts(a, b[..|b| - 1], start, finish);
    }
  }

  lemma AllButLast(lives: seq<Life>) returns (before: seq<Life>, life: Life)
    requires lives != []
    ensures lives == before + [life] && |before| < |lives|
  {
    before, life := lives[..|lives| - 1], lives[|lives| - 1];
  }

  lemma LastLife(cfg: StoreConfig, lives: seq<Life>, before: seq<Life>, life: Life, start: Time, finish: Time)
    requires lives == before + [life] && AreLives(cfg, lives) && SettledLives(cfg, lives, start, finish)
    ensures AreLives(cfg, before) && SettledLives(cfg, before, life.start, life.finish)
    ensures FramesOf(life.replay) == ReadAll(EncodeAll(FileOf(cfg, before))).frames
    ensures During(life.replay, life.start, life.finish)
    ensures SettledLives(cfg, before, start, finish) && life.start <= start
    ensures SettledSession(cfg, Loaded(cfg, life), life.turns, start, finish)
    ensures FileOf(cfg, lives) == FileOf(cfg, before) + ServedIn(cfg, life).log
  {
    assert lives[..|before|] == before && lives[|before|] == life;
  }

  lemma FileReads(cfg: StoreConfig, lives: seq<Life>, start: Time, finish: Time)
    requires SettledLives(cfg, lives, start, finish)
    ensures ReadAll(EncodeAll(FileOf(cfg, lives))) == Stream(FileOf(cfg, lives), None)
  {
    FileIsLogged(cfg, lives, start, finish);
    WholeLog(FileOf(cfg, lives));
  }

  lemma {:induction false} FileIsLogged(cfg: StoreConfig, lives: seq<Life>, start: Time, finish: Time)
    requires SettledLives(cfg, lives, start, finish)
    ensures AreLogged(FileOf(cfg, lives))
  {
    if lives != [] {
      var last := |lives| - 1;
      FileIsLogged(cfg, lives[..last], start, finish);
      SessionIsLogged(cfg, Loaded(cfg, lives[last]), lives[last].turns, start, finish);
    }
  }

  /** A replay stands where the lives are to be restored. */
  ghost predicate RebuiltBy(cfg: StoreConfig, lives: seq<Life>, replay: seq<Turn>, start: Time, finish: Time) {
    var back := SessionOf(cfg, EMPTY, replay);
    && back.store.db == Restored(LeftBy(cfg, lives).db, start) && Lasts(LeftBy(cfg, lives).db, start, finish)
    && back.successes == |FileOf(cfg, lives)|
  }

  lemma OneMoreLife(cfg: StoreConfig, before: seq<Life>, life: Life, a: seq<Turn>, b: seq<Turn>, start: Time,
                    finish: Time)
    requires RebuiltBy(cfg, before, life.replay, life.start, life.finish) && RebuiltBy(cfg, before, a, start, finish)
    requires life.start <= start && SettledSession(cfg, Loaded(cfg, life), life.turns, start, finish)
    requires During(b, start, finish) && FramesOf(b) == ServedIn(cfg, life).log
    ensures RebuiltBy(cfg, before + [life], a + b, start, finish)
  {
    var loaded, back := Loaded(cfg, life), SessionOf(cfg, EMPTY, a).store;
    RestoredTwice(LeftBy(cfg, before).db, life.start, start, finish);
    SessionRecovers(cfg, loaded, back, life.turns, b, start, finish);
    SessionConcat(cfg, EMPTY, a, b, back, SessionOf(cfg, EMPTY, a).successes);
    assert (before + [life])[..|before|] == before;
  }

  /** Recovery over any number of starts: replaying the file that all lives have left, each of
      which had loaded what the earlier ones left, rebuilds what is to be restored of the last
      one, without a failure. */
  lemma {:induction false} RestartsRecover(cfg: StoreConfig, lives: seq<Life>, replay: seq<Turn>, start: Time,
                                           finish: Time)
    requires AreLives(cfg, lives) && SettledLives(cfg, lives, start, finish)
    requires FramesOf(replay) == ReadAll(EncodeAll(FileOf(cfg, lives))).frames && During(replay, start, finish)
    ensures RebuiltBy(cfg, lives, replay, start, finish)
    ensures ReadAll(EncodeAll(FileOf(cfg, lives))).failure == None
    ensures LooksAlike(LeftBy(cfg, lives).db, SessionOf(cfg, EMPTY, replay).store.db, start)
    decreases |lives|
  {
    FileReads(cfg, lives, start, finish);
    if lives == [] {
      NothingReplayed(cfg, replay);
      NothingToRestore(start, finish);
    } else {
      var before, life := AllButLast(lives);
      LastLife(cfg, lives, before, life, start, finish);
      FileReads(cfg, before, start, finish);
      var a, b := SplitReplay(replay, FileOf(cfg, before), ServedIn(cfg, life).log, start, finish);
      RestartsRecover(cfg, before, a, start, finish);
      RestartsRecover(cfg, before, life.replay, life.start, life.finish);
      OneMoreLife(cfg, before, life, a, b, start, finish);
    }
    RestoredLooksRounded(LeftBy(cfg, lives).db, start);
  }
}
