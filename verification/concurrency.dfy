/** What interleaving does to recovery: the order in which commands reach the log matters on
    each key only, so that one writer for each key is enough. */
module ConcurrentRecovery {
  import opened ByteStrings
  import opened Frames
  import opened Parser
  import opened StoreModel
  import StoreTheorems
  import opened Commands
  import opened Sessions
  import opened LogFile
  import Recovery
  import opened Server

  // ---- commands without deadlines ----

  /** A durable command that sets no deadline. */
  predicate IsPlain(command: Command) {
    Durable(command) && !command.Expire? && !command.ExpireAt?
  }

  /** The keys it writes. */
  function Written(command: Command): set<Key>
    requires Durable(command)
  {
    Named(OpOf(command).value)
  }

  /** Its outcome; with no deadline the clock does not matter. */
  ghost function Effect(cfg: StoreConfig, db: Db, command: Command): Outcome
    requires IsPlain(command)
  {
    Plain(cfg, Store(db, 0, 0, 0), OpOf(command).value, 0, {})
  }

  lemma EffectIsPlain(cfg: StoreConfig, s: Store, command: Command, now: Time, victims: set<Key>)
    requires IsPlain(command) && cfg.maxMemory.None?
    ensures var plain, effect := Plain(cfg, s, OpOf(command).value, now, victims), Effect(cfg, s.db, command);
            plain.store.db == effect.store.db && (plain.reply.Failed? <==> effect.reply.Failed?)
  {
    ClockMattersNot(cfg, s, Store(s.db, 0, 0, 0), OpOf(command).value, now, victims);
  }

  lemma ClockMattersNot(cfg: StoreConfig, s: Store, t: Store, op: Op, now: Time, victims: set<Key>)
    requires cfg.maxMemory.None? && s.db == t.db && (op.Set? || op.Push? || op.Pop? || op.Del? || op.Persist?)
    ensures var a, b := Plain(cfg, s, op, now, victims), Plain(cfg, t, op, 0, {});
            a.store.db == b.store.db && a.reply == b.reply
  {
  }

  lemma ExecutedIsEffect(cfg: StoreConfig, s: Store, command: Command, now: Time, victims: set<Key>)
    requires IsPlain(command) && cfg.maxMemory.None? && StoreTheorems.NoDeadlines(s.db)
    ensures var (after, answer) := Commands.Executed(cfg, s, command, now, victims);
            var effect := Effect(cfg, s.db, command);
            after.db == effect.store.db && (answer.Ok? <==> !effect.reply.Failed?)
  {
    Recovery.NothingToVisit(s, OpOf(command).value, now, now);
    Recovery.ExecutedIsPlain(cfg, s, command, now, victims);
    EffectIsPlain(cfg, s, command, now, victims);
  }

  lemma EffectKeepsNoDeadlines(cfg: StoreConfig, db: Db, command: Command)
    requires IsPlain(command) && cfg.maxMemory.None? && StoreTheorems.NoDeadlines(db)
    ensures StoreTheorems.NoDeadlines(Effect(cfg, db, command).store.db)
  {
  }

  /** The same entry under `k`, or none. */
  ghost predicate AgreeAt(a: Db, b: Db, k: Key) {
    (k in a <==> k in b) && (k in a ==> a[k] == b[k])
  }

  lemma EffectElsewhere(cfg: StoreConfig, db: Db, command: Command, k: Key)
    requires IsPlain(command) && k !in Written(command)
    ensures AgreeAt(Effect(cfg, db, command).store.db, db, k)
  {
    StoreTheorems.NamedFrame(cfg, Store(db, 0, 0, 0), OpOf(command).value, 0);
  }

  /** What a command does under a key depends on nothing but the entry there; only a deletion,
      which never fails, may name further keys. */
  lemma EffectAt(cfg: StoreConfig, a: Db, b: Db, command: Command, k: Key)
    requires IsPlain(command) && cfg.maxMemory.None? && k in Written(command) && AgreeAt(a, b, k)
    ensures AgreeAt(Effect(cfg, a, command).store.db, Effect(cfg, b, command).store.db, k)
    ensures Effect(cfg, a, command).reply.Failed? <==> Effect(cfg, b, command).reply.Failed?
  {
    if !command.Del? {
      StoreTheorems.PlainLocal(cfg, Store(a, 0, 0, 0), Store(b, 0, 0, 0), OpOf(command).value, 0);
    }
  }

  // ---- sequences of records ----

  ghost predicate ArePlain(records: seq<Record>) {
    forall i :: 0 <= i < |records| ==> IsPlain(records[i].command)
  }

  /** The entries after executing the records in order. */
  ghost function Rebuilt(cfg: StoreConfig, records: seq<Record>): Db
    requires ArePlain(records)
  {
    if records == [] then map[]
    else Effect(cfg, Rebuilt(cfg, records[..|records| - 1]), records[|records| - 1].command).store.db
  }

  /** Every record succeeds in its place. */
  ghost predicate AllSucceed(cfg: StoreConfig, records: seq<Record>)
    requires ArePlain(records)
  {
    var last := |records| - 1;
    records == [] ||
    (&& AllSucceed(cfg, records[..last])
     && !Effect(cfg, Rebuilt(cfg, records[..last]), records[last].command).reply.Failed?)
  }

  /** The records that write under `k`, in order. */
  function OnKey(records: seq<Record>, k: Key): seq<Record> {
    if records == [] then []
    else
      var last := |records| - 1;
      OnKey(records[..last], k) + if Writes(records[last], k) then [records[last]] else []
  }

  predicate Writes(record: Record, k: Key) {
    Durable(record.command) && k in Written(record.command)
  }

  lemma {:induction false} OnKeyIsPlain(records: seq<Record>, k: Key)
    requires ArePlain(records)
    ensures ArePlain(OnKey(records, k))
  {
    if records != [] {
      OnKeyIsPlain(records[..|records| - 1], k);
    }
  }

  lemma OneMoreRecord(cfg: StoreConfig, records: seq<Record>, record: Record)
    requires ArePlain(records) && IsPlain(record.command)
    ensures ArePlain(records + [record])
    ensures Rebuilt(cfg, records + [record]) == Effect(cfg, Rebuilt(cfg, records), record.command).store.db
    ensures AllSucceed(cfg, records + [record]) <==>
            AllSucceed(cfg, records) && !Effect(cfg, Rebuilt(cfg, records), record.command).reply.Failed?
  {
    assert (records + [record])[..|records|] == records;
  }

  /** Under a key all that counts is what was written there. */
  lemma {:induction false} OnlyWritesCount(cfg: StoreConfig, records: seq<Record>, k: Key)
    requires cfg.maxMemory.None? && ArePlain(records)
    ensures ArePlain(OnKey(records, k)) && AgreeAt(Rebuilt(cfg, records), Rebuilt(cfg, OnKey(records, k)), k)
    decreases |records|
  {
    OnKeyIsPlain(records, k);
    if records != [] {
      var before, last := records[..|records| - 1], records[|records| - 1];
      OnlyWritesCount(cfg, before, k);
      if Writes(last, k) {
        OneMoreRecord(cfg, OnKey(before, k), last);
        EffectAt(cfg, Rebuilt(cfg, before), Rebuilt(cfg, OnKey(before, k)), last.command, k);
      } else {
        assert OnKey(records, k) == OnKey(before, k);
        EffectElsewhere(cfg, Rebuilt(cfg, before), last.command, k);
      }
    }
  }

  /** The same commands, in the same order on each key. */
  ghost predicate SameOnKeys(a: seq<Record>, b: seq<Record>) {
    forall k: Key :: OnKey(a, k) == OnKey(b, k)
  }

  /** The order of commands on different keys does not matter for the entries. */
  lemma OrderOnKeysDecides(cfg: StoreConfig, a: seq<Record>, b: seq<Record>)
    requires cfg.maxMemory.None? && ArePlain(a) && ArePlain(b) && SameOnKeys(a, b)
    ensures Rebuilt(cfg, a) == Rebuilt(cfg, b)
  {
    forall k: Key
      ensures AgreeAt(Rebuilt(cfg, a), Rebuilt(cfg, b), k)
    {
      assert OnKey(a, k) == OnKey(b, k);
      OnlyWritesCount(cfg, a, k);
      OnlyWritesCount(cfg, b, k);
    }
    forall k: Key
      ensures k in Rebuilt(cfg, a) <==> k in Rebuilt(cfg, b)
      ensures k in Rebuilt(cfg, a) ==> Rebuilt(cfg, a)[k] == Rebuilt(cfg, b)[k]
    {
      assert AgreeAt(Rebuilt(cfg, a), Rebuilt(cfg, b), k);
    }
  }

  /** A run that succeeds throughout does so on each key alone. */
  lemma {:induction false} SuccessOnKey(cfg: StoreConfig, records: seq<Record>, k: Key)
    requires cfg.maxMemory.None? && ArePlain(records) && AllSucceed(cfg, records)
    ensures ArePlain(OnKey(records, k)) && AllSucceed(cfg, OnKey(records, k))
    decreases |records|
  {
    OnKeyIsPlain(records, k);
    if records != [] {
      var before, last := records[..|records| - 1], records[|records| - 1];
      SuccessOnKey(cfg, before, k);
      if Writes(last, k) {
        OnlyWritesCount(cfg, before, k);
        OneMoreRecord(cfg, OnKey(before, k), last);
        EffectAt(cfg, Rebuilt(cfg, before), Rebuilt(cfg, OnKey(before, k)), last.command, k);
      } else {
        assert OnKey(records, k) == OnKey(before, k);
      }
    }
  }

  lemma DeletionSucceeds(cfg: StoreConfig, db: Db, command: Command)
    requires IsPlain(command) && command.Del?
    ensures !Effect(cfg, db, command).reply.Failed?
  {
  }

  ghost predicate SucceedsOnKey(cfg: StoreConfig, records: seq<Record>, k: Key) {
    ArePlain(OnKey(records, k)) && AllSucceed(cfg, OnKey(records, k))
  }

  lemma LastOnKeySucceeds(cfg: StoreConfig, records: seq<Record>, k: Key)
    requires records != [] && ArePlain(records) && SucceedsOnKey(cfg, records, k)
    ensures var before, last := records[..|records| - 1], records[|records| - 1];
            && SucceedsOnKey(cfg, before, k)
            && (Writes(last, k) ==> !Effect(cfg, Rebuilt(cfg, OnKey(before, k)), last.command).reply.Failed?)
  {
    var before, last := records[..|records| - 1], records[|records| - 1];
    OnKeyIsPlain(before, k);
    if Writes(last, k) {
      OneMoreRecord(cfg, OnKey(before, k), last);
    } else {
      assert OnKey(records, k) == OnKey(before, k);
    }
  }

  lemma LastSucceeds(cfg: StoreConfig, records: seq<Record>)
    requires cfg.maxMemory.None? && records != [] && ArePlain(records)
    requires forall k: Key :: SucceedsOnKey(cfg, records, k)
    ensures !Effect(cfg, Rebuilt(cfg, records[..|records| - 1]), records[|records| - 1].command).reply.Failed?
  {
    var before, last := records[..|records| - 1], records[|records| - 1];
    if last.command.Del? {
      DeletionSucceeds(cfg, Rebuilt(cfg, before), last.command);
    } else {
      var k := OpOf(last.command).value.key;
      assert SucceedsOnKey(cfg, records, k);
      LastOnKeySucceeds(cfg, records, k);
      OnlyWritesCount(cfg, before, k);
      EffectAt(cfg, Rebuilt(cfg, before), Rebuilt(cfg, OnKey(before, k)), last.command, k);
    }
  }

  /** And a run whose part on each key succeeds alone succeeds throughout. */
  lemma {:induction false} SuccessTogether(cfg: StoreConfig, records: seq<Record>)
    requires cfg.maxMemory.None? && ArePlain(records)
    requires forall k: Key :: SucceedsOnKey(cfg, records, k)
    ensures AllSucceed(cfg, records)
    decreases |records|
  {
    if records != [] {
      var before := records[..|records| - 1];
      forall k: Key
        ensures SucceedsOnKey(cfg, before, k)
      {
        assert SucceedsOnKey(cfg, records, k);
        LastOnKeySucceeds(cfg, records, k);
      }
      SuccessTogether(cfg, before);
      LastSucceeds(cfg, records);
    }
  }

  lemma SuccessInAnyOrder(cfg: StoreConfig, a: seq<Record>, b: seq<Record>)
    requires cfg.maxMemory.None? && ArePlain(a) && ArePlain(b) && AllSucceed(cfg, a) && SameOnKeys(a, b)
    ensures AllSucceed(cfg, b)
  {
    forall k: Key
      ensures SucceedsOnKey(cfg, b, k)
    {
      assert OnKey(a, k) == OnKey(b, k);
      SuccessOnKey(cfg, a, k);
    }
    SuccessTogether(cfg, b);
  }

  // ---- the live store ----

  ghost predicate SetsNoDeadline(action: Action) {
    action.Exec? && FromFrame(action.frame).Ok? ==>
      !FromFrame(action.frame).value.Expire? && !FromFrame(action.frame).value.ExpireAt?
  }

  ghost predicate NoneSetsDeadlines(actions: seq<Action>) {
    forall i :: 0 <= i < |actions| ==> SetsNoDeadline(actions[i])
  }

  /** The live entries are what the executed records make, in the order of execution. */
  ghost predicate Faithful(cfg: StoreConfig, sys: System) {
    && ArePlain(sys.executed) && AllSucceed(cfg, sys.executed)
    && sys.store.db == Rebuilt(cfg, sys.executed) && StoreTheorems.NoDeadlines(sys.store.db)
  }

  lemma SilentExec(cfg: StoreConfig, s: Store, command: Command, now: Time, victims: set<Key>)
    requires StoreTheorems.NoDeadlines(s.db)
    requires !Durable(command) || Commands.Executed(cfg, s, command, now, victims).1.Err?
    ensures Commands.Executed(cfg, s, command, now, victims).0.db == s.db
  {
    if OpOf(command).Some? {
      Recovery.SilentCommand(cfg, s, command, now, victims);
      Recovery.NothingToVisit(s, OpOf(command).value, now, now);
    }
  }

  lemma ExecKeepsFaithful(cfg: StoreConfig, sys: System, action: Action)
    requires cfg.maxMemory.None? && Faithful(cfg, sys) && action.Exec? && Enabled(cfg, sys, action)
    requires SetsNoDeadline(action)
    ensures Faithful(cfg, Next(cfg, sys, action))
  {
    if FromFrame(action.frame).Ok? {
      var command := FromFrame(action.frame).value;
      var answer := Commands.Executed(cfg, sys.store, command, action.now, action.victims).1;
      if Durable(command) && answer.Ok? {
        ExecutedIsEffect(cfg, sys.store, command, action.now, action.victims);
        EffectKeepsNoDeadlines(cfg, sys.store.db, command);
        OneMoreRecord(cfg, sys.executed, Record(action.conn, command, action.read));
      } else {
        SilentExec(cfg, sys.store, command, action.now, action.victims);
      }
    }
  }

  lemma StepKeepsFaithful(cfg: StoreConfig, sys: System, action: Action)
    requires cfg.maxMemory.None? && Faithful(cfg, sys) && Enabled(cfg, sys, action) && SetsNoDeadline(action)
    ensures Faithful(cfg, Next(cfg, sys, action))
  {
    if action.Exec? {
      ExecKeepsFaithful(cfg, sys, action);
    } else if action.Sweep? {
      assert Live(sys.store.db, action.now) == sys.store.db;
    }
  }

  lemma {:induction false} AlwaysFaithful(cfg: StoreConfig, actions: seq<Action>)
    requires cfg.maxMemory.None? && IsRun(cfg, actions) && NoneSetsDeadlines(actions)
    ensures Faithful(cfg, State(cfg, actions))
    decreases |actions|
  {
    if actions != [] {
      var before := actions[..|actions| - 1];
      AlwaysFaithful(cfg, before);
      StepKeepsFaithful(cfg, State(cfg, before), actions[|actions| - 1]);
    }
  }

  // ---- replay ----

  lemma {:induction false} ReplayRebuilds(cfg: StoreConfig, records: seq<Record>, replay: seq<Turn>)
    requires cfg.maxMemory.None? && ArePlain(records) && AllSucceed(cfg, records)
    requires forall i :: 0 <= i < |records| ==> IsSound(records[i])
    requires FramesOf(replay) == Lines(records)
    ensures var session := SessionOf(cfg, EMPTY, replay);
            && session.store.db == Rebuilt(cfg, records) && StoreTheorems.NoDeadlines(session.store.db)
            && session.successes == |records|
    decreases |records|
  {
    if records == [] {
      assert replay == [];
    } else {
      var before, last := records[..|records| - 1], records[|records| - 1];
      assert Lines(records) == Lines(before) + [Line(last)];
      Recovery.LastFrame(replay, Lines(before), Line(last));
      var earlier, again := replay[..|replay| - 1], replay[|replay| - 1];
      ReplayRebuilds(cfg, before, earlier);
      ReplayStep(cfg, SessionOf(cfg, EMPTY, earlier), again, last);
    }
  }

  lemma ReplayStep(cfg: StoreConfig, h: Session, again: Turn, record: Record)
    requires cfg.maxMemory.None? && IsPlain(record.command) && IsSound(record) && again.frame == Line(record)
    requires StoreTheorems.NoDeadlines(h.store.db) && !Effect(cfg, h.store.db, record.command).reply.Failed?
    ensures var h' := Extend(cfg, h, again);
            && h'.store.db == Effect(cfg, h.store.db, record.command).store.db && StoreTheorems.NoDeadlines(h'.store.db)
            && h'.successes == h.successes + 1
  {
    LoggedFrameIsSound(record.command, record.read);
    LoggedReadsBack(record.command, record.read);
    ExecutedIsEffect(cfg, h.store, record.command, again.now, again.victims);
    EffectKeepsNoDeadlines(cfg, h.store.db, record.command);
  }

  lemma {:induction false} OfConcat(a: seq<Record>, b: seq<Record>, conn: Conn)
    ensures Of(a + b, conn) == Of(a, conn) + Of(b, conn)
    decreases |b|
  {
    if b == [] {
      assert a + b == a;
    } else {
      var last := |b| - 1;
      OfConcat(a, b[..last], conn);
      assert (a + b)[..|a| + last] == a + b[..last];
    }
  }

  /** All the commands that were executed and are not in the log yet, in some order. */
  ghost predicate AreInFlight(sys: System, order: seq<Record>) {
    forall conn: Conn :: Of(order, conn) == InFlight(PhaseOf(sys, conn))
  }

  lemma SamePerConnection(sys: System, order: seq<Record>, conn: Conn)
    requires Consistent(sys) && AreInFlight(sys, order)
    ensures Of(sys.executed, conn) == Of(sys.log + order, conn)
  {
    assert InOrder(sys, conn);
    OfConcat(sys.log, order, conn);
  }

  lemma SameMembers(sys: System, order: seq<Record>, record: Record)
    requires Consistent(sys) && AreInFlight(sys, order)
    ensures record in sys.executed <==> record in sys.log + order
    ensures record in sys.executed ==> IsSound(record)
  {
    SamePerConnection(sys, order, record.conn);
    OfKeepsMembers(sys.executed, record);
    OfKeepsMembers(sys.log + order, record);
    OfKeepsMembers(order, record);
    assert InOrder(sys, record.conn);
  }

  lemma LogThenInFlightPlain(sys: System, order: seq<Record>)
    requires Consistent(sys) && ArePlain(sys.executed) && AreInFlight(sys, order)
    ensures ArePlain(sys.log + order)
    ensures forall i :: 0 <= i < |sys.log + order| ==> IsSound((sys.log + order)[i])
  {
    var all := sys.log + order;
    forall i | 0 <= i < |all|
      ensures IsSound(all[i]) && IsPlain(all[i].command)
    {
      SameMembers(sys, order, all[i]);
      PlainMember(sys.executed, all[i]);
    }
  }

  lemma PlainMember(records: seq<Record>, record: Record)
    requires ArePlain(records) && record in records
    ensures IsPlain(record.command)
  {
  }

  /** Concurrent recovery, key by key: without limit and deadlines, if the log, followed by
      the commands that are executed and not in it yet, has on every key the order in which
      they were executed, it replays to the live entries. No command fails. */
  lemma KeyOrderReplaysToLive(cfg: StoreConfig, actions: seq<Action>, order: seq<Record>, replay: seq<Turn>)
    requires cfg.maxMemory.None? && IsRun(cfg, actions) && NoneSetsDeadlines(actions)
    requires var sys := State(cfg, actions); AreInFlight(sys, order) && SameOnKeys(sys.executed, sys.log + order)
    requires FramesOf(replay) == Lines(State(cfg, actions).log + order)
    ensures SessionOf(cfg, EMPTY, replay).store.db == State(cfg, actions).store.db
    ensures SessionOf(cfg, EMPTY, replay).successes == |State(cfg, actions).log + order|
  {
    AlwaysConsistent(cfg, actions);
    AlwaysFaithful(cfg, actions);
    var sys := State(cfg, actions);
    LogThenInFlightPlain(sys, order);
    OrderOnKeysDecides(cfg, sys.executed, sys.log + order);
    SuccessInAnyOrder(cfg, sys.executed, sys.log + order);
    ReplayRebuilds(cfg, sys.log + order, replay);
  }

  // ---- one writer for each key ----

  /** The requests of a run write only what `may` lets their connection write. */
  ghost predicate Respects(action: Action, may: (Conn, Key) -> bool) {
    && SetsNoDeadline(action)
    && (action.Exec? && FromFrame(action.frame).Ok? && Durable(FromFrame(action.frame).value) ==>
          forall k: Key :: k in Written(FromFrame(action.frame).value) ==> may(action.conn, k))
  }

  ghost predicate AllRespect(actions: seq<Action>, may: (Conn, Key) -> bool) {
    forall i :: 0 <= i < |actions| ==> Respects(actions[i], may)
  }

  /** No key that fits in a frame may be written by two connections. */
  ghost predicate OneWriter(may: (Conn, Key) -> bool) {
    forall k: Key, c: Conn, d: Conn :: |k| <= I64_MAX && may(c, k) && may(d, k) ==> c == d
  }

  ghost predicate RecordMay(record: Record, may: (Conn, Key) -> bool) {
    forall k: Key :: Writes(record, k) ==> may(record.conn, k)
  }

  lemma {:induction false} ExecutedMay(cfg: StoreConfig, actions: seq<Action>, may: (Conn, Key) -> bool)
    requires IsRun(cfg, actions) && AllRespect(actions, may)
    ensures forall record: Record :: record in State(cfg, actions).executed ==> RecordMay(record, may)
    decreases |actions|
  {
    if actions != [] {
      var before, action := actions[..|actions| - 1], actions[|actions| - 1];
      ExecutedMay(cfg, before, may);
      assert Respects(action, may);
    }
  }

  lemma KeysFit(record: Record, k: Key)
    requires IsSound(record) && Writes(record, k)
    ensures |k| <= I64_MAX
  {
  }

  /** If only `conn` writes under a key, its records say it all. */
  lemma {:induction false} OnKeyOf(records: seq<Record>, k: Key, conn: Conn)
    requires forall record: Record :: record in records && Writes(record, k) ==> record.conn == conn
    ensures OnKey(records, k) == OnKey(Of(records, conn), k)
  {
    if records != [] {
      var before, last := records[..|records| - 1], records[|records| - 1];
      assert last in records && forall record: Record :: record in before ==> record in records;
      OnKeyOf(before, k, conn);
      var own := Of(before, conn);
      if last.conn == conn {
        assert Of(records, conn)[..|own|] == own;
      } else {
        assert Of(records, conn) == own && OnKey(records, k) == OnKey(before, k);
      }
    }
  }

  lemma OneWriterKeepsOrder(sys: System, order: seq<Record>, may: (Conn, Key) -> bool)
    requires Consistent(sys) && AreInFlight(sys, order) && OneWriter(may)
    requires forall record: Record :: record in sys.executed ==> RecordMay(record, may)
    ensures SameOnKeys(sys.executed, sys.log + order)
  {
    forall k: Key
      ensures OnKey(sys.executed, k) == OnKey(sys.log + order, k)
    {
      var conn := if exists record: Record :: record in sys.executed && Writes(record, k)
                  then (var record: Record :| record in sys.executed && Writes(record, k); record.conn) else 0;
      forall record: Record
        ensures record in sys.executed && Writes(record, k) ==> record.conn == conn
        ensures record in sys.executed <==> record in sys.log + order
      {
        SameMembers(sys, order, record);
        if record in sys.executed && Writes(record, k) {
          KeysFit(record, k);
        }
      }
      OnKeyOf(sys.executed, k, conn);
      OnKeyOf(sys.log + order, k, conn);
      SamePerConnection(sys, order, conn);
    }
  }

  /** Concurrent recovery: with one writer for each key, no limit and no deadlines, the live
      entries are those of the log replayed into an empty store and followed by the commands
      that are executed and not in the log yet, in whatever order. No command fails. */
  lemma ReplayEqualsLive(cfg: StoreConfig, actions: seq<Action>, may: (Conn, Key) -> bool, order: seq<Record>,
                         replay: seq<Turn>)
    requires cfg.maxMemory.None? && IsRun(cfg, actions) && AllRespect(actions, may) && OneWriter(may)
    requires AreInFlight(State(cfg, actions), order)
    requires FramesOf(replay) == Lines(State(cfg, actions).log + order)
    ensures SessionOf(cfg, EMPTY, replay).store.db == State(cfg, actions).store.db
    ensures SessionOf(cfg, EMPTY, replay).successes == |State(cfg, actions).log + order|
  {
    AlwaysConsistent(cfg, actions);
    ExecutedMay(cfg, actions, may);
    OneWriterKeepsOrder(State(cfg, actions), order, may);
    assert forall i :: 0 <= i < |actions| ==> Respects(actions[i], may);
    KeyOrderReplaysToLive(cfg, actions, order, replay);
  }

  /** No command is between its execution and its append. */
  ghost predicate Quiet(sys: System) {
    forall conn: Conn :: !PhaseOf(sys, conn).Executed?
  }

  /** Then replaying the log file alone gives the live entries. */
  lemma QuietLogEqualsLive(cfg: StoreConfig, actions: seq<Action>, may: (Conn, Key) -> bool, replay: seq<Turn>)
    requires cfg.maxMemory.None? && IsRun(cfg, actions) && AllRespect(actions, may) && OneWriter(may)
    requires Quiet(State(cfg, actions)) && FramesOf(replay) == ReadAll(State(cfg, actions).bytes).frames
    ensures SessionOf(cfg, EMPTY, replay).store.db == State(cfg, actions).store.db
  {
    AnsweredIsLogged(cfg, actions);
    var log := State(cfg, actions).log;
    assert log + [] == log;
    ReplayEqualsLive(cfg, actions, may, [], replay);
  }

  // ---- a log cut short ----

  lemma {:induction false} OnKeyConcat(a: seq<Record>, b: seq<Record>, k: Key)
    ensures OnKey(a + b, k) == OnKey(a, k) + OnKey(b, k)
    decreases |b|
  {
    if b == [] {
      assert a + b == a;
    } else {
      var last := |b| - 1;
      OnKeyConcat(a, b[..last], k);
      assert (a + b)[..|a| + last] == a + b[..last];
    }
  }

  lemma {:induction false} SuccessOfFirst(cfg: StoreConfig, a: seq<Record>, b: seq<Record>)
    requires ArePlain(a + b) && AllSucceed(cfg, a + b)
    ensures ArePlain(a) && AllSucceed(cfg, a)
    decreases |b|
  {
    if b == [] {
      assert a + b == a;
    } else {
      assert (a + b)[..|a + b| - 1] == a + b[..|b| - 1];
      SuccessOfFirst(cfg, a, b[..|b| - 1]);
    }
  }

  /** The commands in flight on the connections `conns`, one after the other. */
  lemma Gather(sys: System, conns: set<Conn>) returns (order: seq<Record>)
    requires Consistent(sys)
    ensures forall c: Conn :: Of(order, c) == if c in conns then InFlight(PhaseOf(sys, c)) else []
    decreases |conns|
  {
    if conns == {} {
      order := [];
    } else {
      var conn: Conn :| conn in conns;
      var others := Gather(sys, conns - {conn});
      var own := InFlight(PhaseOf(sys, conn));
      order := others + own;
      forall c: Conn
        ensures Of(order, c) == if c in conns then InFlight(PhaseOf(sys, c)) else []
      {
        assert InOrder(sys, conn);
        OfConcat(others, own, c);
        OfOne(own, conn, c);
      }
    }
  }

  lemma OfOne(own: seq<Record>, conn: Conn, c: Conn)
    requires |own| <= 1 && (own != [] ==> own[0].conn == conn)
    ensures Of(own, c) == if c == conn then own else []
  {
    if own != [] {
      assert own[..0] == [];
    }
  }

  /** There always is an order of the commands in flight. */
  lemma SomeOrder(sys: System) returns (order: seq<Record>)
    requires Consistent(sys)
    ensures AreInFlight(sys, order)
  {
    order := Gather(sys, sys.phases.Keys);
  }

  /** Crash recovery under interleaving: with one writer for each key, no limit and no
      deadlines, replaying any byte prefix of the log executes exactly the commands that are
      whole in it, all with success, and on every key these are the first that were executed
      there. */
  lemma CutLogRecovers(cfg: StoreConfig, actions: seq<Action>, may: (Conn, Key) -> bool, n: nat, replay: seq<Turn>)
    requires cfg.maxMemory.None? && IsRun(cfg, actions) && AllRespect(actions, may) && OneWriter(may)
    requires n <= |State(cfg, actions).bytes|
    requires FramesOf(replay) == ReadAll(State(cfg, actions).bytes[..n]).frames
    ensures var sys := State(cfg, actions);
            var whole := sys.log[..Complete(Lines(sys.log), n)];
            && FramesOf(replay) == Lines(whole) && ArePlain(whole)
            && SessionOf(cfg, EMPTY, replay).store.db == Rebuilt(cfg, whole)
            && SessionOf(cfg, EMPTY, replay).successes == |whole|
            && forall k: Key :: OnKey(whole, k) <= OnKey(sys.executed, k)
  {
    var sys := State(cfg, actions);
    AlwaysConsistent(cfg, actions);
    CutKeepsWholeCommands(cfg, actions, n);
    LogSucceeds(cfg, actions, may);
    FirstRecover(cfg, sys.log, sys.executed, Complete(Lines(sys.log), n), replay);
  }

  lemma FirstRecover(cfg: StoreConfig, log: seq<Record>, executed: seq<Record>, n: nat, replay: seq<Turn>)
    requires cfg.maxMemory.None? && ArePlain(log) && AllSucceed(cfg, log) && n <= |log|
    requires forall i :: 0 <= i < |log| ==> IsSound(log[i])
    requires forall k: Key :: OnKey(log, k) <= OnKey(executed, k)
    requires FramesOf(replay) == Lines(log[..n])
    ensures ArePlain(log[..n]) && SessionOf(cfg, EMPTY, replay).store.db == Rebuilt(cfg, log[..n])
    ensures SessionOf(cfg, EMPTY, replay).successes == n
    ensures forall k: Key :: OnKey(log[..n], k) <= OnKey(executed, k)
  {
    var whole, later := log[..n], log[n..];
    assert whole + later == log;
    SuccessOfFirst(cfg, whole, later);
    ReplayRebuilds(cfg, whole, replay);
    forall k: Key
      ensures OnKey(whole, k) <= OnKey(executed, k)
    {
      assert OnKey(log, k) <= OnKey(executed, k);
      OnKeyConcat(whole, later, k);
    }
  }

  /** The log by itself succeeds, and has on every key the first commands executed there. */
  lemma LogSucceeds(cfg: StoreConfig, actions: seq<Action>, may: (Conn, Key) -> bool)
    requires cfg.maxMemory.None? && IsRun(cfg, actions) && AllRespect(actions, may) && OneWriter(may)
    ensures var sys := State(cfg, actions);
            && ArePlain(sys.log) && AllSucceed(cfg, sys.log)
            && forall k: Key :: OnKey(sys.log, k) <= OnKey(sys.executed, k)
  {
    var sys := State(cfg, actions);
    AlwaysConsistent(cfg, actions);
    assert forall i :: 0 <= i < |actions| ==> Respects(actions[i], may);
    AlwaysFaithful(cfg, actions);
    ExecutedMay(cfg, actions, may);
    var order := SomeOrder(sys);
    OneWriterKeepsOrder(sys, order, may);
    LogThenInFlightPlain(sys, order);
    SuccessInAnyOrder(cfg, sys.executed, sys.log + order);
    SuccessOfFirst(cfg, sys.log, order);
    forall k: Key
      ensures OnKey(sys.log, k) <= OnKey(sys.executed, k)
    {
      assert OnKey(sys.executed, k) == OnKey(sys.log + order, k);
      OnKeyConcat(sys.log, order, k);
    }
  }

  // ---- two writers ----

  function SetRecord(conn: Conn, key: Key, value: Bytes): Record {
    Record(conn, Command.Set(key, value), 0)
  }

  lemma ExecutesSet(cfg: StoreConfig, actions: seq<Action>, conn: Conn, key: Key, value: Bytes)
    requires cfg.maxMemory.None? && IsRun(cfg, actions) && PhaseOf(State(cfg, actions), conn).Idle?
    requires IsSound(SetRecord(conn, key, value)) && Sized(Line(SetRecord(conn, key, value)))
    ensures var exec := Exec(conn, Line(SetRecord(conn, key, value)), 0, 0, {});
            && IsRun(cfg, actions + [exec]) && FromFrame(exec.frame) == Ok(Command.Set(key, value))
            && var (sys, sys') := (State(cfg, actions), State(cfg, actions + [exec]));
               && key in sys'.store.db && sys'.store.db[key].value == Text(value)
               && sys'.log == sys.log && sys'.bytes == sys.bytes
               && exists answer ::
                    sys'.phases == sys.phases[conn := Phase.Executed(SetRecord(conn, key, value), answer)]
  {
    var frame := Line(SetRecord(conn, key, value));
    LoggedReadsBack(Command.Set(key, value), 0);
    var turn := Turn(frame, 0, {});
    SetSucceeds(cfg, State(cfg, actions).store, frame, key, value);
    RunOneMore(cfg, actions, Exec(conn, frame, 0, 0, {}));
    var sys, sys' := State(cfg, actions), State(cfg, actions + [Exec(conn, frame, 0, 0, {})]);
    var answer := ResultOf(cfg, sys.store, turn).1.value;
    assert sys'.phases == sys.phases[conn := Phase.Executed(SetRecord(conn, key, value), answer)];
  }

  lemma SetSucceeds(cfg: StoreConfig, s: Store, frame: Frame, key: Key, value: Bytes)
    requires cfg.maxMemory.None? && FromFrame(frame) == Ok(Command.Set(key, value))
    ensures var (after, answer) := ResultOf(cfg, s, Turn(frame, 0, {}));
            answer.Ok? && after.db == Purge(s.db, {key}, 0)[key := Entry(Text(value), None)]
    ensures LegalTurn(cfg, s, Turn(frame, 0, {}))
  {
  }

  lemma EffectOfSet(cfg: StoreConfig, db: Db, command: Command)
    requires cfg.maxMemory.None? && command.Set?
    ensures var effect := Effect(cfg, db, command);
            && !effect.reply.Failed?
            && effect.store.db == db[command.key := Entry(Text(command.value), None)]
  {
  }

  lemma RebuiltPair(cfg: StoreConfig, first: Record, second: Record)
    requires cfg.maxMemory.None? && first.command.Set? && second.command.Set?
    ensures var pair, set2 := [first, second], second.command;
            && ArePlain(pair) && AllSucceed(cfg, pair)
            && set2.key in Rebuilt(cfg, pair) && Rebuilt(cfg, pair)[set2.key].value == Text(set2.value)
  {
    var one, pair := [first], [first, second];
    assert ArePlain(one) && ArePlain(pair) && one[..0] == [] && pair[..1] == one;
    EffectOfSet(cfg, map[], first.command);
    assert AllSucceed(cfg, one);
    EffectOfSet(cfg, Rebuilt(cfg, one), second.command);
  }

  /** Two connections that have both set the key, and appended nothing yet. */
  lemma BothExecute(cfg: StoreConfig, ra: Record, rb: Record, key: Key, a: Bytes, b: Bytes)
    returns (actions: seq<Action>)
    requires cfg.maxMemory.None? && |key| <= I64_MAX && |a| <= I64_MAX && |b| <= I64_MAX && ra.conn != rb.conn
    requires ra == SetRecord(ra.conn, key, a) && rb == SetRecord(rb.conn, key, b)
    ensures IsRun(cfg, actions)
    ensures actions == [Exec(ra.conn, Line(ra), 0, 0, {})] + [Exec(rb.conn, Line(rb), 0, 0, {})]
    ensures FromFrame(Line(ra)) == Ok(ra.command) && FromFrame(Line(rb)) == Ok(rb.command)
    ensures var sys := State(cfg, actions);
            && key in sys.store.db && sys.store.db[key].value == Text(b) && sys.log == []
            && sys.phases.Keys == {ra.conn, rb.conn}
            && PhaseOf(sys, ra.conn).Executed? && PhaseOf(sys, ra.conn).record == ra
            && PhaseOf(sys, rb.conn).Executed? && PhaseOf(sys, rb.conn).record == rb
  {
    LoggedFrameIsSound(ra.command, 0);
    LoggedFrameIsSound(rb.command, 0);
    ExecutesSet(cfg, [], ra.conn, key, a);
    actions := [Exec(ra.conn, Line(ra), 0, 0, {})];
    assert [] + actions == actions;
    ExecutesSet(cfg, actions, rb.conn, key, b);
    actions := actions + [Exec(rb.conn, Line(rb), 0, 0, {})];
  }

  lemma AppendsCross(cfg: StoreConfig, before: seq<Action>, ra: Record, rb: Record) returns (actions: seq<Action>)
    requires IsRun(cfg, before) && ra.conn != rb.conn
    requires State(cfg, before).phases.Keys == {ra.conn, rb.conn} && State(cfg, before).log == []
    requires PhaseOf(State(cfg, before), ra.conn).Executed? && PhaseOf(State(cfg, before), ra.conn).record == ra
    requires PhaseOf(State(cfg, before), rb.conn).Executed? && PhaseOf(State(cfg, before), rb.conn).record == rb
    ensures actions == before + [Append(rb.conn)] + [Append(ra.conn)]
    ensures IsRun(cfg, actions) && State(cfg, actions).store == State(cfg, before).store
    ensures State(cfg, actions).log == [rb, ra] && Quiet(State(cfg, actions))
  {
    RunOneMore(cfg, before, Append(rb.conn));
    RunOneMore(cfg, before + [Append(rb.conn)], Append(ra.conn));
    actions := before + [Append(rb.conn)] + [Append(ra.conn)];
  }

  lemma ReplaysToFirst(cfg: StoreConfig, ra: Record, rb: Record, key: Key, a: Bytes, b: Bytes, replay: seq<Turn>)
    requires cfg.maxMemory.None? && |key| <= I64_MAX && |a| <= I64_MAX && |b| <= I64_MAX
    requires ra == SetRecord(ra.conn, key, a) && rb == SetRecord(rb.conn, key, b)
    requires FramesOf(replay) == Lines([rb, ra])
    ensures var db := SessionOf(cfg, EMPTY, replay).store.db; key in db && db[key].value == Text(a)
  {
    RebuiltPair(cfg, rb, ra);
    ReplayRebuilds(cfg, [rb, ra], replay);
  }

  lemma SetRespects(may: (Conn, Key) -> bool, record: Record)
    requires record.command.Set? && may(record.conn, record.command.key)
    requires FromFrame(Line(record)) == Ok(record.command)
    ensures Respects(Exec(record.conn, Line(record), 0, 0, {}), may)
  {
    assert Written(record.command) == {record.command.key};
  }

  lemma FourRespect(may: (Conn, Key) -> bool, a: Action, b: Action, c: Action, d: Action)
    requires Respects(a, may) && Respects(b, may) && Respects(c, may) && Respects(d, may)
    ensures AllRespect([a] + [b] + [c] + [d], may)
  {
  }

  /** When two connections may write a key, they can both set it and append in the opposite
      order: once quiet, every replay of the log finds the value that was overwritten. */
  lemma TwoWritersDiverge(cfg: StoreConfig, may: (Conn, Key) -> bool, key: Key, c: Conn, d: Conn, a: Bytes, b: Bytes)
    returns (actions: seq<Action>)
    requires cfg.maxMemory.None? && a != b && |key| <= I64_MAX && |a| <= I64_MAX && |b| <= I64_MAX
    requires c != d && may(c, key) && may(d, key)
    ensures IsRun(cfg, actions) && AllRespect(actions, may) && Quiet(State(cfg, actions))
    ensures forall replay: seq<Turn> | FramesOf(replay) == ReadAll(State(cfg, actions).bytes).frames ::
              SessionOf(cfg, EMPTY, replay).store.db != State(cfg, actions).store.db
  {
    var ra, rb := SetRecord(c, key, a), SetRecord(d, key, b);
    actions := BothExecute(cfg, ra, rb, key, a, b);
    actions := AppendsCross(cfg, actions, ra, rb);
    SetRespects(may, ra);
    SetRespects(may, rb);
    FourRespect(may, Exec(c, Line(ra), 0, 0, {}), Exec(d, Line(rb), 0, 0, {}), Append(d), Append(c));
    AnsweredIsLogged(cfg, actions);
    forall replay: seq<Turn> | FramesOf(replay) == ReadAll(State(cfg, actions).bytes).frames
      ensures SessionOf(cfg, EMPTY, replay).store.db != State(cfg, actions).store.db
    {
      ReplaysToFirst(cfg, ra, rb, key, a, b, replay);
    }
  }

  function TurnsOf(frames: seq<Frame>): seq<Turn> {
    if frames == [] then [] else TurnsOf(frames[..|frames| - 1]) + [Turn(frames[|frames| - 1], 0, {})]
  }

  lemma {:induction false} TurnsHaveFrames(frames: seq<Frame>)
    ensures FramesOf(TurnsOf(frames)) == frames
  {
    if frames != [] {
      var before := TurnsOf(frames[..|frames| - 1]);
      TurnsHaveFrames(frames[..|frames| - 1]);
      assert TurnsOf(frames)[..|before|] == before;
    }
  }

  /** Every run that keeps to `may` replays, once quiet, to its live entries. */
  ghost predicate AlwaysReplays(cfg: StoreConfig, may: (Conn, Key) -> bool) {
    forall actions: seq<Action>, replay: seq<Turn> ::
      IsRun(cfg, actions) && AllRespect(actions, may) && Quiet(State(cfg, actions))
      && FramesOf(replay) == ReadAll(State(cfg, actions).bytes).frames ==>
        SessionOf(cfg, EMPTY, replay).store.db == State(cfg, actions).store.db
  }

  /** Without limit and deadlines, one writer for each key is exactly what it takes. */
  lemma OneWriterExactly(cfg: StoreConfig, may: (Conn, Key) -> bool)
    requires cfg.maxMemory.None?
    ensures AlwaysReplays(cfg, may) <==> OneWriter(may)
  {
    if OneWriter(may) {
      forall actions: seq<Action>, replay: seq<Turn>
        | IsRun(cfg, actions) && AllRespect(actions, may) && Quiet(State(cfg, actions))
          && FramesOf(replay) == ReadAll(State(cfg, actions).bytes).frames
        ensures SessionOf(cfg, EMPTY, replay).store.db == State(cfg, actions).store.db
      {
        QuietLogEqualsLive(cfg, actions, may, replay);
      }
    } else {
      var k: Key, c: Conn, d: Conn :| |k| <= I64_MAX && may(c, k) && may(d, k) && c != d;
      var actions := TwoWritersDiverge(cfg, may, k, c, d, [], [0]);
      var replay := TurnsOf(ReadAll(State(cfg, actions).bytes).frames);
      TurnsHaveFrames(ReadAll(State(cfg, actions).bytes).frames);
      assert SessionOf(cfg, EMPTY, replay).store.db != State(cfg, actions).store.db;
    }
  }
}
