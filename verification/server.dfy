/** Many connections at once: executing a command and appending it to the log are two
    separate atomic steps, so that the steps of different connections interleave. */
module Server {
  import opened ByteStrings
  import opened Frames
  import opened Encoder
  import opened Parser
  import opened StoreModel
  import StoreTheorems
  import opened Commands
  import opened Sessions
  import opened LogFile

  type Conn = nat

  /** A durable command that succeeded on a connection; `read` is the reading of the clock
      that its log line was made with. */
  datatype Record = Record(conn: Conn, command: Command, read: Time)

  /** Where a connection stands between reading a request and reading the next. */
  datatype Phase =
    | Idle
    | Executed(record: Record, answer: Frame)
    | Appended(record: Record, answer: Frame)
    | Answering(command: Option<Command>, answer: Frame)

  /** An answer that was written: to which command, if the request was one, and of which
      record, if it made one. */
  datatype Sent = Sent(conn: Conn, command: Option<Command>, record: Option<Record>, answer: Frame)

  /** The shared state; `executed`, `acked` and `sent` are history: the records in the order of
      their execution, those whose answer was written, and all answers written. */
  datatype System = System(
    store: Store, bytes: Bytes, executed: seq<Record>, log: seq<Record>, acked: seq<Record>, sent: seq<Sent>,
    phases: map<Conn, Phase>)

  const START: System := System(EMPTY, [], [], [], [], [], map[])

  datatype Action =
    | Exec(conn: Conn, frame: Frame, read: Time, now: Time, victims: set<Key>)
    | Append(conn: Conn)
    | Reply(conn: Conn)
    | Sweep(now: Time)

  function PhaseOf(sys: System, conn: Conn): Phase {
    if conn in sys.phases then sys.phases[conn] else Idle
  }

  function AnswerOf(conn: Conn, phase: Phase): Sent
    requires phase.Appended? || phase.Answering?
  {
    match phase
    case Appended(record, answer) => Sent(conn, Some(record.command), Some(record), answer)
    case Answering(command, answer) => Sent(conn, command, None, answer)
  }

  /** The line of the log that a record becomes. */
  function Line(record: Record): Frame {
    LogLine(record.command, record.read)
  }

  function Lines(records: seq<Record>): (lines: seq<Frame>)
    ensures |lines| == |records| && forall i :: 0 <= i < |records| ==> lines[i] == Line(records[i])
  {
    seq(|records|, i requires 0 <= i < |records| => Line(records[i]))
  }

  ghost predicate Enabled(cfg: StoreConfig, sys: System, action: Action) {
    match action
    case Exec(conn, frame, read, now, victims) =>
      PhaseOf(sys, conn).Idle? && Sized(frame) && read <= now && LegalTurn(cfg, sys.store, Turn(frame, now, victims))
    case Append(conn) => PhaseOf(sys, conn).Executed?
    case Reply(conn) => PhaseOf(sys, conn).Appended? || PhaseOf(sys, conn).Answering?
    case Sweep(_) => true
  }

  ghost function AfterExec(cfg: StoreConfig, sys: System, conn: Conn, frame: Frame, read: Time, turn: Turn): System {
    var (store, answer) := ResultOf(cfg, sys.store, turn);
    if FromFrame(frame).Ok? && answer.Ok? && Durable(FromFrame(frame).value) then
      var record := Record(conn, FromFrame(frame).value, read);
      sys.(store := store, executed := sys.executed + [record],
           phases := sys.phases[conn := Executed(record, answer.value)])
    else
      var command := if FromFrame(frame).Ok? then Some(FromFrame(frame).value) else None;
      sys.(store := store, phases := sys.phases[conn := Answering(command, Response(answer))])
  }

  ghost function Next(cfg: StoreConfig, sys: System, action: Action): System
    requires Enabled(cfg, sys, action)
  {
    match action
    case Exec(conn, frame, read, now, victims) => AfterExec(cfg, sys, conn, frame, read, Turn(frame, now, victims))
    case Append(conn) =>
      var phase := sys.phases[conn];
      sys.(bytes := sys.bytes + Encode(Line(phase.record)), log := sys.log + [phase.record],
           phases := sys.phases[conn := Appended(phase.record, phase.answer)])
    case Reply(conn) =>
      var phase := sys.phases[conn];
      sys.(acked := if phase.Appended? then sys.acked + [phase.record] else sys.acked,
           sent := sys.sent + [AnswerOf(conn, phase)], phases := sys.phases[conn := Idle])
    case Sweep(now) => sys.(store := Apply(cfg, sys.store, Op.Sweep, now, {}).store)
  }

  /** A possible run from the start: every action is enabled where it is taken. */
  ghost predicate IsRun(cfg: StoreConfig, actions: seq<Action>)
    decreases |actions|, 0
  {
    var last := |actions| - 1;
    actions == [] || (IsRun(cfg, actions[..last]) && Enabled(cfg, State(cfg, actions[..last]), actions[last]))
  }

  ghost function State(cfg: StoreConfig, actions: seq<Action>): System
    requires IsRun(cfg, actions)
    decreases |actions|, 1
  {
    if actions == [] then START
    else Next(cfg, State(cfg, actions[..|actions| - 1]), actions[|actions| - 1])
  }

  // ---- what every step keeps ----

  /** The records of one connection, in order. */
  function Of(records: seq<Record>, conn: Conn): seq<Record> {
    if records == [] then []
    else
      var last := |records| - 1;
      Of(records[..last], conn) + if records[last].conn == conn then [records[last]] else []
  }

  lemma OfOneMore(records: seq<Record>, record: Record, conn: Conn)
    ensures Of(records + [record], conn) == Of(records, conn) + if record.conn == conn then [record] else []
  {
    assert (records + [record])[..|records|] == records;
  }

  /** Executed and not in the log yet. */
  function InFlight(phase: Phase): seq<Record> {
    if phase.Executed? then [phase.record] else []
  }

  /** In the log, and not answered yet. */
  function Unanswered(phase: Phase): seq<Record> {
    if phase.Appended? then [phase.record] else []
  }

  ghost predicate IsSound(record: Record) {
    Durable(record.command) && Accepted(record.command)
  }

  /** The connection's records: answered, then in the log, then executed. */
  ghost predicate InOrder(sys: System, conn: Conn) {
    var phase := PhaseOf(sys, conn);
    && Of(sys.executed, conn) == Of(sys.log, conn) + InFlight(phase)
    && Of(sys.log, conn) == Of(sys.acked, conn) + Unanswered(phase)
    && (phase.Executed? || phase.Appended? ==> phase.record.conn == conn && IsSound(phase.record))
  }

  /** The bytes of the log encode its lines, all of them sound. */
  ghost predicate SoundLog(sys: System) {
    sys.bytes == EncodeAll(Lines(sys.log)) && forall i :: 0 <= i < |sys.log| ==> IsSound(sys.log[i])
  }

  ghost predicate Consistent(sys: System) {
    SoundLog(sys) && forall conn: Conn :: InOrder(sys, conn)
  }

  lemma LinesOneMore(records: seq<Record>, record: Record)
    ensures EncodeAll(Lines(records + [record])) == EncodeAll(Lines(records)) + Encode(Line(record))
  {
    assert Lines(records + [record]) == Lines(records) + [Line(record)];
    EncodeAllConcat(Lines(records), [Line(record)]);
    EncodeOne(Line(record));
  }

  lemma RecordKeepsOrder(sys: System, sys': System, record: Record, answer: Frame, conn: Conn)
    requires InOrder(sys, record.conn) && InOrder(sys, conn) && PhaseOf(sys, record.conn).Idle? && IsSound(record)
    requires sys'.executed == sys.executed + [record] && sys'.log == sys.log && sys'.acked == sys.acked
    requires sys'.phases == sys.phases[record.conn := Executed(record, answer)]
    ensures InOrder(sys', conn)
  {
    OfOneMore(sys.executed, record, conn);
  }

  lemma ExecKeepsOrder(cfg: StoreConfig, sys: System, action: Action, conn: Conn)
    requires action.Exec? && Enabled(cfg, sys, action) && InOrder(sys, action.conn) && InOrder(sys, conn)
    ensures InOrder(Next(cfg, sys, action), conn)
  {
    var sys' := Next(cfg, sys, action);
    if sys'.executed != sys.executed {
      ParserAccepts(action.frame);
      var phase := PhaseOf(sys', action.conn);
      RecordKeepsOrder(sys, sys', phase.record, phase.answer, conn);
    }
  }

  lemma AppendedKeepsOrder(sys: System, sys': System, record: Record, answer: Frame, conn: Conn)
    requires InOrder(sys, record.conn) && InOrder(sys, conn) && PhaseOf(sys, record.conn) == Executed(record, answer)
    requires sys'.executed == sys.executed && sys'.log == sys.log + [record] && sys'.acked == sys.acked
    requires sys'.phases == sys.phases[record.conn := Appended(record, answer)]
    ensures InOrder(sys', conn)
  {
    OfOneMore(sys.log, record, conn);
  }

  lemma AppendKeepsOrder(cfg: StoreConfig, sys: System, action: Action, conn: Conn)
    requires action.Append? && Enabled(cfg, sys, action) && InOrder(sys, action.conn) && InOrder(sys, conn)
    ensures InOrder(Next(cfg, sys, action), conn)
  {
    var phase := PhaseOf(sys, action.conn);
    AppendedKeepsOrder(sys, Next(cfg, sys, action), phase.record, phase.answer, conn);
  }

  lemma AnsweredKeepsOrder(sys: System, sys': System, c: Conn, record: Record, answer: Frame, conn: Conn)
    requires InOrder(sys, c) && InOrder(sys, conn) && PhaseOf(sys, c) == Appended(record, answer)
    requires sys'.executed == sys.executed && sys'.log == sys.log && sys'.acked == sys.acked + [record]
    requires sys'.phases == sys.phases[c := Idle]
    ensures InOrder(sys', conn)
  {
    OfOneMore(sys.acked, record, conn);
  }

  lemma ReplyKeepsOrder(cfg: StoreConfig, sys: System, action: Action, conn: Conn)
    requires action.Reply? && Enabled(cfg, sys, action) && InOrder(sys, action.conn) && InOrder(sys, conn)
    ensures InOrder(Next(cfg, sys, action), conn)
  {
    var phase := PhaseOf(sys, action.conn);
    if phase.Appended? {
      AnsweredKeepsOrder(sys, Next(cfg, sys, action), action.conn, phase.record, phase.answer, conn);
    }
  }

  lemma StepKeepsOrder(cfg: StoreConfig, sys: System, action: Action, conn: Conn)
    requires Enabled(cfg, sys, action) && InOrder(sys, conn) && (!action.Sweep? ==> InOrder(sys, action.conn))
    ensures InOrder(Next(cfg, sys, action), conn)
  {
    match action {
      case Exec(_, _, _, _, _) => ExecKeepsOrder(cfg, sys, action, conn);
      case Append(_) => AppendKeepsOrder(cfg, sys, action, conn);
      case Reply(_) => ReplyKeepsOrder(cfg, sys, action, conn);
      case Sweep(_) =>
    }
  }

  lemma StepKeepsLog(cfg: StoreConfig, sys: System, action: Action)
    requires Enabled(cfg, sys, action) && SoundLog(sys) && (!action.Sweep? ==> InOrder(sys, action.conn))
    ensures SoundLog(Next(cfg, sys, action))
  {
    if action.Append? {
      LinesOneMore(sys.log, PhaseOf(sys, action.conn).record);
    }
  }

  lemma StepKeepsConsistent(cfg: StoreConfig, sys: System, action: Action)
    requires Consistent(sys) && Enabled(cfg, sys, action)
    ensures Consistent(Next(cfg, sys, action))
  {
    var sys' := Next(cfg, sys, action);
    assert !action.Sweep? ==> InOrder(sys, action.conn);
    StepKeepsLog(cfg, sys, action);
    forall conn: Conn
      ensures InOrder(sys', conn)
    {
      assert InOrder(sys, conn);
      StepKeepsOrder(cfg, sys, action, conn);
    }
  }

  lemma {:induction false} AlwaysConsistent(cfg: StoreConfig, actions: seq<Action>)
    requires IsRun(cfg, actions)
    ensures Consistent(State(cfg, actions))
    decreases |actions|
  {
    if actions != [] {
      var before := actions[..|actions| - 1];
      AlwaysConsistent(cfg, before);
      StepKeepsConsistent(cfg, State(cfg, before), actions[|actions| - 1]);
    }
  }

  /** The limit holds and no list is empty. */
  ghost predicate GoodStore(cfg: StoreConfig, s: Store) {
    Fits(cfg, s.db) && StoreTheorems.NoEmptyLists(s.db)
  }

  lemma EventKeepsGood(cfg: StoreConfig, s: Store, e: StoreTheorems.Event)
    requires GoodStore(cfg, s) && StoreTheorems.Legal(cfg, s, e) && StoreTheorems.Pushes(e.op)
    ensures GoodStore(cfg, Apply(cfg, s, e.op, e.now, e.victims).store)
  {
    StoreTheorems.StepKeepsLimit(cfg, s, e);
    StoreTheorems.StepKeepsListsFull(cfg, s, e);
  }

  lemma TurnKeepsGood(cfg: StoreConfig, s: Store, turn: Turn)
    requires GoodStore(cfg, s) && LegalTurn(cfg, s, turn) && Sized(turn.frame)
    ensures GoodStore(cfg, ResultOf(cfg, s, turn).0)
  {
    if FromFrame(turn.frame).Ok? && OpOf(FromFrame(turn.frame).value).Some? {
      ParserAccepts(turn.frame);
      EventKeepsGood(cfg, s, StoreTheorems.Event(OpOf(FromFrame(turn.frame).value).value, turn.now, turn.victims));
    }
  }

  lemma SweepKeepsGood(cfg: StoreConfig, s: Store, now: Time)
    requires GoodStore(cfg, s)
    ensures GoodStore(cfg, Apply(cfg, s, Op.Sweep, now, {}).store)
  {
    EventKeepsGood(cfg, s, StoreTheorems.Event(Op.Sweep, now, {}));
  }

  /** Whatever frames the connections send and however their steps and the sweeps interleave,
      the memory limit holds and no empty list is stored. */
  lemma {:induction false} AlwaysGood(cfg: StoreConfig, actions: seq<Action>)
    requires IsRun(cfg, actions)
    ensures GoodStore(cfg, State(cfg, actions).store)
    decreases |actions|
  {
    if actions != [] {
      var before, action := actions[..|actions| - 1], actions[|actions| - 1];
      AlwaysGood(cfg, before);
      match action {
        case Exec(_, frame, _, now, victims) =>
          TurnKeepsGood(cfg, State(cfg, before).store, Turn(frame, now, victims));
        case Sweep(now) => SweepKeepsGood(cfg, State(cfg, before).store, now);
        case _ =>
      }
    }
  }

  // ---- crash safety ----

  lemma {:induction false} OfKeepsMembers(records: seq<Record>, record: Record)
    ensures record in Of(records, record.conn) <==> record in records
  {
    if records != [] {
      OfKeepsMembers(records[..|records| - 1], record);
      assert records == records[..|records| - 1] + [records[|records| - 1]];
    }
  }

  lemma SoundIsLogged(record: Record)
    requires IsSound(record)
    ensures IsLogged(Line(record))
  {
    LoggedFrameIsSound(record.command, record.read);
    assert IsRequest(AofArgs(record.command, record.read));
  }

  lemma SoundAreLogged(records: seq<Record>)
    requires forall i :: 0 <= i < |records| ==> IsSound(records[i])
    ensures AreLogged(Lines(records))
  {
    forall i | 0 <= i < |records|
      ensures IsLogged(Lines(records)[i])
    {
      SoundIsLogged(records[i]);
    }
  }

  /** In every reachable state each durable command that was answered with success is in the
      log, and the log file decodes to exactly the commands in the log. */
  lemma AnsweredIsLogged(cfg: StoreConfig, actions: seq<Action>)
    requires IsRun(cfg, actions)
    ensures var sys := State(cfg, actions);
            && (forall record: Record :: record in sys.acked ==> record in sys.log)
            && (forall record: Record :: record in sys.log ==> record in sys.executed)
            && ReadAll(sys.bytes) == Stream(Lines(sys.log), None)
  {
    AlwaysConsistent(cfg, actions);
    var sys := State(cfg, actions);
    forall record: Record
      ensures record in sys.acked ==> record in sys.log
      ensures record in sys.log ==> record in sys.executed
    {
      assert InOrder(sys, record.conn);
      OfKeepsMembers(sys.acked, record);
      OfKeepsMembers(sys.log, record);
      OfKeepsMembers(sys.executed, record);
    }
    SoundAreLogged(sys.log);
    WholeLog(Lines(sys.log));
  }

  /** An answer to a record is no error; one without a record is an error or answers a command
      that changes nothing. */
  predicate IsHonest(command: Option<Command>, record: Option<Record>, answer: Frame) {
    match record
    case Some(r) => !answer.Error? && command == Some(r.command)
    case None => answer.Error? || (command.Some? && !Durable(command.value))
  }

  predicate HonestPhase(phase: Phase) {
    match phase
    case Idle => true
    case Executed(record, answer) => !answer.Error?
    case Appended(record, answer) => !answer.Error?
    case Answering(command, answer) => IsHonest(command, None, answer)
  }

  predicate HonestAnswer(acked: seq<Record>, sent: Sent) {
    IsHonest(sent.command, sent.record, sent.answer) && (sent.record.Some? ==> sent.record.value in acked)
  }

  /** So it is with every answer under way, and with every answer written, whose record is
      acknowledged. */
  ghost predicate Honest(sys: System) {
    && (forall conn: Conn :: HonestPhase(PhaseOf(sys, conn)))
    && (forall i :: 0 <= i < |sys.sent| ==> HonestAnswer(sys.acked, sys.sent[i]))
  }

  lemma ExecIsHonest(cfg: StoreConfig, sys: System, action: Action)
    requires action.Exec? && Enabled(cfg, sys, action)
    ensures HonestPhase(PhaseOf(Next(cfg, sys, action), action.conn))
  {
    ResponseTells(cfg, sys.store, Turn(action.frame, action.now, action.victims));
  }

  lemma ReplyIsHonest(sent: seq<Sent>, acked: seq<Record>, conn: Conn, phase: Phase)
    requires (phase.Appended? || phase.Answering?) && HonestPhase(phase)
    requires forall i :: 0 <= i < |sent| ==> HonestAnswer(acked, sent[i])
    ensures var sent' := sent + [AnswerOf(conn, phase)];
            var acked' := if phase.Appended? then acked + [phase.record] else acked;
            forall i :: 0 <= i < |sent'| ==> HonestAnswer(acked', sent'[i])
  {
    var sent' := sent + [AnswerOf(conn, phase)];
    var acked' := if phase.Appended? then acked + [phase.record] else acked;
    forall i | 0 <= i < |sent'|
      ensures HonestAnswer(acked', sent'[i])
    {
      if i < |sent| {
        assert HonestAnswer(acked, sent[i]);
      }
    }
  }

  lemma StepKeepsHonest(cfg: StoreConfig, sys: System, action: Action)
    requires Honest(sys) && Enabled(cfg, sys, action)
    ensures Honest(Next(cfg, sys, action))
  {
    var sys' := Next(cfg, sys, action);
    if action.Exec? {
      ExecIsHonest(cfg, sys, action);
    } else if action.Reply? {
      assert HonestPhase(PhaseOf(sys, action.conn));
      ReplyIsHonest(sys.sent, sys.acked, action.conn, PhaseOf(sys, action.conn));
    } else if action.Append? {
      assert HonestPhase(PhaseOf(sys, action.conn));
    }
    forall conn: Conn
      ensures HonestPhase(PhaseOf(sys', conn))
    {
      assert HonestPhase(PhaseOf(sys, conn));
    }
  }

  lemma {:induction false} AlwaysHonest(cfg: StoreConfig, actions: seq<Action>)
    requires IsRun(cfg, actions)
    ensures Honest(State(cfg, actions))
    decreases |actions|
  {
    if actions != [] {
      var before := actions[..|actions| - 1];
      AlwaysHonest(cfg, before);
      StepKeepsHonest(cfg, State(cfg, before), actions[|actions| - 1]);
    }
  }

  /** What clients may conclude from what they read: in every reachable state an answer to a
      durable command that is no error frame belongs to a record of that command which is in
      the log, and an error frame belongs to no record. */
  lemma AnswersCanBeTrusted(cfg: StoreConfig, actions: seq<Action>, i: nat)
    requires IsRun(cfg, actions) && i < |State(cfg, actions).sent|
    ensures var sys := State(cfg, actions);
            var sent := sys.sent[i];
            && (sent.command.Some? && Durable(sent.command.value) && !sent.answer.Error? ==>
                  && sent.record.Some? && sent.record.value.command == sent.command.value
                  && sent.record.value in sys.log)
            && (sent.answer.Error? ==> sent.record.None?)
  {
    AlwaysHonest(cfg, actions);
    AnsweredIsLogged(cfg, actions);
    var sys := State(cfg, actions);
    assert HonestAnswer(sys.acked, sys.sent[i]);
  }

  /** A crash in the middle of an append leaves a file that decodes to exactly the commands
      in the log, then fails unless nothing of the torn line was written: so no answered
      command is lost, and no command is read that was not executed. */
  lemma CrashKeepsTheLog(cfg: StoreConfig, actions: seq<Action>, conn: Conn, n: nat)
    requires IsRun(cfg, actions) && PhaseOf(State(cfg, actions), conn).Executed?
    requires n < |Encode(Line(PhaseOf(State(cfg, actions), conn).record))|
    ensures var sys := State(cfg, actions);
            var file := ReadAll(sys.bytes + Encode(Line(PhaseOf(sys, conn).record))[..n]);
            && file.frames == Lines(sys.log)
            && (file.failure.None? <==> n == 0)
  {
    AlwaysConsistent(cfg, actions);
    var sys := State(cfg, actions);
    assert InOrder(sys, conn);
    SoundAreLogged(sys.log);
    var torn := Line(PhaseOf(sys, conn).record);
    SoundIsLogged(PhaseOf(sys, conn).record);
    TornFrame(torn, n);
    LogReadsBack(Lines(sys.log), Encode(torn)[..n]);
    assert Lines(sys.log) + [] == Lines(sys.log);
  }

  /** Wherever the log file of a reachable state is cut, what is left decodes to the commands
      that are whole in it, and the end is clean only between two commands. */
  lemma CutKeepsWholeCommands(cfg: StoreConfig, actions: seq<Action>, n: nat)
    requires IsRun(cfg, actions) && n <= |State(cfg, actions).bytes|
    ensures var sys := State(cfg, actions);
            var cut, whole := ReadAll(sys.bytes[..n]), sys.log[..Complete(Lines(sys.log), n)];
            && cut.frames == Lines(whole) && |EncodeAll(Lines(whole))| <= n
            && (cut.failure.None? <==> n == |EncodeAll(Lines(whole))|)
  {
    AlwaysConsistent(cfg, actions);
    var log := State(cfg, actions).log;
    SoundAreLogged(log);
    CutLog(Lines(log), n);
    assert Lines(log)[..Complete(Lines(log), n)] == Lines(log[..Complete(Lines(log), n)]);
  }

  // ---- one connection alone ----

  lemma RunOneMore(cfg: StoreConfig, actions: seq<Action>, action: Action)
    requires IsRun(cfg, actions) && Enabled(cfg, State(cfg, actions), action)
    ensures IsRun(cfg, actions + [action])
    ensures State(cfg, actions + [action]) == Next(cfg, State(cfg, actions), action)
  {
    assert (actions + [action])[..|actions|] == actions;
  }

  /** The system after one connection has served a turn from start to end. */
  ghost predicate TurnServed(cfg: StoreConfig, sys: System, sys': System, conn: Conn, turn: Turn) {
    var (store, answer) := ResultOf(cfg, sys.store, turn);
    && sys'.store == store && sys'.bytes == sys.bytes + EncodeAll(Entries(turn, answer))
    && PhaseOf(sys', conn).Idle?
  }

  lemma ExecutesTurn(cfg: StoreConfig, sys: System, conn: Conn, turn: Turn)
    requires PhaseOf(sys, conn).Idle? && Sized(turn.frame) && LegalTurn(cfg, sys.store, turn)
    ensures var exec := Exec(conn, turn.frame, turn.now, turn.now, turn.victims);
            && Enabled(cfg, sys, exec)
            && var (next, result) := (Next(cfg, sys, exec), ResultOf(cfg, sys.store, turn));
               && next.store == result.0 && next.bytes == sys.bytes
               && match PhaseOf(next, conn)
                  case Executed(record, _) => Entries(turn, result.1) == [Line(record)]
                  case Answering(_, _) => Entries(turn, result.1) == []
                  case _ => false
  {
    if FromFrame(turn.frame).Ok? {
      ParserAccepts(turn.frame);
      LoggedFrameIsSound(FromFrame(turn.frame).value, turn.now);
    }
  }

  lemma ServesTurn(cfg: StoreConfig, actions: seq<Action>, conn: Conn, turn: Turn) returns (more: seq<Action>)
    requires IsRun(cfg, actions) && PhaseOf(State(cfg, actions), conn).Idle?
    requires Sized(turn.frame) && LegalTurn(cfg, State(cfg, actions).store, turn)
    ensures IsRun(cfg, more) && TurnServed(cfg, State(cfg, actions), State(cfg, more), conn, turn)
  {
    var exec := Exec(conn, turn.frame, turn.now, turn.now, turn.victims);
    ExecutesTurn(cfg, State(cfg, actions), conn, turn);
    RunOneMore(cfg, actions, exec);
    more := actions + [exec];
    if PhaseOf(State(cfg, more), conn).Executed? {
      EncodeOne(Line(PhaseOf(State(cfg, more), conn).record));
      RunOneMore(cfg, more, Append(conn));
      more := more + [Append(conn)];
    } else {
      assert State(cfg, actions).bytes + [] == State(cfg, actions).bytes;
    }
    RunOneMore(cfg, more, Reply(conn));
    more := more + [Reply(conn)];
  }

  /** A connection served alone, turn after turn, is a run of the protocol, with the same
      store and the same log. */
  lemma {:induction false} SessionIsARun(cfg: StoreConfig, conn: Conn, turns: seq<Turn>) returns (actions: seq<Action>)
    requires SessionOf(cfg, EMPTY, turns).legal && forall i :: 0 <= i < |turns| ==> Sized(turns[i].frame)
    ensures IsRun(cfg, actions) && PhaseOf(State(cfg, actions), conn).Idle?
    ensures State(cfg, actions).store == SessionOf(cfg, EMPTY, turns).store
    ensures State(cfg, actions).bytes == EncodeAll(SessionOf(cfg, EMPTY, turns).log)
    decreases |turns|
  {
    actions := [];
    if turns != [] {
      var before, turn := turns[..|turns| - 1], turns[|turns| - 1];
      var h := SessionOf(cfg, EMPTY, before);
      actions := SessionIsARun(cfg, conn, before);
      EncodeAllConcat(h.log, Entries(turn, ResultOf(cfg, h.store, turn).1));
      actions := ServesTurn(cfg, actions, conn, turn);
    }
  }
}
