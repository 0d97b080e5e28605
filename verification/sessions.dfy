/** A connection served and a log replayed: both read frames, parse them and execute the
    commands one at a time; serving also appends to the log and answers. */
module Sessions {
  import opened ByteStrings
  import opened Frames
  import opened Encoder
  import opened Parser
  import opened StoreModel
  import opened Storage
  import opened Commands

  /** One frame taken from the input, at a reading of the clock, with the victims that
      random eviction chose if it ran. */
  datatype Turn = Turn(frame: Frame, now: Time, victims: set<Key>)

  ghost function ResultOf(cfg: StoreConfig, s: Store, turn: Turn): (r: (Store, Parsed<Frame>)) {
    match FromFrame(turn.frame)
    case Ok(command) => Executed(cfg, s, command, turn.now, turn.victims)
    case Err(error) => (s, Err(error))
  }

  ghost predicate LegalTurn(cfg: StoreConfig, s: Store, turn: Turn) {
    match FromFrame(turn.frame)
    case Ok(command) => ChosenFor(cfg, s, command, turn.now, turn.victims)
    case Err(_) => turn.victims == {}
  }

  ghost function Response(answer: Parsed<Frame>): Frame {
    match answer
    case Ok(frame) => frame
    case Err(error) => ErrorFrame(error)
  }

  /** What a turn adds to the log: only a successful change of the data. */
  ghost function Entries(turn: Turn, answer: Parsed<Frame>): seq<Frame> {
    if FromFrame(turn.frame).Ok? && answer.Ok? && ToAofFrame(FromFrame(turn.frame).value, turn.now).Some? then
      [ToAofFrame(FromFrame(turn.frame).value, turn.now).value]
    else []
  }

  /** What has come of the turns so far: the store, the answers, the frames logged, the
      number of commands that succeeded, and whether every eviction was possible. */
  datatype Session = Session(store: Store, responses: seq<Frame>, log: seq<Frame>, successes: nat, legal: bool)

  ghost function Extend(cfg: StoreConfig, h: Session, turn: Turn): Session {
    var (store, answer) := ResultOf(cfg, h.store, turn);
    Session(
      store, h.responses + [Response(answer)], h.log + Entries(turn, answer),
      h.successes + (if answer.Ok? then 1 else 0), h.legal && LegalTurn(cfg, h.store, turn))
  }

  ghost function SessionOf(cfg: StoreConfig, s: Store, turns: seq<Turn>): Session
    decreases |turns|
  {
    if turns == [] then Session(s, [], [], 0, true)
    else Extend(cfg, SessionOf(cfg, s, turns[..|turns| - 1]), turns[|turns| - 1])
  }

  ghost function FramesOf(turns: seq<Turn>): seq<Frame>
    decreases |turns|
  {
    if turns == [] then [] else FramesOf(turns[..|turns| - 1]) + [turns[|turns| - 1].frame]
  }

  /** A client can tell: the response is an error frame exactly when the command failed. */
  lemma ResponseTells(cfg: StoreConfig, s: Store, turn: Turn)
    ensures Response(ResultOf(cfg, s, turn).1).Error? <==> ResultOf(cfg, s, turn).1.Err?
  {
    match ResultOf(cfg, s, turn).1 {
      case Ok(_) => SuccessIsNoError(cfg, s, FromFrame(turn.frame).value, turn.now, turn.victims);
      case Err(error) => ErrorFrameIsError(error);
    }
  }

  lemma SuccessIsNoError(cfg: StoreConfig, s: Store, command: Command, now: Time, victims: set<Key>)
    ensures var answer := Executed(cfg, s, command, now, victims).1; answer.Ok? ==> !answer.value.Error?
  {
    match OpOf(command) {
      case None => OthersAreNoErrors(command, Done);
      case Some(op) => OthersAreNoErrors(command, Apply(cfg, s, op, now, victims).reply);
    }
  }

  /** The first word of the response tells what kind of failure it was. */
  lemma ResponseBegins(cfg: StoreConfig, s: Store, turn: Turn, error: CommandError, word: string)
    requires ResultOf(cfg, s, turn).1 == Err(error)
    requires word == if error.WrongTypeError? then "WRONGTYPE " else if error.OutOfMemoryError? then "OOM " else "ERR "
    ensures var response := Response(ResultOf(cfg, s, turn).1);
            response.Error? && Ascii(word) <= response.message
  {
    ErrorsBegin(error, word);
  }

  /** Over a whole session: one response for each turn, in order, and an error frame exactly for
      each turn that failed. */
  lemma {:induction false} ResponsesTell(cfg: StoreConfig, s: Store, turns: seq<Turn>, i: nat)
    requires i < |turns|
    ensures |SessionOf(cfg, s, turns).responses| == |turns|
    ensures var answer := ResultOf(cfg, SessionOf(cfg, s, turns[..i]).store, turns[i]).1;
            && SessionOf(cfg, s, turns).responses[i] == Response(answer)
            && (SessionOf(cfg, s, turns).responses[i].Error? <==> answer.Err?)
    decreases |turns|
  {
    var before, last := turns[..|turns| - 1], turns[|turns| - 1];
    ManyResponses(cfg, s, before);
    assert SessionOf(cfg, s, turns) == Extend(cfg, SessionOf(cfg, s, before), last);
    if i < |before| {
      ResponsesTell(cfg, s, before, i);
      assert before[..i] == turns[..i] && before[i] == turns[i];
    } else {
      ResponseTells(cfg, SessionOf(cfg, s, before).store, last);
    }
  }

  lemma {:induction false} ManyResponses(cfg: StoreConfig, s: Store, turns: seq<Turn>)
    ensures |SessionOf(cfg, s, turns).responses| == |turns|
    decreases |turns|
  {
    if turns != [] {
      ManyResponses(cfg, s, turns[..|turns| - 1]);
    }
  }

  /** The clock is read once for each turn. */
  ghost predicate OnClock(turns: seq<Turn>, clock: nat -> Time)
    decreases |turns|
  {
    var last := |turns| - 1;
    turns == [] || (OnClock(turns[..last], clock) && turns[last].now == clock(last))
  }

  lemma OneMoreTurn(cfg: StoreConfig, s: Store, turns: seq<Turn>, turn: Turn)
    ensures SessionOf(cfg, s, turns + [turn]) == Extend(cfg, SessionOf(cfg, s, turns), turn)
    ensures FramesOf(turns + [turn]) == FramesOf(turns) + [turn.frame]
  {
    assert (turns + [turn])[..|turns|] == turns;
  }

  /** The turns have led to `s`, on the clock and with possible evictions only. */
  ghost predicate Served(cfg: StoreConfig, before: Store, turns: seq<Turn>, clock: nat -> Time, s: Store) {
    OnClock(turns, clock) && SessionOf(cfg, before, turns).legal && SessionOf(cfg, before, turns).store == s
  }

  lemma ServedOneMore(cfg: StoreConfig, before: Store, turns: seq<Turn>, clock: nat -> Time, s: Store, turn: Turn)
    requires Served(cfg, before, turns, clock, s)
    requires turn.now == clock(|turns|) && LegalTurn(cfg, s, turn)
    ensures Served(cfg, before, turns + [turn], clock, ResultOf(cfg, s, turn).0)
    ensures var h, h' := SessionOf(cfg, before, turns), SessionOf(cfg, before, turns + [turn]);
            var answer := ResultOf(cfg, s, turn).1;
            && h'.responses == h.responses + [Response(answer)]
            && h'.log == h.log + Entries(turn, answer)
            && h'.successes == h.successes + (if answer.Ok? then 1 else 0)
    ensures FramesOf(turns + [turn]) == FramesOf(turns) + [turn.frame]
  {
    OneMoreTurn(cfg, before, turns, turn);
    assert (turns + [turn])[..|turns|] == turns;
  }

  // ---- reading frame after frame ----

  /** Reading goes on after the frames `done`. */
  ghost predicate ReadSoFar(input: Bytes, done: seq<Frame>, ahead: Bytes) {
    ReadAll(input) == Stream(done + ReadAll(ahead).frames, ReadAll(ahead).failure)
  }

  lemma NothingRead(input: Bytes)
    ensures ReadSoFar(input, [], input)
  {
    assert [] + ReadAll(input).frames == ReadAll(input).frames;
  }

  lemma OneMoreRead(input: Bytes, done: seq<Frame>, ahead: Bytes)
    requires ReadSoFar(input, done, ahead)
    ensures FrameAt(ahead).End? ==> ReadAll(input) == Stream(done, None)
    ensures FrameAt(ahead).Bad? ==> ReadAll(input) == Stream(done, Some(FrameAt(ahead).error))
    ensures FrameAt(ahead).Got? ==> ReadSoFar(input, done + [FrameAt(ahead).frame], FrameAt(ahead).rest)
  {
    match FrameAt(ahead) {
      case End => assert done + [] == done;
      case Bad(_) => assert done + [] == done;
      case Got(frame, rest) =>
        assert done + ([frame] + ReadAll(rest).frames) == done + [frame] + ReadAll(rest).frames;
    }
  }

  /** What the next read returned, and where it left the reader. */
  ghost predicate NextIs(input: Bytes, done: seq<Frame>, ahead: Bytes, next: Result<Option<Frame>, ReadError>) {
    match next
    case Err(error) => ReadAll(input) == Stream(done, Some(error))
    case Ok(got) =>
      if got.Some? then ReadSoFar(input, done + [got.value], ahead) else ReadAll(input) == Stream(done, None)
  }

  method ReadNext(reader: Reader, ghost input: Bytes, ghost done: seq<Frame>)
    returns (next: Result<Option<Frame>, ReadError>)
    requires reader.Valid() && ReadSoFar(input, done, reader.Ahead())
    modifies reader`position
    ensures reader.Valid() && NextIs(input, done, reader.Ahead(), next)
    ensures reader.position >= old(reader.position)
    ensures next.Ok? && next.value.Some? ==> reader.position > old(reader.position)
  {
    OneMoreRead(input, done, reader.Ahead());
    next := reader.ReadFrame();
  }

  // ---- one frame ----

  /** A frame of the log: parsed and executed. */
  method Perform(store: MemoryStore, frame: Frame, now: Time, ghost before: Store, ghost past: seq<Turn>,
                 clock: nat -> Time)
    returns (answer: Parsed<Frame>, ghost turns: seq<Turn>)
    requires Served(store.config, before, past, clock, store.State()) && now == clock(|past|)
    modifies store
    ensures Served(store.config, before, turns, clock, store.State())
    ensures |turns| == |past| + 1 && FramesOf(turns) == FramesOf(past) + [frame]
    ensures SessionOf(store.config, before, turns).successes ==
            SessionOf(store.config, before, past).successes + if answer.Ok? then 1 else 0
  {
    var parsed := FromFrame(frame);
    ghost var victims: set<Key> := {};
    ghost var was := store.State();
    match parsed {
      case Ok(command) => answer, victims := Execute(store, command, now);
      case Err(error) => answer := Err(error);
    }
    ghost var turn := Turn(frame, now, victims);
    ServedOneMore(store.config, before, past, clock, was, turn);
    turns := past + [turn];
  }

  /** The loop of the replay: frames are performed until the log ends or cannot be read. */
  method PerformAll(reader: Reader, store: MemoryStore, clock: nat -> Time)
    returns (r: Result<nat, ReadError>, ghost turns: seq<Turn>)
    requires reader.Valid()
    modifies reader`position, store
    ensures Served(store.config, old(store.State()), turns, clock, store.State())
    ensures FramesOf(turns) == ReadAll(old(reader.Ahead())).frames
    ensures r == match ReadAll(old(reader.Ahead())).failure
                 case Some(error) => Err(error)
                 case None => Ok(SessionOf(store.config, old(store.State()), turns).successes)
  {
    ghost var before, log, done := store.State(), reader.Ahead(), [];
    turns := [];
    var count, i := 0, 0;
    NothingRead(log);
    var next := ReadNext(reader, log, done);
    while next.Ok? && next.value.Some?
      invariant reader.Valid() && i == |turns| && done == FramesOf(turns)
      invariant Served(store.config, before, turns, clock, store.State())
      invariant SessionOf(store.config, before, turns).successes == count
      invariant NextIs(log, done, reader.Ahead(), next)
      decreases |reader.input| - reader.position, next.Ok? && next.value.Some?
    {
      var answer;
      done := done + [next.value.value];
      answer, turns := Perform(store, next.value.value, clock(i), before, turns, clock);
      if answer.Ok? {
        count := count + 1;
      }
      i := i + 1;
      next := ReadNext(reader, log, done);
    }
    match next {
      case Err(error) => r := Err(error);
      case Ok(_) => r := Ok(count);
    }
  }

  class Aof {
    const writer: Writer

    /** Opened for appending: what the file holds is kept; a missing file is created. */
    constructor Open(file: Option<Bytes>)
      ensures fresh(writer) && writer.buffer == if file.Some? then file.value else []
    {
      writer := new Writer();
      new;
      if file.Some? {
        writer.WriteAll(file.value);
      }
    }

    method Append(frame: Frame)
      modifies writer
      ensures writer.buffer == old(writer.buffer) + Encode(frame)
    {
      writer.WriteFrame(frame);
    }

    /** Runs a log file against `store`: every complete frame is parsed and executed, what
        fails is skipped, and a torn end is an error. A missing file is an empty log. */
    static method Replay(file: Option<Bytes>, store: MemoryStore, clock: nat -> Time)
      returns (r: Result<nat, ReadError>, ghost turns: seq<Turn>)
      modifies store
      ensures Served(store.config, old(store.State()), turns, clock, store.State())
      ensures var stream := ReadAll(if file.Some? then file.value else []);
              && FramesOf(turns) == stream.frames
              && r == match stream.failure
                      case Some(error) => Err(error)
                      case None => Ok(SessionOf(store.config, old(store.State()), turns).successes)
    {
      if file.None? {
        return Ok(0), [];
      }
      var reader := new Reader(file.value);
      r, turns := PerformAll(reader, store, clock);
    }
  }

  lemma EncodeOne(frame: Frame)
    ensures EncodeAll([frame]) == Encode(frame)
  {
    assert EncodeAll([frame][1..]) == [];
  }

  /** The contents of the log; nothing when the server keeps none. */
  ghost function LogBytes(aof: Aof?): Option<Bytes>
    reads aof, if aof != null then {aof.writer} else {}
  {
    if aof != null then Some(aof.writer.buffer) else None
  }

  ghost predicate LogGrew(log0: Option<Bytes>, log: Option<Bytes>, frames: seq<Frame>) {
    if log0.Some? then log == Some(log0.value + EncodeAll(frames)) else log == None
  }

  lemma NothingGrew(log: Option<Bytes>)
    ensures LogGrew(log, log, [])
  {
    assert log.Some? ==> log.value + [] == log.value;
  }

  lemma GrowTwice(before: Bytes, a: seq<Frame>, b: seq<Frame>)
    ensures before + EncodeAll(a) + EncodeAll(b) == before + EncodeAll(a + b)
  {
    EncodeAllConcat(a, b);
  }

  lemma LogGrewTwice(log0: Option<Bytes>, log1: Option<Bytes>, log2: Option<Bytes>, a: seq<Frame>, b: seq<Frame>)
    requires LogGrew(log0, log1, a) && LogGrew(log1, log2, b)
    ensures LogGrew(log0, log2, a + b)
  {
    if log0.Some? {
      GrowTwice(log0.value, a, b);
    }
  }

  lemma OutputGrew(output0: Bytes, output1: Bytes, output2: Bytes, responses: seq<Frame>, response: Frame)
    requires output1 == output0 + EncodeAll(responses) && output2 == output1 + Encode(response)
    ensures output2 == output0 + EncodeAll(responses + [response])
  {
    EncodeOne(response);
    GrowTwice(output0, responses, [response]);
  }

  method AppendCommand(aof: Aof?, frame: Option<Frame>)
    modifies if aof != null then {aof.writer} else {}
    ensures LogGrew(old(LogBytes(aof)), LogBytes(aof), if frame.Some? then [frame.value] else [])
  {
    NothingGrew(LogBytes(aof));
    if aof == null || frame.None? {
      return;
    }
    aof.Append(frame.value);
    EncodeOne(frame.value);
  }

  /** A command executed, and logged if it succeeded. */
  method ExecuteAndLog(store: MemoryStore, aof: Aof?, command: Command, now: Time)
    returns (answer: Parsed<Frame>, ghost victims: set<Key>, ghost entries: seq<Frame>)
    modifies store, if aof != null then {aof.writer} else {}
    ensures ChosenFor(store.config, old(store.State()), command, now, victims)
    ensures (store.State(), answer) == Executed(store.config, old(store.State()), command, now, victims)
    ensures var aofFrame := ToAofFrame(command, now);
            entries == if answer.Ok? && aofFrame.Some? then [aofFrame.value] else []
    ensures LogGrew(old(LogBytes(aof)), LogBytes(aof), entries)
  {
    var aofFrame := ToAofFrame(command, now);
    answer, victims := Execute(store, command, now);
    NothingGrew(LogBytes(aof));
    entries := [];
    if answer.Ok? {
      AppendCommand(aof, aofFrame);
      entries := if aofFrame.Some? then [aofFrame.value] else [];
    }
  }

  /** One request: parsed, executed, and logged if it succeeded. */
  method Respond(store: MemoryStore, aof: Aof?, frame: Frame, now: Time)
    returns (response: Frame, ghost turn: Turn, ghost entries: seq<Frame>)
    modifies store, if aof != null then {aof.writer} else {}
    ensures turn.frame == frame && turn.now == now && LegalTurn(store.config, old(store.State()), turn)
    ensures var (after, answer) := ResultOf(store.config, old(store.State()), turn);
            && store.State() == after && response == Response(answer) && entries == Entries(turn, answer)
    ensures LogGrew(old(LogBytes(aof)), LogBytes(aof), entries)
  {
    var parsed := FromFrame(frame);
    ghost var victims: set<Key> := {};
    match parsed {
      case Ok(command) =>
        var answer;
        answer, victims, entries := ExecuteAndLog(store, aof, command, now);
        match answer {
          case Ok(reply) => response := reply;
          case Err(error) => response := ErrorFrame(error);
        }
      case Err(error) =>
        NothingGrew(LogBytes(aof));
        entries := [];
        response := ErrorFrame(error);
    }
    turn := Turn(frame, now, victims);
  }

  /** A request served: one more turn. */
  method Serve(frame: Frame, store: MemoryStore, aof: Aof?, now: Time,
               ghost before: Store, ghost past: seq<Turn>, clock: nat -> Time)
    returns (response: Frame, ghost turns: seq<Turn>, ghost entries: seq<Frame>)
    requires Served(store.config, before, past, clock, store.State()) && now == clock(|past|)
    modifies store, if aof != null then {aof.writer} else {}
    ensures Served(store.config, before, turns, clock, store.State())
    ensures |turns| == |past| + 1 && FramesOf(turns) == FramesOf(past) + [frame]
    ensures var h, h' := SessionOf(store.config, before, past), SessionOf(store.config, before, turns);
            h'.responses == h.responses + [response] && h'.log == h.log + entries
    ensures LogGrew(old(LogBytes(aof)), LogBytes(aof), entries)
  {
    ghost var was := store.State();
    ghost var turn;
    response, turn, entries := Respond(store, aof, frame, now);
    ServedOneMore(store.config, before, past, clock, was, turn);
    turns := past + [turn];
  }

  /** The turns so far account for the store, for what was answered and for what was logged. */
  ghost predicate InStep(cfg: StoreConfig, before: Store, turns: seq<Turn>, clock: nat -> Time, s: Store,
                         output0: Bytes, output: Bytes, log0: Option<Bytes>, log: Option<Bytes>) {
    && Served(cfg, before, turns, clock, s)
    && output == output0 + EncodeAll(SessionOf(cfg, before, turns).responses)
    && LogGrew(log0, log, SessionOf(cfg, before, turns).log)
  }

  /** One round of the loop: a request is served, then answered. */
  method ServeNext(frame: Frame, output: Writer, store: MemoryStore, aof: Aof?, now: Time, ghost before: Store,
                   ghost past: seq<Turn>, clock: nat -> Time, ghost output0: Bytes, ghost log0: Option<Bytes>)
    returns (ghost turns: seq<Turn>)
    requires aof != null ==> aof.writer != output
    requires InStep(store.config, before, past, clock, store.State(), output0, output.buffer, log0, LogBytes(aof))
    requires now == clock(|past|)
    modifies store, output, if aof != null then {aof.writer} else {}
    ensures InStep(store.config, before, turns, clock, store.State(), output0, output.buffer, log0, LogBytes(aof))
    ensures |turns| == |past| + 1 && FramesOf(turns) == FramesOf(past) + [frame]
  {
    ghost var h, shown, logged := SessionOf(store.config, before, past), output.buffer, LogBytes(aof);
    var response;
    ghost var entries;
    response, turns, entries := Serve(frame, store, aof, now, before, past, clock);
    output.WriteFrame(response);
    OutputGrew(output0, shown, output.buffer, h.responses, response);
    LogGrewTwice(log0, logged, LogBytes(aof), h.log, entries);
  }

  /** Reading changes nothing but the reader. */
  method AwaitNext(reader: Reader, ghost output: Writer, ghost store: MemoryStore, ghost aof: Aof?,
                   ghost input: Bytes, ghost done: seq<Frame>)
    returns (next: Result<Option<Frame>, ReadError>)
    requires reader.Valid() && ReadSoFar(input, done, reader.Ahead())
    modifies reader`position
    ensures store.State() == old(store.State()) && output.buffer == old(output.buffer)
    ensures LogBytes(aof) == old(LogBytes(aof))
    ensures reader.Valid() && NextIs(input, done, reader.Ahead(), next)
    ensures reader.position >= old(reader.position)
    ensures next.Ok? && next.value.Some? ==> reader.position > old(reader.position)
  {
    next := ReadNext(reader, input, done);
  }

  /** The rest of the round: the next frame is awaited. */
  method ServeAndRead(frame: Frame, reader: Reader, output: Writer, store: MemoryStore, aof: Aof?, now: Time,
                      ghost before: Store, ghost past: seq<Turn>, clock: nat -> Time,
                      ghost output0: Bytes, ghost log0: Option<Bytes>, ghost input: Bytes, ghost done: seq<Frame>)
    returns (next: Result<Option<Frame>, ReadError>, ghost turns: seq<Turn>)
    requires aof != null ==> aof.writer != output
    requires InStep(store.config, before, past, clock, store.State(), output0, output.buffer, log0, LogBytes(aof))
    requires now == clock(|past|) && done == FramesOf(past) + [frame]
    requires reader.Valid() && ReadSoFar(input, done, reader.Ahead())
    modifies store, output, reader`position, if aof != null then {aof.writer} else {}
    ensures InStep(store.config, before, turns, clock, store.State(), output0, output.buffer, log0, LogBytes(aof))
    ensures |turns| == |past| + 1 && FramesOf(turns) == done
    ensures reader.Valid() && NextIs(input, done, reader.Ahead(), next)
    ensures reader.position >= old(reader.position)
    ensures next.Ok? && next.value.Some? ==> reader.position > old(reader.position)
  {
    turns := ServeNext(frame, output, store, aof, now, before, past, clock, output0, log0);
    next := AwaitNext(reader, output, store, aof, input, done);
  }

  lemma NothingServed(cfg: StoreConfig, s: Store, clock: nat -> Time, output: Bytes, log: Option<Bytes>)
    ensures InStep(cfg, s, [], clock, s, output, output, log, log)
  {
    NothingGrew(log);
    assert output + [] == output;
  }

  /** A connection, served until its input ends or cannot be read. */
  method HandleConnection(reader: Reader, output: Writer, store: MemoryStore, aof: Aof?, clock: nat -> Time)
    returns (r: Result<(), ReadError>, ghost turns: seq<Turn>)
    requires reader.Valid() && (aof != null ==> aof.writer != output)
    modifies store, output, reader, if aof != null then {aof.writer} else {}
    ensures InStep(store.config, old(store.State()), turns, clock, store.State(),
                   old(output.buffer), output.buffer, old(LogBytes(aof)), LogBytes(aof))
    ensures FramesOf(turns) == ReadAll(old(reader.Ahead())).frames
    ensures r == match ReadAll(old(reader.Ahead())).failure
                 case Some(error) => Err(error)
                 case None => Ok(())
  {
    ghost var before, output0, log0 := store.State(), output.buffer, LogBytes(aof);
    ghost var input, done := reader.Ahead(), [];
    turns := [];
    var i := 0;
    NothingRead(input);
    NothingServed(store.config, before, clock, output0, log0);
    var next := ReadNext(reader, input, done);
    while next.Ok? && next.value.Some?
      invariant reader.Valid() && i == |turns| && done == FramesOf(turns)
      invariant InStep(store.config, before, turns, clock, store.State(), output0, output.buffer, log0, LogBytes(aof))
      invariant NextIs(input, done, reader.Ahead(), next)
      decreases |reader.input| - reader.position, next.Ok? && next.value.Some?
    {
      done := done + [next.value.value];
      next, turns := ServeAndRead(
        next.value.value, reader, output, store, aof, clock(i), before, turns, clock, output0, log0, input, done);
      i := i + 1;
    }
    match next {
      case Err(error) => r := Err(error);
      case Ok(_) => r := Ok(());
    }
  }
}
