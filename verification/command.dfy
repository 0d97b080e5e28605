/** Commands: read from frames, executed on the store, printed to the append-only file. */
module Commands {
  import opened ByteStrings
  import opened Decimal
  import opened Frames
  import opened StoreModel
  import opened Storage
  import opened Report

  datatype CommandError =
    | Empty
    | ExpectedArray
    | ExpectedBulk
    | InvalidUtf8
    | InvalidInteger
    | WrongArity(verb: Verb)
    | Unknown(name: Str)
    | WrongTypeError
    | OutOfMemoryError

  datatype Command =
    | Ping(message: Option<Bytes>)
    | Echo(payload: Bytes)
    | Set(key: Key, value: Bytes)
    | Get(key: Key)
    | Del(keys: seq<Key>)
    | Exists(keys: seq<Key>)
    | Expire(key: Key, seconds: u64)
    | ExpireAt(key: Key, unixSeconds: u64)
    | Ttl(key: Key)
    | Persist(key: Key)
    | Lpush(key: Key, values: seq<Bytes>)
    | Rpush(key: Key, values: seq<Bytes>)
    | Lpop(key: Key)
    | Rpop(key: Key)
    | Lrange(key: Key, start: i64, stop: i64)
    | DbSize
    | Info
    | AerugoStats
    | AerugoInspect(limit: u64)

  // ---- command names, in ASCII ----

  const PING: Bytes := [80, 73, 78, 71]
  const ECHO: Bytes := [69, 67, 72, 79]
  const SET: Bytes := [83, 69, 84]
  const GET: Bytes := [71, 69, 84]
  const DEL: Bytes := [68, 69, 76]
  const EXISTS: Bytes := [69, 88, 73, 83, 84, 83]
  const EXPIRE: Bytes := [69, 88, 80, 73, 82, 69]
  const EXPIREAT: Bytes := [69, 88, 80, 73, 82, 69, 65, 84]
  const TTL: Bytes := [84, 84, 76]
  const PERSIST: Bytes := [80, 69, 82, 83, 73, 83, 84]
  const LPUSH: Bytes := [76, 80, 85, 83, 72]
  const RPUSH: Bytes := [82, 80, 85, 83, 72]
  const LPOP: Bytes := [76, 80, 79, 80]
  const RPOP: Bytes := [82, 80, 79, 80]
  const LRANGE: Bytes := [76, 82, 65, 78, 71, 69]
  const DBSIZE: Bytes := [68, 66, 83, 73, 90, 69]
  const INFO: Bytes := [73, 78, 70, 79]
  const AERUGO_STATS: Bytes := [65, 69, 82, 85, 71, 79, 46, 83, 84, 65, 84, 83]
  const AERUGO_INSPECT: Bytes := [65, 69, 82, 85, 71, 79, 46, 73, 78, 83, 80, 69, 67, 84]

  datatype Verb =
    | VPing | VEcho | VSet | VGet | VDel | VExists | VExpire | VExpireAt | VTtl | VPersist | VLpush | VRpush
    | VLpop | VRpop | VLrange | VDbSize | VInfo | VStats | VInspect

  function NameOf(verb: Verb): Bytes {
    match verb
    case VPing => PING
    case VEcho => ECHO
    case VSet => SET
    case VGet => GET
    case VDel => DEL
    case VExists => EXISTS
    case VExpire => EXPIRE
    case VExpireAt => EXPIREAT
    case VTtl => TTL
    case VPersist => PERSIST
    case VLpush => LPUSH
    case VRpush => RPUSH
    case VLpop => LPOP
    case VRpop => RPOP
    case VLrange => LRANGE
    case VDbSize => DBSIZE
    case VInfo => INFO
    case VStats => AERUGO_STATS
    case VInspect => AERUGO_INSPECT
  }

  function VerbOf(name: Bytes): Option<Verb> {
    if name == PING then Some(VPing)
    else if name == ECHO then Some(VEcho)
    else if name == SET then Some(VSet)
    else if name == GET then Some(VGet)
    else if name == DEL then Some(VDel)
    else if name == EXISTS then Some(VExists)
    else if name == EXPIRE then Some(VExpire)
    else if name == EXPIREAT then Some(VExpireAt)
    else if name == TTL then Some(VTtl)
    else if name == PERSIST then Some(VPersist)
    else if name == LPUSH then Some(VLpush)
    else if name == RPUSH then Some(VRpush)
    else if name == LPOP then Some(VLpop)
    else if name == RPOP then Some(VRpop)
    else if name == LRANGE then Some(VLrange)
    else if name == DBSIZE then Some(VDbSize)
    else if name == INFO then Some(VInfo)
    else if name == AERUGO_STATS then Some(VStats)
    else if name == AERUGO_INSPECT then Some(VInspect)
    else None
  }

  const DEFAULT_INSPECT_LIMIT: u64 := 128

  // ---- parsing ----

  type Parsed<T> = Result<T, CommandError>

  function BulkArgs(items: seq<Frame>): Parsed<seq<Bytes>> {
    if items == [] then Ok([])
    else if !items[0].Bulk? then Err(ExpectedBulk)
    else
      var args :- BulkArgs(items[1..]);
      Ok([items[0].bytes] + args)
  }

  function Text(arg: Bytes): Parsed<Str> {
    if ValidUtf8(arg) then Ok(arg) else Err(InvalidUtf8)
  }

  function IntoKeys(args: seq<Bytes>): Parsed<seq<Key>> {
    if args == [] then Ok([])
    else
      var key :- Text(args[0]);
      var keys :- IntoKeys(args[1..]);
      Ok([key] + keys)
  }

  function UnsignedArg(arg: Bytes): Parsed<u64> {
    var text :- Text(arg);
    match ParseU64(text) case Some(n) => Ok(n) case None => Err(InvalidInteger)
  }

  function SignedArg(arg: Bytes): Parsed<i64> {
    var text :- Text(arg);
    match ParseI64(text) case Some(n) => Ok(n) case None => Err(InvalidInteger)
  }

  /** The only argument, a key. */
  function OneKey(verb: Verb, args: seq<Bytes>): Parsed<Key> {
    if |args| == 1 then Text(args[0]) else Err(WrongArity(verb))
  }

  function SomeKeys(verb: Verb, args: seq<Bytes>): Parsed<seq<Key>> {
    if args == [] then Err(WrongArity(verb)) else IntoKeys(args)
  }

  function KeyAndTime(verb: Verb, args: seq<Bytes>): Parsed<(Key, u64)> {
    if |args| != 2 then Err(WrongArity(verb))
    else
      var key :- Text(args[0]);
      var n :- UnsignedArg(args[1]);
      Ok((key, n))
  }

  function KeyAndValues(verb: Verb, args: seq<Bytes>): Parsed<(Key, seq<Bytes>)> {
    if |args| < 2 then Err(WrongArity(verb))
    else
      var key :- Text(args[0]);
      Ok((key, args[1..]))
  }

  function Bare(verb: Verb, args: seq<Bytes>, command: Command): Parsed<Command> {
    if args == [] then Ok(command) else Err(WrongArity(verb))
  }

  function FromFrame(frame: Frame): Parsed<Command> {
    if !frame.Array? then Err(ExpectedArray)
    else
      var args :- BulkArgs(frame.items);
      if args == [] then Err(Empty)
      else
        var name :- Text(args[0]);
        UpperKeepsUtf8(name);
        match VerbOf(Upper(name))
        case Some(verb) => FromArgs(verb, args[1..])
        case None => Err(Unknown(Upper(name)))
  }

  function FromArgs(verb: Verb, args: seq<Bytes>): Parsed<Command> {
    match verb
    case VPing =>
      if args == [] then Ok(Ping(None))
      else if |args| == 1 then Ok(Ping(Some(args[0])))
      else Err(WrongArity(verb))
    case VEcho => if |args| == 1 then Ok(Echo(args[0])) else Err(WrongArity(verb))
    case VSet =>
      if |args| != 2 then Err(WrongArity(verb))
      else
        var key :- Text(args[0]);
        Ok(Command.Set(key, args[1]))
    case VGet => var key :- OneKey(verb, args); Ok(Command.Get(key))
    case VDel => var keys :- SomeKeys(verb, args); Ok(Command.Del(keys))
    case VExists => var keys :- SomeKeys(verb, args); Ok(Command.Exists(keys))
    case VExpire => var (key, n) :- KeyAndTime(verb, args); Ok(Command.Expire(key, n))
    case VExpireAt => var (key, n) :- KeyAndTime(verb, args); Ok(Command.ExpireAt(key, n))
    case VTtl => var key :- OneKey(verb, args); Ok(Ttl(key))
    case VPersist => var key :- OneKey(verb, args); Ok(Command.Persist(key))
    case VLpush => var (key, values) :- KeyAndValues(verb, args); Ok(Lpush(key, values))
    case VRpush => var (key, values) :- KeyAndValues(verb, args); Ok(Rpush(key, values))
    case VLpop => var key :- OneKey(verb, args); Ok(Lpop(key))
    case VRpop => var key :- OneKey(verb, args); Ok(Rpop(key))
    case VLrange =>
      if |args| != 3 then Err(WrongArity(verb))
      else
        var key :- Text(args[0]);
        var start :- SignedArg(args[1]);
        var stop :- SignedArg(args[2]);
        Ok(Command.Lrange(key, start, stop))
    case VDbSize => Bare(verb, args, DbSize)
    case VInfo => Bare(verb, args, Info)
    case VStats => Bare(verb, args, AerugoStats)
    case VInspect =>
      if args == [] then Ok(AerugoInspect(DEFAULT_INSPECT_LIMIT))
      else if |args| == 1 then
        var limit :- UnsignedArg(args[0]);
        Ok(AerugoInspect(limit))
      else Err(WrongArity(verb))
  }

  // ---- printing to the append-only file ----

  /** A time in whole seconds, rounded up. */
  function CeilSeconds(t: Time): u64 {
    t / SECOND + if t % SECOND > 0 then 1 else 0
  }

  /** The absolute deadline that is logged for a relative one. */
  function ExpirationDeadline(now: Time, seconds: u64): u64 {
    CeilSeconds(Deadline(now, seconds))
  }

  /** The name and arguments that are logged; nothing for a command that changes no data. */
  function AofWords(command: Command, now: Time): Option<(Verb, seq<Bytes>)> {
    match command
    case Set(key, value) => Some((VSet, [key, value]))
    case Del(keys) => Some((VDel, keys))
    case Expire(key, seconds) => Some((VExpireAt, [key, PrintNat(ExpirationDeadline(now, seconds))]))
    case ExpireAt(key, unixSeconds) => Some((VExpireAt, [key, PrintNat(unixSeconds)]))
    case Persist(key) => Some((VPersist, [key]))
    case Lpush(key, values) => Some((VLpush, [key] + values))
    case Rpush(key, values) => Some((VRpush, [key] + values))
    case Lpop(key) => Some((VLpop, [key]))
    case Rpop(key) => Some((VRpop, [key]))
    case _ => None
  }

  function AofArgs(command: Command, now: Time): seq<Bytes>
    requires AofWords(command, now).Some?
  {
    [NameOf(AofWords(command, now).value.0)] + AofWords(command, now).value.1
  }

  function ToAofFrame(command: Command, now: Time): Option<Frame> {
    if AofWords(command, now).Some? then Some(Array(Bulks(AofArgs(command, now)))) else None
  }

  /** The line that a durable command becomes in the log. */
  function LogLine(command: Command, now: Time): Frame {
    match ToAofFrame(command, now)
    case Some(frame) => frame
    case None => Null
  }

  /** The command that the log holds for `command`: a relative expiry becomes absolute. */
  function Logged(command: Command, now: Time): Command {
    if command.Expire? then Command.ExpireAt(command.key, ExpirationDeadline(now, command.seconds)) else command
  }

  predicate Durable(command: Command) {
    command.Set? || command.Del? || command.Expire? || command.ExpireAt? || command.Persist?
    || command.Lpush? || command.Rpush? || command.Lpop? || command.Rpop?
  }

  /** What the parser guarantees of a command beyond its types: something to delete or to
      push, and no more than memory can hold. */
  predicate Accepted(command: Command) {
    match command
    case Set(key, value) => |key| <= I64_MAX && |value| <= I64_MAX
    case Del(keys) => 0 < |keys| < I64_MAX && forall i :: 0 <= i < |keys| ==> |keys[i]| <= I64_MAX
    case Exists(keys) => keys != []
    case Lpush(key, values) =>
      |key| <= I64_MAX && 0 < |values| < I64_MAX - 1 && forall i :: 0 <= i < |values| ==> |values[i]| <= I64_MAX
    case Rpush(key, values) =>
      |key| <= I64_MAX && 0 < |values| < I64_MAX - 1 && forall i :: 0 <= i < |values| ==> |values[i]| <= I64_MAX
    case Expire(key, _) => |key| <= I64_MAX
    case ExpireAt(key, _) => |key| <= I64_MAX
    case Persist(key) => |key| <= I64_MAX
    case Lpop(key) => |key| <= I64_MAX
    case Rpop(key) => |key| <= I64_MAX
    case _ => true
  }

  // ---- printing and parsing undo each other ----

  lemma {:induction false} BulkArgsOf(args: seq<Bytes>)
    ensures BulkArgs(Bulks(args)) == Ok(args)
  {
    if args != [] {
      assert Bulks(args)[1..] == Bulks(args[1..]);
      BulkArgsOf(args[1..]);
      assert [args[0]] + args[1..] == args;
    }
  }

  lemma {:induction false} IntoKeysOf(keys: seq<Key>)
    ensures IntoKeys(keys) == Ok(keys)
  {
    if keys != [] {
      IntoKeysOf(keys[1..]);
      assert [keys[0]] + keys[1..] == keys;
    }
  }

  /** A name that the parser takes for `verb` as it is. */
  ghost predicate Names(name: Bytes, verb: Verb) {
    ValidUtf8(name) && Upper(name) == name && VerbOf(name) == Some(verb)
  }

  lemma UpperName(name: Bytes)
    requires forall i :: 0 <= i < |name| ==> name[i] < 97
    ensures ValidUtf8(name) && Upper(name) == name
  {
    AsciiIsUtf8(name);
  }

  lemma NamesAreUpper(verb: Verb)
    ensures forall i :: 0 <= i < |NameOf(verb)| ==> NameOf(verb)[i] < 97
  {
  }

  lemma NamesAreKnown(verb: Verb)
    ensures VerbOf(NameOf(verb)) == Some(verb)
  {
  }

  /** Names as they are logged are read back as they are. */
  lemma NamesReadBack(verb: Verb)
    ensures Names(NameOf(verb), verb)
  {
    NamesAreUpper(verb);
    UpperName(NameOf(verb));
    NamesAreKnown(verb);
  }

  lemma ReadWords(verb: Verb, args: seq<Bytes>)
    requires Names(NameOf(verb), verb)
    ensures FromFrame(Array(Bulks([NameOf(verb)] + args))) == FromArgs(verb, args)
  {
    BulkArgsOf([NameOf(verb)] + args);
    assert ([NameOf(verb)] + args)[1..] == args;
  }

  lemma LoggedArgsReadBack(command: Command, now: Time)
    requires Durable(command) && Accepted(command)
    ensures var (verb, args) := AofWords(command, now).value;
            FromArgs(verb, args) == Ok(Logged(command, now))
  {
    match command {
      case Del(keys) => IntoKeysOf(keys);
      case Expire(key, seconds) => PrintReadsBack(ExpirationDeadline(now, seconds));
      case ExpireAt(key, unixSeconds) => PrintReadsBack(unixSeconds);
      case Lpush(key, values) => assert ([key] + values)[1..] == values;
      case Rpush(key, values) => assert ([key] + values)[1..] == values;
      case _ =>
    }
  }

  /** Reading back what was logged gives the command, a relative expiry as an absolute one. */
  lemma LoggedReadsBack(command: Command, now: Time)
    requires Durable(command) && Accepted(command)
    ensures FromFrame(ToAofFrame(command, now).value) == Ok(Logged(command, now))
  {
    NamesReadBack(AofWords(command, now).value.0);
    LoggedArgsReadBack(command, now);
    ReadWords(AofWords(command, now).value.0, AofWords(command, now).value.1);
  }

  lemma PrintReadsBack(n: u64)
    ensures UnsignedArg(PrintNat(n)) == Ok(n)
  {
    PrintIsPlain(n);
    PrintParseU64(n);
  }

  lemma LoggedFrameIsSound(command: Command, now: Time)
    requires Accepted(command)
    ensures ToAofFrame(command, now).Some? <==> Durable(command)
    ensures Durable(command) ==>
              var args := AofArgs(command, now);
              && 1 < |args| <= I64_MAX
              && (forall i :: 0 <= i < |args| ==> |args[i]| <= I64_MAX)
              && Sized(Array(Bulks(args))) && Printable(Array(Bulks(args)))
  {
    if command.Expire? {
      PrintIsShort(ExpirationDeadline(now, command.seconds));
    } else if command.ExpireAt? {
      PrintIsShort(command.unixSeconds);
    }
  }

  lemma {:induction false} PrintLength(n: nat)
    ensures |PrintNat(n)| <= n + 1
  {
    if n >= 10 {
      PrintLength(n / 10);
    }
  }

  lemma PrintIsShort(n: u64)
    ensures |PrintNat(n)| <= I64_MAX
  {
    PrintLength(n / 10);
  }

  lemma {:induction false} BulkArgsAre(items: seq<Frame>)
    ensures BulkArgs(items).Ok? ==> Bulks(BulkArgs(items).value) == items
  {
    if items != [] && BulkArgs(items).Ok? {
      BulkArgsAre(items[1..]);
      var args := BulkArgs(items[1..]).value;
      assert Bulks([items[0].bytes] + args) == [items[0]] + Bulks(args) == items;
    }
  }

  lemma {:induction false} IntoKeysAre(args: seq<Bytes>)
    ensures IntoKeys(args).Ok? ==> IntoKeys(args).value == args
  {
    if args != [] && IntoKeys(args).Ok? {
      IntoKeysAre(args[1..]);
      assert [args[0]] + args[1..] == args;
    }
  }

  /** Whatever the parser accepts from a frame that fits in memory is an accepted command. */
  lemma ParserAccepts(frame: Frame)
    requires Sized(frame) && FromFrame(frame).Ok?
    ensures Accepted(FromFrame(frame).value)
  {
    BulkArgsAre(frame.items);
    var args := BulkArgs(frame.items).value;
    assert forall i :: 0 <= i < |args| ==> Bulk(args[i]) == frame.items[i];
    assert forall i :: 0 <= i < |args| ==> |args[i]| <= I64_MAX;
    ArgsAccepted(VerbOf(Upper(args[0])).value, args[1..]);
  }

  lemma ArgsAccepted(verb: Verb, args: seq<Bytes>)
    requires |args| < I64_MAX && forall i :: 0 <= i < |args| ==> |args[i]| <= I64_MAX
    ensures FromArgs(verb, args).Ok? ==> Accepted(FromArgs(verb, args).value)
  {
    IntoKeysAre(args);
  }

  /** Every durable command that a frame can ask for survives the log. */
  lemma CommandRoundTrip(frame: Frame, now: Time)
    requires Sized(frame) && FromFrame(frame).Ok? && Durable(FromFrame(frame).value)
    ensures var command := FromFrame(frame).value;
            && ToAofFrame(command, now).Some?
            && FromFrame(ToAofFrame(command, now).value) == Ok(Logged(command, now))
            && (!command.Expire? ==> Logged(command, now) == command)
  {
    ParserAccepts(frame);
    LoggedReadsBack(FromFrame(frame).value, now);
  }

  // ---- every command can be asked for ----

  /** The name and arguments that a client sends for a command. */
  function RequestWords(command: Command): (Verb, seq<Bytes>) {
    match command
    case Ping(None) => (VPing, [])
    case Ping(Some(message)) => (VPing, [message])
    case Echo(payload) => (VEcho, [payload])
    case Set(key, value) => (VSet, [key, value])
    case Get(key) => (VGet, [key])
    case Del(keys) => (VDel, keys)
    case Exists(keys) => (VExists, keys)
    case Expire(key, seconds) => (VExpire, [key, PrintNat(seconds)])
    case ExpireAt(key, unixSeconds) => (VExpireAt, [key, PrintNat(unixSeconds)])
    case Ttl(key) => (VTtl, [key])
    case Persist(key) => (VPersist, [key])
    case Lpush(key, values) => (VLpush, [key] + values)
    case Rpush(key, values) => (VRpush, [key] + values)
    case Lpop(key) => (VLpop, [key])
    case Rpop(key) => (VRpop, [key])
    case Lrange(key, start, stop) => (VLrange, [key, PrintInt(start), PrintInt(stop)])
    case DbSize => (VDbSize, [])
    case Info => (VInfo, [])
    case AerugoStats => (VStats, [])
    case AerugoInspect(limit) => (VInspect, [PrintNat(limit)])
  }

  lemma RequestArgsReadBack(command: Command)
    requires Accepted(command)
    ensures var (verb, args) := RequestWords(command); FromArgs(verb, args) == Ok(command)
  {
    if Durable(command) && !command.Expire? {
      LoggedArgsReadBack(command, 0);
    } else {
      OtherArgsReadBack(command);
    }
  }

  lemma OtherArgsReadBack(command: Command)
    requires Accepted(command) && (!Durable(command) || command.Expire?)
    ensures var (verb, args) := RequestWords(command); FromArgs(verb, args) == Ok(command)
  {
    match command {
      case Exists(keys) => IntoKeysOf(keys);
      case Expire(key, seconds) => PrintReadsBack(seconds);
      case Lrange(key, start, stop) => RangeReadsBack(key, start, stop);
      case AerugoInspect(limit) => PrintReadsBack(limit);
      case _ => SimpleArgsReadBack(command);
    }
  }

  lemma RangeReadsBack(key: Key, start: i64, stop: i64)
    ensures FromArgs(VLrange, [key, PrintInt(start), PrintInt(stop)]) == Ok(Command.Lrange(key, start, stop))
  {
    SignedReadsBack(start);
    SignedReadsBack(stop);
  }

  lemma SimpleArgsReadBack(command: Command)
    requires command.Ping? || command.Echo? || command.Get? || command.Ttl? || command.DbSize? || command.Info?
             || command.AerugoStats?
    ensures var (verb, args) := RequestWords(command); FromArgs(verb, args) == Ok(command)
  {
  }

  lemma SignedReadsBack(n: i64)
    ensures SignedArg(PrintInt(n)) == Ok(n)
  {
    PrintIsPlain(n);
    PrintParseI64(n);
  }

  /** Every command is what some request means, with its name in upper or lower case. */
  lemma RequestIsUnderstood(command: Command, name: Bytes)
    requires Accepted(command) && ValidUtf8(name) && Upper(name) == NameOf(RequestWords(command).0)
    ensures FromFrame(Array(Bulks([name] + RequestWords(command).1))) == Ok(command)
  {
    var (verb, args) := RequestWords(command);
    BulkArgsOf([name] + args);
    assert ([name] + args)[1..] == args;
    NamesAreKnown(verb);
    RequestArgsReadBack(command);
  }

  /** The argument is the word itself, or the same number written otherwise. */
  predicate Means(arg: Bytes, word: Bytes) {
    || arg == word
    || (UnsignedArg(arg).Ok? && UnsignedArg(arg) == UnsignedArg(word))
    || (SignedArg(arg).Ok? && SignedArg(arg) == SignedArg(word))
  }

  predicate AllMean(args: seq<Bytes>, words: seq<Bytes>) {
    |args| == |words| && forall i :: 0 <= i < |args| ==> Means(args[i], words[i])
  }

  /** What a command was read from is what a client sends for it, numerals aside; only the
      inspection's limit may be missing. */
  predicate SaysSo(command: Command, verb: Verb, args: seq<Bytes>) {
    && verb == RequestWords(command).0
    && (AllMean(args, RequestWords(command).1) || (command == AerugoInspect(DEFAULT_INSPECT_LIMIT) && args == []))
  }

  lemma TimesMean(verb: Verb, args: seq<Bytes>)
    requires (verb.VExpire? || verb.VExpireAt?) && FromArgs(verb, args).Ok?
    ensures SaysSo(FromArgs(verb, args).value, verb, args)
  {
    PrintReadsBack(KeyAndTime(verb, args).value.1);
  }

  lemma RangesMean(args: seq<Bytes>)
    requires FromArgs(VLrange, args).Ok?
    ensures SaysSo(FromArgs(VLrange, args).value, VLrange, args)
  {
    SignedReadsBack(SignedArg(args[1]).value);
    SignedReadsBack(SignedArg(args[2]).value);
  }

  lemma LimitsMean(args: seq<Bytes>)
    requires FromArgs(VInspect, args).Ok?
    ensures SaysSo(FromArgs(VInspect, args).value, VInspect, args)
  {
    if args != [] {
      PrintReadsBack(UnsignedArg(args[0]).value);
    }
  }

  lemma WordsAre(verb: Verb, args: seq<Bytes>)
    requires verb !in {VExpire, VExpireAt, VLrange, VInspect} && FromArgs(verb, args).Ok?
    ensures RequestWords(FromArgs(verb, args).value) == (verb, args)
  {
    IntoKeysAre(args);
    assert |args| == 1 ==> args == [args[0]];
    assert |args| == 2 ==> args == [args[0], args[1]];
    assert |args| > 0 ==> args == [args[0]] + args[1..];
  }

  lemma ArgsSaySo(verb: Verb, args: seq<Bytes>)
    requires FromArgs(verb, args).Ok?
    ensures SaysSo(FromArgs(verb, args).value, verb, args)
  {
    match verb {
      case VExpire => TimesMean(verb, args);
      case VExpireAt => TimesMean(verb, args);
      case VLrange => RangesMean(args);
      case VInspect => LimitsMean(args);
      case _ => WordsAre(verb, args);
    }
  }

  /** The parser accepts nothing but requests. */
  lemma OnlyRequestsAreUnderstood(frame: Frame)
    requires FromFrame(frame).Ok?
    ensures exists words: seq<Bytes> ::
              var command := FromFrame(frame).value;
              && frame == Array(Bulks(words)) && words != [] && ValidUtf8(words[0])
              && Upper(words[0]) == NameOf(RequestWords(command).0)
              && SaysSo(command, RequestWords(command).0, words[1..])
  {
    BulkArgsAre(frame.items);
    var words := BulkArgs(frame.items).value;
    assert frame == Array(Bulks(words));
    KnownNames(Upper(words[0]));
    ArgsSaySo(VerbOf(Upper(words[0])).value, words[1..]);
  }

  lemma KnownNames(name: Bytes)
    ensures VerbOf(name).Some? ==> name == NameOf(VerbOf(name).value)
  {
  }

  // ---- execution ----

  /** The store operation a command stands for; `PING` and `ECHO` need none. */
  function OpOf(command: Command): Option<Op> {
    match command
    case Ping(_) => None
    case Echo(_) => None
    case Set(key, value) => Some(Op.Set(key, value))
    case Get(key) => Some(Op.Get(key))
    case Del(keys) => Some(Op.Del(keys))
    case Exists(keys) => Some(Op.Exists(keys))
    case Expire(key, seconds) => Some(Op.Expire(key, seconds))
    case ExpireAt(key, unixSeconds) => Some(Op.ExpireAt(key, unixSeconds))
    case Ttl(key) => Some(TtlOf(key))
    case Persist(key) => Some(Op.Persist(key))
    case Lpush(key, values) => Some(Push(key, values, Left))
    case Rpush(key, values) => Some(Push(key, values, Right))
    case Lpop(key) => Some(Pop(key, Left))
    case Rpop(key) => Some(Pop(key, Right))
    case Lrange(key, start, stop) => Some(Op.Lrange(key, start, stop))
    case DbSize => Some(Stats)
    case Info => Some(Stats)
    case AerugoStats => Some(Stats)
    case AerugoInspect(limit) => Some(Inspect(limit))
  }

  /** A 64-bit unsigned number cast to a signed one. */
  function AsI64(n: nat): i64 {
    var low := n % 0x1_0000_0000_0000_0000;
    if low < 0x8000_0000_0000_0000 then low else low - 0x1_0000_0000_0000_0000
  }

  function TtlInteger(ttl: StoreModel.Ttl): i64 {
    match ttl
    case Missing => -2
    case NoExpiration => -1
    case Seconds(n) => Min(n, I64_MAX)
  }

  function Immediate(command: Command): Frame {
    match command
    case Ping(Some(message)) => Bulk(message)
    case Echo(payload) => Bulk(payload)
    case _ => Simple(Ascii("PONG"))
  }

  function ReplyFrame(command: Command, reply: Reply): Parsed<Frame> {
    match reply
    case Done => Ok(Simple(Ascii("OK")))
    case Found(Some(bytes)) => Ok(Bulk(bytes))
    case Found(None) => Ok(Null)
    case Count(n) => Ok(Integer(AsI64(n)))
    case Flag(yes) => Ok(Integer(if yes then 1 else 0))
    case Lifetime(ttl) => Ok(Integer(TtlInteger(ttl)))
    case Elements(items) => Ok(Array(Bulks(items)))
    case Snapshot(stats) =>
      Ok(if command.DbSize? then Integer(AsI64(stats.totalKeys)) else Bulk(FormatStats(stats)))
    case Rows(rows) => Ok(Array(InspectionFrames(rows)))
    case Failed(WrongType) => Err(WrongTypeError)
    case Failed(OutOfMemory) => Err(OutOfMemoryError)
  }

  /** A command on a store: the new store and the answer. */
  ghost function Executed(cfg: StoreConfig, s: Store, command: Command, now: Time, victims: set<Key>)
    : (r: (Store, Parsed<Frame>))
  {
    match OpOf(command)
    case None => (s, Ok(Immediate(command)))
    case Some(op) =>
      var o := Apply(cfg, s, op, now, victims);
      (o.store, ReplyFrame(command, o.reply))
  }

  ghost predicate ChosenFor(cfg: StoreConfig, s: Store, command: Command, now: Time, victims: set<Key>) {
    match OpOf(command)
    case None => victims == {}
    case Some(op) => Chosen(cfg, Visit(s, op, now).db, op, victims)
  }

  method Execute(store: MemoryStore, command: Command, now: Time)
    returns (answer: Parsed<Frame>, ghost victims: set<Key>)
    modifies store
    ensures ChosenFor(store.config, old(store.State()), command, now, victims)
    ensures (store.State(), answer) == Executed(store.config, old(store.State()), command, now, victims)
  {
    var op := OpOf(command);
    if op.None? {
      return Ok(Immediate(command)), {};
    }
    var reply;
    reply, victims := ExecuteOp(store, op.value, now);
    answer := ReplyFrame(command, reply);
  }

  /** The store method that an operation names. */
  method ExecuteOp(store: MemoryStore, op: Op, now: Time) returns (reply: Reply, ghost victims: set<Key>)
    requires !op.Sweep?
    modifies store
    ensures Chosen(store.config, Visit(old(store.State()), op, now).db, op, victims)
    ensures Outcome(store.State(), reply) == Apply(store.config, old(store.State()), op, now, victims)
  {
    if op.Set? {
      reply, victims := store.Set(op.key, op.value, now);
    } else if op.Push? {
      reply, victims := store.Push(op.key, op.values, op.side, now);
    } else {
      victims := {};
      NothingToEvict(store.config, Visit(store.State(), op, now).db, op);
      reply := ExecuteWithoutLimit(store, op, now);
    }
  }

  lemma NothingToEvict(cfg: StoreConfig, db: Db, op: Op)
    requires !op.Set? && !op.Push?
    ensures Chosen(cfg, db, op, {})
  {
  }

  /** The operations that the memory limit does not concern. */
  method ExecuteWithoutLimit(store: MemoryStore, op: Op, now: Time) returns (reply: Reply)
    requires !op.Sweep? && !op.Set? && !op.Push?
    modifies store
    ensures Outcome(store.State(), reply) == Apply(store.config, old(store.State()), op, now, {})
  {
    match op {
      case Get(key) => reply := store.Get(key, now);
      case Del(keys) => reply := store.Del(keys, now);
      case Exists(keys) => reply := store.Exists(keys, now);
      case Expire(key, seconds) => reply := store.Expire(key, seconds, now);
      case ExpireAt(key, unixSeconds) => reply := store.ExpireAtUnix(key, unixSeconds, now);
      case TtlOf(key) => reply := store.TimeToLive(key, now);
      case Persist(key) => reply := store.Persist(key, now);
      case Pop(key, side) => reply := store.Pop(key, side, now);
      case Lrange(key, start, stop) => reply := store.Lrange(key, start, stop, now);
      case Inspect(limit) => reply := store.InspectKeys(limit, now);
      case Stats => reply := store.Stats(now);
    }
  }

  function Join(a: Str, b: Str): Str {
    Utf8Concat(a, b);
    a + b
  }

  lemma NameIsAscii(verb: Verb)
    ensures IsAscii(NameOf(verb))
  {
  }

  function NameText(verb: Verb): Str {
    NameIsAscii(verb);
    AsciiIsUtf8(NameOf(verb));
    NameOf(verb)
  }

  /** The word that an error answer begins with. */
  function FirstWord(error: CommandError): string {
    if error.WrongTypeError? then "WRONGTYPE " else if error.OutOfMemoryError? then "OOM " else "ERR "
  }

  function RefusalReason(error: CommandError): string {
    if error.WrongTypeError? then "Operation against a key holding the wrong kind of value"
    else "command not allowed when memory limit would be exceeded"
  }

  function RefusalText(error: CommandError): Str {
    Join(Ascii(FirstWord(error)), Ascii(RefusalReason(error)))
  }

  function ErrorText(error: CommandError): Str {
    match error
    case Empty => Ascii("empty command")
    case ExpectedArray => Ascii("expected RESP array command")
    case ExpectedBulk => Ascii("expected bulk string argument")
    case InvalidUtf8 => Ascii("invalid UTF-8 in command or key")
    case InvalidInteger => Ascii("value is not an integer or is out of range")
    case WrongArity(verb) => Join(Join(Ascii("wrong number of arguments for '"), NameText(verb)), Ascii("'"))
    case Unknown(name) => Join(Join(Ascii("unknown command '"), name), Ascii("'"))
    case _ => RefusalText(error)
  }

  /** The store's refusals have their first word in their text; the others get theirs here. */
  function ErrorFrame(error: CommandError): Frame {
    if error.WrongTypeError? || error.OutOfMemoryError? then Error(ErrorText(error))
    else Error(Join(Ascii(FirstWord(error)), ErrorText(error)))
  }

  lemma JoinStarts(a: Str, b: Str)
    ensures a <= Join(a, b)
  {
  }

  lemma RefusalBegins(error: CommandError, word: string)
    requires error.WrongTypeError? || error.OutOfMemoryError?
    requires word == FirstWord(error)
    ensures ErrorFrame(error).Error? && Ascii(word) <= ErrorFrame(error).message
  {
    JoinStarts(Ascii(word), Ascii(RefusalReason(error)));
  }

  lemma OtherErrorBegins(error: CommandError, text: Str, word: string)
    requires !error.WrongTypeError? && !error.OutOfMemoryError? && text == ErrorText(error)
    requires word == FirstWord(error)
    ensures ErrorFrame(error).Error? && Ascii(word) <= ErrorFrame(error).message
  {
    JoinStarts(Ascii(word), text);
  }

  lemma ErrorFrameIsError(error: CommandError)
    ensures ErrorFrame(error).Error?
  {
  }

  /** Every error is answered with an error frame, whose first word tells its kind. */
  lemma ErrorsBegin(error: CommandError, word: string)
    requires word == if error.WrongTypeError? then "WRONGTYPE " else if error.OutOfMemoryError? then "OOM " else "ERR "
    ensures ErrorFrame(error).Error? && Ascii(word) <= ErrorFrame(error).message
  {
    if error.WrongTypeError? || error.OutOfMemoryError? {
      RefusalBegins(error, word);
    } else {
      OtherErrorBegins(error, ErrorText(error), word);
    }
  }

  /** No other answer is an error frame. */
  lemma OthersAreNoErrors(command: Command, reply: Reply)
    ensures ReplyFrame(command, reply).Ok? ==> !ReplyFrame(command, reply).value.Error?
    ensures !Immediate(command).Error?
  {
  }
}
