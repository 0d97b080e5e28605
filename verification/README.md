# Aerugo Cache: a model and its proofs

Aerugo Cache is a small in-memory key-value server that speaks RESP2. This project models
the four parts that have to fit together for it to be correct, and proves what they promise.

* **The storage engine.** A map of strings and lists with optional deadlines that are
  noticed lazily, byte accounting, a memory limit with random eviction, and rollback of
  rejected writes. `store_model.dfy` says what every operation does to the entries in two
  stages: what is looked at and has expired is dropped, and the operation is then applied
  without another look at the clock. `storage.dfy` is the engine itself, a class whose
  entries and counters change in place, with the push, eviction and accounting loops; every
  method is proved to do what the model says. `store_theorems.dfy` proves what the engine
  promises, over single operations and over whole runs. `accounting.dfy` ties every sum and
  count of the engine to the bytes and keys themselves.
* **The RESP2 codec.** `encoder.dfy` and `parser.dfy` hold a writer with a growing buffer and
  a reader with a position, each proved against a function on bytes; `codec_theorems.dfy`
  relates the two functions. `decimal.dfy` has the numbers that both share, and
  `text_theorems.dfy` says what order, numerals and UTF-8 mean, against definitions of their own.
  `wire.dfy` spells the wire out: the text of every frame, what a line announces, and command
  names in any letter case.
* **The command layer.** `command.dfy` reads commands from frames, prints them to the log and
  executes them; `answers.dfy` says what each command answers, in terms of the entries that are
  alive; `client_view.dfy` says what a client sees when one command follows another;
  `report.dfy` and `dashboard.dfy` print and parse the two reports.
* **The append-only file.** `sessions.dfy` has the loop that serves a connection and the loop
  that replays a log; `log_file.dfy` reads whole and cut logs; `recovery.dfy` proves that a
  replay rebuilds the store, and exactly which commands it can rebuild; `losses.dfy` has the
  sessions that it cannot; `restart.dfy` runs the server from one start to the next;
  `server.dfy` is the protocol with many connections, in which executing and appending are
  separate steps; `concurrency.dfy` proves recovery under every interleaving.

## Main results

| what | where |
|---|---|
| A log replayed into an empty store rebuilds the live store, for every client from the start of the replay on, deadlines rounded up to whole seconds | `Recovery.RecoveryEqualsLive` |
| Which commands every replay in a time span rebuilds, exactly | `Recovery.CommandRecoversExactly` |
| The same over any number of restarts | `Restart.RestartsRecover` |
| However the log is cut, the replay rebuilds an earlier state of the same session | `Recovery.CrashRecovery` |
| Every interleaving replays to the live entries, exactly when no key has two writers | `ConcurrentRecovery.OneWriterExactly` |
| The requests, and so the log, decide what random eviction leaves, exactly when there is no choice of victims | `StoreTheorems.RequestsDecideExactly`, `Losses.LogDecidesExactly` |
| A live entry can go for an expired one, exactly when there is a choice of victims | `StoreTheorems.LiveGoesByChoiceOnly` |
| A stream of frames decodes to the same frames exactly when they are printable | `CodecTheorems.RoundTripExactly`, `CodecTheorems.StreamRoundTrip` |
| No reply tells lazy expiry from eager expiry | `StoreTheorems.LazyRefinesEager` |
| Whatever a client sends, its answer is an error frame exactly when the command failed; what succeeds and changes data is in the log | `Sessions.ResponsesTell`, `Server.AnswersCanBeTrusted` |
| Along every run the bytes of every stored entry, counted from its strings, stay within the limit | `Accounting.EntriesStayWithinLimit` |
| The answer of every command, said of the entries that are alive | `Answers.GetAnswer`, `Answers.RangeIsExact`, `Answers.DelAnswer` and the other lemmas of `Answers` |
| The memory limit and non-empty lists are kept under every interleaving | `Server.AlwaysGood` |
| The outcome of eviction does not depend on the victims chosen | `StoreTheorems.WriteOutcome` |

## How the outside world enters

* The clock is a parameter, in nanoseconds since the Unix epoch, up to the last instant of the
  system's clock type. A command reads it once for its operation; a connection's log line may
  be made with another, earlier reading (`Server.Exec`).
* Random eviction enters as the set of victims that the choice produced. Theorems hold for
  every set that the loop can produce.
* The network and the log file are byte sequences. A lock-protected call is one atomic step.
* Strings are byte sequences that satisfy one UTF-8 predicate (section 4 of RFC 3629);
  `TextTheorems.ValidExactly` shows that they are the encodings of code points.

## Where the code does less than one might expect

* An array can have as many items as the bytes it consumed: a single non-blank byte at the very
  end of the input is an inline command of one word. `CodecTheorems.FewerItemsThanBytes` states
  the bound together with this one exception.
* Error frames are not read back: the decoder takes their line for an inline command.
  `CodecTheorems.RoundTripExactly` gives the exact class of frames that survive.
* A replay deletes a key at its logged expiry if that has passed, and finds no key when a
  later command of the log comes to it. A command is rebuilt by every replay in a time span if and
  only if it does nothing that is to last to a key doomed in this way, and sets no deadline whose
  next full second falls into the span (`Recovery.CommandRecoversExactly`). The loss that
  matters is an acknowledged `PERSIST`: after `SET`, `EXPIRE`, `PERSIST` and a restart past the old
  deadline the key is gone (`Losses.PersistIsLost`).
* A logged deadline is a full second. A key deleted by `EXPIRE` with 0 seconds comes back when the
  replay runs within the same second (`Losses.ExpireZeroComesBack`).
* Two writers of one key can make the log disagree with the store. One writer for each key is
  exactly what it takes: `ConcurrentRecovery.OneWriterExactly`.
* Evictions are not logged. The requests alone decide what is left if and only if nothing is
  evicted or the limit is at most 128 bytes, where two keys never fit
  (`StoreTheorems.RequestsDecideExactly`), and so it is with the log (`Losses.LogDecidesExactly`).
* With a memory limit expired entries still count. Without eviction a write is then refused that
  a store without them would accept, exactly when they take the room
  (`StoreTheorems.LimitTellsLazyFromEager`, reached in `StoreTheorems.RefusedForDead`). Under random
  eviction every reply to a write agrees (`StoreTheorems.RandomEvictionHidesLaziness`), but a live key
  can go although all live ones fit: for one write exactly when the expired entries leave too little
  room and there is another live key (`StoreTheorems.LiveGoesForDeadExactly`), and along some run
  exactly when there is a choice of victims (`StoreTheorems.LiveGoesByChoiceOnly`).
* Sizes above the largest signed 64-bit integer are capped in inspection replies, which is
  exactly when `Dashboard.InspectionRoundTrip` loses them.

## Model

| member | source | states |
|---|---|---|
| Recovery.RecoveryEqualsLive | src/persistence/aof.rs:49-81 | for every settled session from an empty store, deadlines that pass before the restart included: the log bytes decode without error, every frame is executed and counted, and from the start of the replay on every client sees the live keys, values and (rounded-up) deadlines |
| Recovery.CommandRecoversExactly | src/command.rs:263-310 | a successful durable command, executed where nothing that is to last has expired, is rebuilt by every replay in a time span if and only if it is safe: no `PERSIST`, push or longer expiry on a key that is still there and whose logged deadline the replay will find passed, and no deadline of its own whose next full second falls into the span |
| Recovery.CrashRecovery | src/persistence/aof.rs:63-77 | for every byte prefix of a session's log, the replay ends in what is to be restored after a prefix of the session, has executed exactly the whole frames, and ends cleanly exactly at a frame boundary |
| Recovery.SessionRecovers | src/persistence/aof.rs:63-77 | from any store and what is to be restored of it, a session on the one and the replay of its log on the other end in a store and what is to be restored of it |
| Recovery.TurnRecovers | src/server.rs:64-86 | the log line of one served command, replayed at any time of the replay, succeeds and has what is to be restored of the live effect |
| Recovery.SilentTurn | src/server.rs:67-83 | a served frame that logs nothing has at most dropped expired entries |
| Recovery.NothingEvicted | src/storage.rs:523-542 | a turn has no victims without a limit, without eviction, and whenever its write fits, so that the condition on victims is met |
| Recovery.RestoredLooksRounded | src/storage.rs:506-510 | what is not restored has expired: from the start of the replay on no client can tell |
| Recovery.DeadlineBound | src/command.rs:387-401 | with the clock read at n0 for the log and at n1 for the execution, the logged deadline is at least the live one minus (n1 - n0) and less than the live one plus one second |
| Recovery.TtlAfterReplay | src/storage.rs:254-271 | as long as the live key exists, `TTL` after the replay is the live answer or one second more |
| Recovery.ChangesAlike | src/command.rs:263-310 | safe writes, pops, deletions and persists commute with dropping doomed entries and rounding the other deadlines up, under every limit, as long as only doomed keys are evicted |
| Recovery.FreshBeforeStart | src/storage.rs:596-600 | what has expired at a turn is gone for the replay too, as soon as the replay starts no earlier than the next full second |
| Restart.RestartsRecover | src/server.rs:24-54 | over any number of starts, each loading the file that the earlier lives left and appending to it: replaying the whole file rebuilds what is to be restored of the last life, without a failure, provided that every life is settled for every later start |
| Restart.RestoredTwice | src/command.rs:395-401 | restoring at one start and again at a later one is restoring at the later one |
| Losses.PersistIsLost | src/storage.rs:237-252 | for every key, value and lifetime: a key set, given a deadline and persisted before it, each with success, is absent after a replay past the logged deadline, which reports success three times |
| Losses.ExpireZeroComesBack | src/command.rs:387-401 | for every key and value: a key deleted by `EXPIRE` with 0 seconds is back after a replay within the same second |
| Losses.EvictionIsNotReplayed | src/persistence/aof.rs:63-77 | for every limit above 128 under random eviction there is a session without deadlines whose log has a legal replay that ends in other entries |
| Losses.LogDecidesExactly | src/persistence/aof.rs:63-77 | for sessions without deadlines, every legal replay of the log ends in the live entries if and only if there is no limit, no eviction, or a limit of at most 128 |
| Restart.Run | src/server.rs:24-54 | a start replays the file, refuses to go on exactly if that fails, and then serves, appending to the file |
| Restart.RunAndLoad | src/server.rs:24-54 | a connection served from an empty log and the bytes replayed between start and finish: if the session was settled, the new entries are what is to be restored of the old ones and every logged command counts |
| ConcurrentRecovery.OneWriterExactly | src/server.rs:67-76 | for every relation of connections to the keys they may write: all runs that keep to it, without limit and deadlines, replay once quiet to the live entries if and only if no key that fits in a frame has two writers |
| ConcurrentRecovery.KeyOrderReplaysToLive | src/server.rs:67-76 | if the log and then the commands in flight have the order of execution on every key, they replay to the live entries without a failure, whoever wrote |
| ConcurrentRecovery.CutLogRecovers | src/persistence/aof.rs:63-77 | crash recovery under interleaving: with one writer for each key, no limit and no deadlines, replaying any byte prefix of the log succeeds on exactly the commands whole in it, ends in what they make, and on every key they are the first that were executed there |
| ConcurrentRecovery.SomeOrder | src/server.rs:67-71 | in every consistent state the commands in flight have an order |
| ConcurrentRecovery.ReplayEqualsLive | src/server.rs:67-76 | one writer for each key, no limit, no deadlines: in every reachable state the log, followed by the executed commands not yet appended in any order, replays to exactly the live entries with no failure |
| ConcurrentRecovery.QuietLogEqualsLive | src/persistence/aof.rs:42-47 | when no command is between execution and append, replaying the log bytes alone gives the live entries |
| ConcurrentRecovery.OrderOnKeysDecides | src/server.rs:67-76 | two orders of commands that agree on every key end in the same entries |
| ConcurrentRecovery.OnlyWritesCount | src/storage.rs:153-179 | under a key only the commands that name it count |
| ConcurrentRecovery.SuccessInAnyOrder | src/persistence/aof.rs:65-69 | a command that succeeded live succeeds in every order that agrees on every key |
| ConcurrentRecovery.AlwaysFaithful | src/server.rs:67-71 | in every reachable state the live entries are what the executed commands make in their order, sweeps and reads included |
| ConcurrentRecovery.TwoWritersDiverge | src/server.rs:69-70 | for any two connections that may write a key and any two values there is a run after which every replay of the log ends in another store |
| Server.AlwaysConsistent | src/server.rs:56-93 | every step keeps: the bytes of the log encode its lines, and for each connection the executed commands are the logged ones plus at most one in flight, the logged ones the answered ones plus at most one unanswered |
| Server.AnsweredIsLogged | src/server.rs:69-89 | in every reachable state each durable command answered with success is in the log, each logged one was executed, and the log decodes to exactly its lines |
| Server.CrashKeepsTheLog | src/persistence/aof.rs:42-47 | a crash inside an append leaves a file that decodes to exactly the logged commands, and ends with an error exactly when part of a line was written |
| Server.CutKeepsWholeCommands | src/persistence/aof.rs:63-77 | every byte prefix of the log of a reachable state decodes to exactly the commands whole in it |
| Server.AlwaysGood | src/storage.rs:523-542 | in every reachable state, whatever frames the connections send, the estimated bytes do not exceed the limit and no list is empty |
| Server.SessionIsARun | src/server.rs:64-90 | a connection served alone is a run of the protocol with the same store and log bytes |
| Sessions.HandleConnection | src/server.rs:56-93 | reads frames to the end of the input or the first error, and leaves store, output and log exactly as the turns account for, each answered and each successful durable one logged |
| Sessions.ResponsesTell | src/server.rs:64-90 | over a whole session: one response for each turn, in order, and it is an error frame exactly when the turn failed |
| Sessions.ResponseBegins | src/command.rs:256-261 | the error frame of a failed turn begins with `WRONGTYPE`, `OOM` or `ERR`, as the failure was |
| Server.AnswersCanBeTrusted | src/server.rs:69-89 | in every reachable state, each answer sent to a durable command that is no error frame belongs to a record of that command in the log, and no error frame belongs to a record |
| Sessions.ExecuteAndLog | src/server.rs:67-71 | executes once and appends exactly the command's log line, only on success |
| Sessions.AppendCommand | src/server.rs:95-105 | the log grows by the encoding of the frame if there is one, and not at all otherwise |
| Sessions.Aof.Open | src/persistence/aof.rs:22-40 | opening for append keeps what the file holds, nothing if it is missing |
| Sessions.Aof.Append | src/persistence/aof.rs:42-47 | the log grows by exactly the encoding of the frame |
| Sessions.Aof.Replay | src/persistence/aof.rs:49-81 | executes every frame that decodes, skips what fails, counts exactly the successes, fails exactly when the stream does; a missing file is an empty log |
| Sessions.PerformAll | src/persistence/aof.rs:63-79 | the replay loop: performs every frame up to the end or the first error and counts exactly the commands that succeed |
| LogFile.CutLog | src/protocol/parser.rs:33-79 | any log cut anywhere decodes to exactly the frames that are whole, then ends cleanly only at a boundary |
| LogFile.TornFrame | src/protocol/parser.rs:33-79 | an incomplete log line yields no frame, and is an error unless empty |
| CodecTheorems.RoundTripExactly | src/protocol/encoder.rs:5-41 | a frame followed by any bytes reads back as itself with exactly those bytes left, if and only if it holds no error frame and no line feed in a simple string |
| CodecTheorems.StreamRoundTrip | src/protocol/parser.rs:7-31 | the concatenated encodings of printable frames, then any bytes, decode to those frames and then to what the bytes decode to |
| Wire.TextOf | src/protocol/encoder.rs:9-41 | the text of every kind of frame, spelled out |
| Wire.BulkAnnounced | src/protocol/parser.rs:55-79 | for every text after the dollar sign and all bytes that follow: the null frame for -1, invalid data for other negative numbers, for what is no 64-bit number and for a missing CRLF, an unexpected end for missing bytes, else the payload |
| Wire.ArrayAnnounced | src/protocol/parser.rs:33-53 | after the star, frames are taken one after the other, each where the last one ended, as many as announced; the first that fails, or the end of the input, makes the array fail |
| Wire.IntegerAnnounced | src/protocol/parser.rs:28 | after the colon an integer for exactly the numerals that fit in 64 bits, invalid data otherwise |
| Wire.SimpleAnnounced | src/protocol/parser.rs:27 | after the plus sign the text if it is UTF-8, invalid data otherwise |
| Wire.LineEnds | src/protocol/parser.rs:91-95 | a line may end with a line feed alone, and the last one with the end of the input |
| Wire.EmptyLine | src/protocol/parser.rs:20-22 | an empty line is read as an error frame |
| CodecTheorems.ReadsBack | src/protocol/encoder.rs:9-41 | the positive half, by induction over arbitrarily nested frames |
| CodecTheorems.NeverReadsBack | src/protocol/parser.rs:24-30 | the negative half: an error frame or a line feed anywhere inside spoils the frame |
| CodecTheorems.TornCommand | src/protocol/parser.rs:33-79 | a non-empty array of bulk strings cut anywhere inside is an error, never a shorter command |
| CodecTheorems.TornBulk | src/protocol/parser.rs:55-79 | a bulk string cut anywhere inside is an error |
| CodecTheorems.DecoderLeavesSuffix | src/protocol/parser.rs:7-53 | on every byte string a frame that is read consumes at least one byte and leaves a suffix of the input, whatever lengths are announced |
| CodecTheorems.FewerItemsThanBytes | src/protocol/parser.rs:33-53 | an array has fewer items than bytes consumed, except exactly for a lone non-blank byte at the end of the input |
| CodecTheorems.InlineAgreesWithArray | src/protocol/parser.rs:81-89 | words separated by any runs of spaces, tabs, carriage returns and form feeds read as the same frame as their RESP array, unless the line starts with a byte that announces another kind |
| Encoder.Writer.WriteFrame | src/protocol/encoder.rs:5-44 | appends exactly the text of the frame, recursively |
| Encoder.Writer.WriteArray | src/protocol/encoder.rs:33-40 | appends the header and then every item in order |
| Parser.Reader.ReadLine | src/protocol/parser.rs:11-15 | takes up to and including the first line feed, or all that is left |
| Parser.Reader.ReadFrame | src/protocol/parser.rs:7-31 | returns and consumes what decoding the bytes ahead gives, and moves forward whenever it returns a frame |
| Parser.Reader.ReadItems | src/protocol/parser.rs:38-52 | collects the announced number of frames in order, or fails as the first failing one does |
| Parser.Reader.ReadBulk | src/protocol/parser.rs:55-79 | returns the payload of the announced length if CRLF follows it, a null frame for length -1, invalid data for any other negative length, an unparsable one or a missing CRLF, and an unexpected end if bytes are missing |
| Decimal.PrintParseI64 | src/protocol/parser.rs:102-105 | every signed 64-bit integer printed in decimal parses back |
| Decimal.PrintParseU64 | src/command.rs:361-365 | every unsigned 64-bit integer printed in decimal parses back |
| TextTheorems.PrintIsDecimal | src/protocol/encoder.rs:21 | every digit printed is the digit of the number at its place, by division by powers of ten, with no needless zero in front |
| TextTheorems.DigitsAreDecimal | src/protocol/parser.rs:97-105 | the value read from digits, leading zeros included, has them as its digits |
| TextTheorems.SignedExactly | src/protocol/parser.rs:102-105 | a signed number is read from a text exactly if that is an optional sign and digits of this value |
| TextTheorems.UnsignedExactly | src/command.rs:361-365 | an unsigned number is read from a text exactly if that is an optional plus sign and digits of this value |
| Decimal.CutPrintStaysPositive | src/protocol/parser.rs:97-100 | a positive number cut short by its last digits still parses as a positive number |
| Commands.CommandRoundTrip | src/command.rs:263-310 | every durable command that a frame asks for is logged and reads back as itself; an `EXPIRE` as an `EXPIREAT` on the same key at the computed deadline |
| Commands.LoggedFrameIsSound | src/command.rs:263-310 | exactly the nine durable commands are logged, always as a non-empty array of bulk strings |
| Commands.RequestIsUnderstood | src/command.rs:61-184 | each of the nineteen commands is parsed from its request, its name in any letter case |
| Commands.OnlyRequestsAreUnderstood | src/command.rs:61-184 | conversely, whatever is parsed came from that command's request, up to letter case, the spelling of numbers and the default inspection limit |
| Wire.NameInAnyCase | src/command.rs:72-74 | a name stands for a command if and only if it is spelled as in the source, each letter large or small |
| Wire.DefaultLimit | src/command.rs:173-176 | `AERUGO.INSPECT` without a limit asks for 128 rows |
| Wire.PolicyReadsBack | src/storage.rs:57-69 | the name that is reported for a policy configures that policy |
| Commands.ErrorsBegin | src/command.rs:256-261 | every error becomes an error frame that begins with `WRONGTYPE`, `OOM` or `ERR`, as its kind is |
| Commands.OthersAreNoErrors | src/command.rs:186-254 | no successful answer is an error frame |
| Commands.ParserAccepts | src/command.rs:322-332 | a parsed deletion names a key and a parsed push carries a value |
| Commands.BulkArgsAre | src/command.rs:343-351 | arguments are taken only from arrays made of bulk strings, all and in order |
| Commands.IntoKeysAre | src/command.rs:353-359 | keys are the arguments themselves, in order |
| Commands.Execute | src/command.rs:186-254 | changes the store and answers as the store operation that the command stands for |
| Answers.GetAnswer | src/command.rs:195-198 | the null bulk string exactly for a key that is absent or expired, the value of a string, the wrong-type error exactly for a list |
| Answers.RangeIsExact | src/storage.rs:691-713 | for all items and 64-bit bounds: the elements given are those at the positions between the bounds, all, only and in order, a negative bound meaning the length plus it |
| Answers.RangeAnswer | src/command.rs:235-242 | an empty array for a key that is not alive, the wrong-type error for a string, and the elements of a list as bulk strings |
| Answers.PopAnswer | src/command.rs:227-234 | the null bulk string for a key that is not alive, the first or last element of a list, an error for a string |
| Answers.PopLeaves | src/storage.rs:447-471 | what a pop leaves under its key: the other elements with the old deadline, and nothing after the last one |
| Answers.SetAnswer | src/command.rs:191-194 | `OK`, or the error for memory |
| Answers.PushAnswer | src/command.rs:221-226 | the length of the live list plus the number of values, or the error for memory; the wrong-type error for a string |
| Answers.DelAnswer | src/command.rs:199 | the number of different live keys among those named, and everything else is left as it was |
| Answers.ExistsAnswer | src/command.rs:200 | the number of places that name a live key |
| Answers.ExpireAnswer | src/command.rs:201-214 | 1 or 0 as the key is alive; it is gone if the deadline asked for is reached, and else has its value and that deadline |
| Answers.PersistAnswer | src/command.rs:216-220 | 1 exactly for a live key with a deadline; a live key keeps its value and has no deadline afterwards |
| Answers.TtlAnswer | src/storage.rs:254-271 | -2, -1, or the whole seconds left, in terms of the entry |
| Answers.ImmediateAnswers | src/command.rs:188-190 | `PONG`, or the bytes that were sent, and no change |
| Answers.DbSizeFrame | src/command.rs:243 | the number of keys of the report |
| Answers.InfoFrame | src/command.rs:244 | the printed report |
| Answers.RowTells | src/storage.rs:380-390 | a row of the inspection in terms of its entry: key, kind, seconds left or -1, bytes, estimate and number of items |
| Answers.SweepDrops | src/storage.rs:290-302 | a sweep drops and counts exactly the entries whose deadline is reached |
| ClientView.GetReturnsWhatWasSet | src/command.rs:191-198 | after a successful `SET`, `GET` answers the value and `TTL` -1 at any later time |
| ClientView.TtlTellsApart | src/storage.rs:84-92 | `TTL` answers -2 exactly for a key that is not live, -1 exactly for a live key without deadline, and whole seconds otherwise |
| ClientView.RangeReturnsWhatWasPushed | src/command.rs:221-248 | after `LPUSH` the whole range is the values reversed before the old list; after `RPUSH` it is the old list and then the values |
| StoreTheorems.LazyRefinesEager | src/storage.rs:506-510 | without a limit, every reply of every run is that of a store that drops entries the instant they expire, wherever sweeps are inserted |
| StoreTheorems.SweepsAreInvisible | src/storage.rs:290-302 | removing every sweep from a run changes no reply |
| StoreTheorems.LimitTellsLazyFromEager | src/storage.rs:671-676 | with a limit and no eviction, any write is answered differently exactly when the limit lies between the bytes with and without the other expired entries |
| StoreTheorems.RefusedForDead | src/storage.rs:671-676 | it happens: after `SET` and `EXPIRE` of a key, from the deadline on, a `SET` of another key that fits alone is refused for the room of the dead one |
| StoreTheorems.RandomEvictionHidesLaziness | src/storage.rs:544-563 | under random eviction every reply to a write is that of the eager store, whatever the victims |
| StoreTheorems.LiveGoesForDeadExactly | src/storage.rs:565-588 | under random eviction, for every write that fits together with the live entries: some possible eviction takes a live entry if and only if the write does not fit with the expired ones and there is another live entry |
| StoreTheorems.LiveGoesByChoiceOnly | src/storage.rs:565-588 | along no run can that happen, if and only if there is no limit, no eviction, or a limit of at most 128 |
| StoreTheorems.RequestsDecideExactly | src/storage.rs:565-588 | the same requests at the same times always end in the same keyspace if and only if there is no limit, no eviction, or a limit of at most 128 |
| StoreTheorems.WriteOutcome | src/storage.rs:523-563 | a write is refused exactly when it does not fit and eviction is off or the new entry alone is too large; otherwise the entry is stored, only victims are gone, the limit holds and the last victim was needed |
| StoreTheorems.ChoiceExists | src/storage.rs:544-563 | some possible victim set always exists |
| StoreTheorems.LimitInvariant | src/storage.rs:523-542 | along every run from an empty store, under either policy and whatever is evicted, the estimate never exceeds the limit; `Accounting.EntriesStayWithinLimit` says what that means for the bytes stored |
| StoreTheorems.StepKeepsLimit | src/storage.rs:153-179 | each single operation keeps the limit, accepted or refused |
| StoreTheorems.RejectedWriteRollsBack | src/storage.rs:432-444 | a failed operation leaves the map as it was, minus its key if that had expired, and counts a rejection exactly for out-of-memory |
| StoreTheorems.CountersAreExact | src/storage.rs:473-493 | over a run `rejected_writes` counts the out-of-memory replies and `evicted_keys` the keys evicted |
| StoreTheorems.StatsConservation | src/storage.rs:635-680 | string keys and list keys make all keys, and the estimate is 64 per key, 24 per list item, the key bytes and the payload bytes: the number that admits writes |
| Answers.ExpiredMoves | src/storage.rs:350-399 | only a report, an inspection with a limit and a sweep count what has expired, and exactly that |
| Answers.ReadsOnlyDrop | src/storage.rs:181-194 | a read changes nothing, but drops the keys it looked at that have expired |
| Answers.ReportsOnlyDrop | src/storage.rs:350-399 | a report and an inspection leave exactly the live entries, an inspection of 0 rows all of them |
| Answers.OthersUntouched | src/storage.rs:153-348 | under every limit and policy a key that is neither named nor evicted keeps its entry |
| Accounting.EstimateAdds | src/storage.rs:671-680 | a new key adds to the estimate 64 bytes, its length and that of its string, or 24 for each element and the length of all elements joined |
| Accounting.EntriesStayWithinLimit | src/storage.rs:523-542 | along every run under a limit the key, the bytes of the value joined, 64 and 24 for each element of any stored entry stay within the limit |
| Accounting.SumsAlongWalk | src/storage.rs:610-633 | the byte and item sums are the lengths of the keys, payloads and items joined along any walk through the keys |
| Accounting.ReportCounts | src/storage.rs:635-669 | a report on the live entries: string, list and expiring keys are the numbers of keys whose entry is one, bytes and items are those along any walk, expired keys are added to their counter, and the other counters and the configuration are passed on |
| StoreTheorems.FootprintSplit | src/storage.rs:671-680 | the same for every map, whatever the order of the sum |
| StoreTheorems.NoEmptyListEver | src/storage.rs:401-471 | along every run whose pushes carry a value no empty list is stored |
| StoreTheorems.ListsRefineSequences | src/storage.rs:401-471 | the pushes and pops on a key, among any requests that do not write there or evict it and under any limit and policy, give the replies and the contents of a plain sequence that skips refused pushes |
| StoreTheorems.ListMoves | src/storage.rs:422-429 | one push or pop moves the list as it moves the sequence, keeps an existing deadline and changes no other entry |
| StoreTheorems.LrangeIsExact | src/storage.rs:691-713 | for all 64-bit bounds `LRANGE` gives exactly the elements whose position is in range, in order, as `Answers.RangeIsExact` spells out; the ranges (0, i) and (i + 1, -1) make up the list |
| StoreTheorems.PlainLocal | src/storage.rs:153-348 | without a limit replies and effects depend on nothing but the named keys |
| StoreTheorems.ThereUntilDeadline | src/storage.rs:237-252 | after a successful `EXPIRE` or `EXPIREAT` the key exists until the deadline and not from then on; after `PERSIST` always |
| StoreTheorems.DelRemoves | src/storage.rs:196-207 | `DEL` counts the live named keys once each, none exists afterwards, and no other key is touched |
| StoreTheorems.ExistsCountsPlaces | src/storage.rs:209-220 | `EXISTS` counts the places that name a live key, repetitions included |
| StoreTheorems.WrongTypeExactly | src/storage.rs:411-420 | an operation fails for the wrong type exactly when its key holds a live value of the other type |
| StoreTheorems.InspectionIsSorted | src/storage.rs:369-399 | the rows are the first live keys in byte order, each once, up to the limit |
| Storage.MemoryStore.Set | src/storage.rs:153-179 | the whole new state and the reply are those of the store model, for every victim choice |
| Storage.MemoryStore.Push | src/storage.rs:401-445 | likewise for both sides, wrong types, refusals and rollback included |
| Storage.MemoryStore.PushAll | src/storage.rs:422-429 | the push loop ends with the values reversed in front, or in order at the back |
| Storage.MemoryStore.EvictUntilWithinLimit | src/storage.rs:544-563 | terminates for every choice; fails exactly when the protected part alone exceeds the limit, with the map as before; otherwise the rest fits, the removed and the left partition the map and the last removal was needed |
| Storage.MemoryStore.EnforceMemoryLimit | src/storage.rs:523-542 | refuses exactly when the map does not fit and may not or cannot be evicted to fit, leaving it as it was |
| Storage.MemoryStore.PickEvictionKey | src/storage.rs:565-588 | any key but the protected one, none exactly when there is no other |
| Storage.MemoryStore.RestoreEvicted | src/storage.rs:590-594 | puts back every removed entry |
| Storage.MemoryStore.EstimatedMemoryBytes | src/storage.rs:671-676 | the sum over all entries, in every order of visiting; `Accounting.SumsAlongWalk` says which bytes that are |
| Storage.MemoryStore.Get | src/storage.rs:181-194 | state and reply are those of the store model, which `Answers.GetAnswer` describes |
| Storage.MemoryStore.Del | src/storage.rs:196-207 | state and count are those of the store model, through the loop over the keys |
| Storage.MemoryStore.Exists | src/storage.rs:209-220 | likewise, repeated keys counted each time |
| Storage.MemoryStore.Expire | src/storage.rs:222-227 | likewise, with the fallback to the present when the deadline is out of range |
| Storage.MemoryStore.ExpireAtUnix | src/storage.rs:229-235 | likewise for absolute times |
| Storage.MemoryStore.TimeToLive | src/storage.rs:254-271 | likewise |
| Storage.MemoryStore.Persist | src/storage.rs:273-288 | likewise |
| Storage.MemoryStore.CleanupExpired | src/storage.rs:290-302 | drops exactly the expired entries and counts them |
| Storage.MemoryStore.Pop | src/storage.rs:447-471 | likewise for both sides; the last element takes the key with it |
| Storage.MemoryStore.Lrange | src/storage.rs:320-348 | state and reply are those of the store model, which `Answers.RangeIsExact` describes |
| Storage.MemoryStore.NormalizeRange | src/storage.rs:691-713 | for all 64-bit bounds the positions it gives cut out exactly the slice, nothing exactly for an empty one, and no intermediate value overflows |
| Storage.MemoryStore.BuildStats | src/storage.rs:635-669 | the accumulating loop gives every statistic of the map, in every order of visiting; `Accounting.ReportCounts` says what each counts |
| Storage.MemoryStore.Stats | src/storage.rs:350-367 | the statistics after dropping and counting what has expired |
| Storage.MemoryStore.InspectKeys | src/storage.rs:369-399 | state and rows are those of the store model |
| Dashboard.StatsRoundTrip | src/tui.rs:436-465 | parsing the printed statistics recovers all thirteen fields, with no limit as none |
| Dashboard.InspectionRoundTrip | src/tui.rs:467-497 | every inspection reply parses, and a row is recovered if and only if its sizes fit in a signed 64-bit integer |
| TextTheorems.LeqIsLexicographic | src/storage.rs:392 | the order of the rows is decided where two keys first differ |
| TextTheorems.ValidExactly | src/protocol/parser.rs:107-111 | the byte strings accepted as text are exactly the encodings of code points, surrogates excluded |
| ByteStrings.Utf8Concat | src/command.rs:357-359 | valid UTF-8 strings concatenate to valid UTF-8 |
| ByteStrings.UpperKeepsUtf8 | src/command.rs:68-72 | upper-casing ASCII letters keeps a string valid UTF-8 |

## Left out

- Sockets, Tokio tasks, file opening and flushing, directories and log messages: inputs, outputs and the log are byte sequences.
- Failed or partial appends followed by more appends: an append succeeds or is the last thing that happens.
- The `ERR failed to persist command` answer, which only a failed append gives.
- Clocks that move backwards and times before the epoch; the real nanosecond seed of the random choice.
- A start of the server without an append-only file, and more than one connection in `Restart.Run`; `Server` has many connections.
- Several clock readings inside one command, except the reading for the log line of an expiry.
- Allocation failure for huge announced lengths, and machine overflow of byte totals and counters: sizes are unbounded naturals, while parsed numbers, range bounds and deadlines keep their 64-bit ranges.
- The terminal interface beyond its parsers, the client, the command line and its size parser.
- The wording of error answers is modelled; proved about it is that every failure is answered with an error frame and what its first word is. Individual arity errors are covered only by what the parser accepts.
- Random removal of arguments from the front of a vector while parsing: commands are parsed by a function on the sequence of arguments.
- Sorting inspection rows in place: the rows come from a function that takes the least remaining key.
- Recovery.RecoveryEqualsLive: asks that each successful command is safe, that what has expired at a turn is gone for the replay too, and that only keys are evicted that the replay would not keep; `Recovery.CommandRecoversExactly` shows that a command that is not safe is not rebuilt by every replay in the span, and `Losses.LogDecidesExactly` why victims matter.
- Losses.LogDecidesExactly: stated for limits up to the largest signed 64-bit integer, so that the value that fills the memory fits in a frame, and for sessions without deadlines.
- Losses.EvictionIsNotReplayed: stated for the same limits.
- ConcurrentRecovery.ReplayEqualsLive: asks for one writer for each key, no memory limit and no expiries, because execution and append are separate steps; `ConcurrentRecovery.OneWriterExactly` shows that the first is needed.
- StoreTheorems.LazyRefinesEager: asks for no memory limit, because expired entries count until they are purged; `StoreTheorems.LimitTellsLazyFromEager` shows exactly when that matters. The count of purged entries is not part of a compared reply.
- StoreTheorems.ListsRefineSequences: covers sessions in which the deadline of the key is not reached, and in which the key is written by pushes and pops only.
- Dashboard.StatsRoundTrip: asks that every statistic fits in the unsigned 64-bit integer that the server keeps it in.
