/** What each command answers on the wire, said of the entries themselves. */
module Answers {
  import opened ByteStrings
  import opened Frames
  import opened StoreModel
  import StoreTheorems
  import opened Commands
  import opened Report
  import ClientView
  import Accounting

  /** There, and its deadline not reached. */
  predicate Alive(db: Db, key: Key, now: Time) {
    key in db && (db[key].expiresAt.None? || now < db[key].expiresAt.value)
  }

  /** The live entries are those that are alive. */
  lemma LiveIsAlive(db: Db, now: Time)
    ensures forall k: Key :: k in Live(db, now) <==> Alive(db, k, now)
    ensures forall k: Key :: k in Live(db, now) ==> Live(db, now)[k] == db[k]
  {
  }

  /** What an operation on one key finds there. */
  lemma Finds(s: Store, op: Op, key: Key, now: Time)
    requires Named(op) == {key} && !VisitsAll(op)
    ensures var db := Visit(s, op, now).db;
            (key in db <==> Alive(s.db, key, now)) && (key in db ==> db[key] == s.db[key])
  {
  }

  /** A reply and the frame that it is sent as. */
  lemma OnWire(cfg: StoreConfig, s: Store, command: Command, op: Op, now: Time, victims: set<Key>, reply: Reply,
               answer: Parsed<Frame>)
    requires OpOf(command) == Some(op) && Apply(cfg, s, op, now, victims).reply == reply
    requires ReplyFrame(command, reply) == answer
    ensures Executed(cfg, s, command, now, victims).1 == answer
  {
    ClientView.Answers(cfg, s, command, op, now, victims, reply);
  }

  // ---- GET ----

  lemma GetReply(cfg: StoreConfig, s: Store, key: Key, now: Time)
    ensures Apply(cfg, s, Op.Get(key), now, {}).reply ==
            if !Alive(s.db, key, now) then Found(None)
            else match s.db[key].value case Text(v) => Found(Some(v)) case List(_) => Failed(WrongType)
  {
    Finds(s, Op.Get(key), key, now);
  }

  /** The null bulk string for a key that is not alive, the text of one that is, and an error
      for a list. */
  lemma GetAnswer(cfg: StoreConfig, s: Store, key: Key, now: Time)
    ensures Executed(cfg, s, Command.Get(key), now, {}).1 ==
            if !Alive(s.db, key, now) then Ok(Null)
            else match s.db[key].value case Text(v) => Ok(Bulk(v)) case List(_) => Err(WrongTypeError)
  {
    GetReply(cfg, s, key, now);
    var reply := Apply(cfg, s, Op.Get(key), now, {}).reply;
    FoundFrame(Command.Get(key), reply);
    OnWire(cfg, s, Command.Get(key), Op.Get(key), now, {}, reply, ReplyFrame(Command.Get(key), reply));
  }

  // ---- LRANGE ----

  /** The elements at the positions from `lo` to `hi` that exist, all and only those, in order. */
  ghost predicate IsRange(e: seq<Bytes>, items: seq<Bytes>, lo: int, hi: int) {
    var first := if lo < 0 then 0 else lo;
    && (forall j :: 0 <= j < |e| ==> first + j < |items| && first + j <= hi && e[j] == items[first + j])
    && (forall p :: 0 <= p < |items| && lo <= p <= hi ==> first <= p < first + |e| && e[p - first] == items[p])
  }

  lemma BetweenIsRange(items: seq<Bytes>, lo: int, hi: int)
    ensures IsRange(Between(items, lo, hi), items, lo, hi)
  {
  }

  lemma SliceIsRange(items: seq<Bytes>, start: i64, stop: i64)
    ensures IsRange(Slice(items, start, stop), items,
                    if start < 0 then |items| + start else start, if stop < 0 then |items| + stop else stop)
  {
    BetweenIsRange(items, if start < 0 then |items| + start else start, if stop < 0 then |items| + stop else stop);
  }

  function RangeFound(db: Db, key: Key, start: i64, stop: i64, now: Time): Reply {
    if !Alive(db, key, now) then Elements([])
    else match db[key].value
         case Text(_) => Failed(WrongType)
         case List(items) => Elements(Slice(items, start, stop))
  }

  lemma RangeReply(cfg: StoreConfig, s: Store, key: Key, start: i64, stop: i64, now: Time)
    ensures Apply(cfg, s, Op.Lrange(key, start, stop), now, {}).reply == RangeFound(s.db, key, start, stop, now)
  {
    Finds(s, Op.Lrange(key, start, stop), key, now);
  }

  lemma RangeFrame(command: Command, reply: Reply)
    requires reply.Elements? || reply == Failed(WrongType)
    ensures ReplyFrame(command, reply) ==
            if reply.Elements? then Ok(Array(Bulks(reply.items))) else Err(WrongTypeError)
  {
  }

  /** Of a list that is alive, `LRANGE` gives exactly the elements between the two bounds, a
      negative one counted from the end. */
  lemma RangeIsExact(cfg: StoreConfig, s: Store, key: Key, start: i64, stop: i64, now: Time, items: seq<Bytes>)
    returns (e: seq<Bytes>)
    requires Alive(s.db, key, now) && s.db[key].value == List(items)
    ensures Apply(cfg, s, Op.Lrange(key, start, stop), now, {}).reply == Elements(e)
    ensures IsRange(e, items, if start < 0 then |items| + start else start, if stop < 0 then |items| + stop else stop)
  {
    e := Slice(items, start, stop);
    RangeReply(cfg, s, key, start, stop, now);
    SliceIsRange(items, start, stop);
  }

  /** No elements for a key that is not alive, an error for a text, and of a list the elements
      that `RangeIsExact` says. */
  lemma RangeAnswer(cfg: StoreConfig, s: Store, command: Command, now: Time, reply: Reply)
    requires command.Lrange? && reply == RangeFound(s.db, command.key, command.start, command.stop, now)
    ensures Executed(cfg, s, command, now, {}).1 ==
            if reply.Elements? then Ok(Array(Bulks(reply.items))) else Err(WrongTypeError)
  {
    RangeReply(cfg, s, command.key, command.start, command.stop, now);
    RangeFrame(command, reply);
    OnWire(cfg, s, command, OpOf(command).value, now, {}, reply, ReplyFrame(command, reply));
  }

  // ---- LPOP, RPOP ----

  lemma PopReply(cfg: StoreConfig, s: Store, key: Key, side: Side, now: Time)
    ensures Apply(cfg, s, Op.Pop(key, side), now, {}).reply == Popped(s.db, key, side, now)
  {
    Finds(s, Op.Pop(key, side), key, now);
  }

  /** What is left under the key: the other elements, with the old deadline, or nothing. */
  lemma PopLeaves(cfg: StoreConfig, s: Store, key: Key, side: Side, now: Time, items: seq<Bytes>)
    requires Alive(s.db, key, now) && s.db[key].value == List(items)
    ensures var after := Apply(cfg, s, Op.Pop(key, side), now, {}).store.db;
            if |items| <= 1 then key !in after
            else key in after && after[key] ==
                 s.db[key].(value := List(if side.Left? then items[1..] else items[..|items| - 1]))
  {
    Finds(s, Op.Pop(key, side), key, now);
  }

  lemma FoundFrame(command: Command, reply: Reply)
    requires reply.Found? || reply == Failed(WrongType)
    ensures ReplyFrame(command, reply) ==
            if reply.Failed? then Err(WrongTypeError)
            else match reply.value case Some(v) => Ok(Bulk(v)) case None => Ok(Null)
  {
  }

  function Popped(db: Db, key: Key, side: Side, now: Time): Reply {
    if !Alive(db, key, now) then Found(None)
    else match db[key].value
         case Text(_) => Failed(WrongType)
         case List(items) =>
           if items == [] then Found(None)
           else Found(Some(if side.Left? then items[0] else items[|items| - 1]))
  }

  /** The null bulk string for a key that is not alive, the first or the last element of a
      list, and an error for a text. */
  lemma PopAnswer(cfg: StoreConfig, s: Store, command: Command, now: Time, reply: Reply)
    requires command.Lpop? || command.Rpop?
    requires reply == Popped(s.db, command.key, if command.Lpop? then Left else Right, now)
    ensures Executed(cfg, s, command, now, {}).1 ==
            if reply.Failed? then Err(WrongTypeError)
            else match reply.value case Some(v) => Ok(Bulk(v)) case None => Ok(Null)
  {
    var op := Op.Pop(command.key, if command.Lpop? then Left else Right);
    PopReply(cfg, s, command.key, op.side, now);
    FoundFrame(command, reply);
    OnWire(cfg, s, command, op, now, {}, reply, ReplyFrame(command, reply));
  }

  // ---- SET, LPUSH, RPUSH ----

  /** A `SET` is answered with OK, or refused for memory. */
  lemma SetAnswer(cfg: StoreConfig, s: Store, key: Key, value: Bytes, now: Time, victims: set<Key>)
    ensures Executed(cfg, s, Command.Set(key, value), now, victims).1
            in {Ok(Simple(Ascii("OK"))), Err(OutOfMemoryError)}
  {
    StoreTheorems.WriteAdmitted(cfg, Visit(s, Op.Set(key, value), now), Op.Set(key, value),
                                Write(key, Entry(Text(value), None), Done), now, victims);
  }

  lemma PushAttempted(s: Store, op: Op, now: Time)
    requires op.Push?
    ensures var attempt := Attempt(Visit(s, op, now).db, op);
            if !Alive(s.db, op.key, now) then
              attempt.Some? && attempt.value.reply == Count(|op.values|)
            else match s.db[op.key].value
                 case Text(_) => attempt == None
                 case List(items) => attempt.Some? && attempt.value.reply == Count(|items| + |op.values|)
  {
    Finds(s, op, op.key, now);
  }

  /** How many items the list has that is alive under the key. */
  function LengthAt(db: Db, key: Key, now: Time): nat {
    if Alive(db, key, now) && db[key].value.List? then |db[key].value.items| else 0
  }

  /** The new length, a refusal for memory, or an error for a text. */
  ghost predicate PushReplies(reply: Reply, n: nat, text: bool) {
    if text then reply == Failed(WrongType) else reply == Count(n) || reply == Failed(OutOfMemory)
  }

  ghost predicate PushAnswers(answer: Parsed<Frame>, n: i64, text: bool) {
    if text then answer == Err(WrongTypeError) else answer == Ok(Integer(n)) || answer == Err(OutOfMemoryError)
  }

  lemma PushReply(cfg: StoreConfig, s: Store, op: Op, now: Time, victims: set<Key>)
    requires op.Push?
    ensures PushReplies(Apply(cfg, s, op, now, victims).reply, LengthAt(s.db, op.key, now) + |op.values|,
                        Alive(s.db, op.key, now) && s.db[op.key].value.Text?)
  {
    PushAttempted(s, op, now);
    var v := Visit(s, op, now);
    if Attempt(v.db, op).Some? {
      StoreTheorems.WriteAdmitted(cfg, v, op, Attempt(v.db, op).value, now, victims);
    }
  }

  /** A push is answered with the new length, refused for memory, or an error for a text. */
  lemma PushAnswer(cfg: StoreConfig, s: Store, command: Command, now: Time, victims: set<Key>)
    requires command.Lpush? || command.Rpush?
    requires LengthAt(s.db, command.key, now) + |command.values| <= I64_MAX
    ensures PushAnswers(Executed(cfg, s, command, now, victims).1,
                        LengthAt(s.db, command.key, now) + |command.values|,
                        Alive(s.db, command.key, now) && s.db[command.key].value.Text?)
  {
    var op := Push(command.key, command.values, if command.Lpush? then Left else Right);
    var text := Alive(s.db, command.key, now) && s.db[command.key].value.Text?;
    PushReply(cfg, s, op, now, victims);
    PushSent(cfg, s, command, op, now, victims, LengthAt(s.db, command.key, now) + |command.values|, text);
  }

  lemma PushSent(cfg: StoreConfig, s: Store, command: Command, op: Op, now: Time, victims: set<Key>, n: i64,
                 text: bool)
    requires OpOf(command) == Some(op) && n >= 0
    requires PushReplies(Apply(cfg, s, op, now, victims).reply, n, text)
    ensures PushAnswers(Executed(cfg, s, command, now, victims).1, n, text)
  {
    var reply := Apply(cfg, s, op, now, victims).reply;
    PushFrame(command, reply, n, text);
    OnWire(cfg, s, command, op, now, victims, reply, ReplyFrame(command, reply));
  }

  lemma PushFrame(command: Command, reply: Reply, n: i64, text: bool)
    requires n >= 0 && PushReplies(reply, n, text)
    ensures PushAnswers(ReplyFrame(command, reply), n, text)
  {
  }

  // ---- DEL, EXISTS ----

  function Alives(keys: seq<Key>, db: Db, now: Time): set<Key> {
    set k: Key | k in keys && Alive(db, k, now)
  }

  function AlivePlaces(keys: seq<Key>, db: Db, now: Time): set<int> {
    set i | 0 <= i < |keys| && Alive(db, keys[i], now)
  }

  lemma DelReply(cfg: StoreConfig, s: Store, keys: seq<Key>, now: Time)
    ensures Apply(cfg, s, Op.Del(keys), now, {}).reply == Count(|Alives(keys, s.db, now)|)
    ensures Apply(cfg, s, Op.Del(keys), now, {}).store.db == Without(s.db, keys)
  {
    StoreTheorems.DelStep(cfg, s, keys, now);
    AlivesAre(keys, s.db, now);
  }

  function Without(db: Db, keys: seq<Key>): Db {
    map k: Key | k in db && k !in keys :: db[k]
  }

  lemma AlivesAre(keys: seq<Key>, db: Db, now: Time)
    ensures Live(db, now).Keys * KeySet(keys) == Alives(keys, db, now)
    ensures db - KeySet(keys) == Without(db, keys)
  {
  }

  /** A deletion is answered with the number of keys that were alive, each counted once; what
      is left is everything else. */
  lemma DelAnswer(cfg: StoreConfig, s: Store, keys: seq<Key>, now: Time)
    requires |Alives(keys, s.db, now)| <= I64_MAX
    ensures Executed(cfg, s, Command.Del(keys), now, {}).1 == Ok(Integer(|Alives(keys, s.db, now)|))
    ensures Executed(cfg, s, Command.Del(keys), now, {}).0.db == Without(s.db, keys)
  {
    var n := |Alives(keys, s.db, now)|;
    DelReply(cfg, s, keys, now);
    CountFrame(Command.Del(keys), n);
    OnWire(cfg, s, Command.Del(keys), Op.Del(keys), now, {}, Count(n), Ok(Integer(n)));
  }

  lemma CountFrame(command: Command, n: nat)
    requires n <= I64_MAX
    ensures ReplyFrame(command, Count(n)) == Ok(Integer(n))
  {
  }

  lemma ExistsReply(cfg: StoreConfig, s: Store, keys: seq<Key>, now: Time)
    ensures Apply(cfg, s, Op.Exists(keys), now, {}).reply == Count(|AlivePlaces(keys, s.db, now)|)
  {
    StoreTheorems.ExistsCountsPlaces(cfg, s, keys, now);
    assert StoreTheorems.Places(keys, Live(s.db, now)) == AlivePlaces(keys, s.db, now);
  }

  /** `EXISTS` is answered with the number of places that name a key that is alive. */
  lemma ExistsAnswer(cfg: StoreConfig, s: Store, keys: seq<Key>, now: Time)
    requires |AlivePlaces(keys, s.db, now)| <= I64_MAX
    ensures Executed(cfg, s, Command.Exists(keys), now, {}).1 == Ok(Integer(|AlivePlaces(keys, s.db, now)|))
  {
    var n := |AlivePlaces(keys, s.db, now)|;
    ExistsReply(cfg, s, keys, now);
    CountFrame(Command.Exists(keys), n);
    OnWire(cfg, s, Command.Exists(keys), Op.Exists(keys), now, {}, Count(n), Ok(Integer(n)));
  }

  // ---- EXPIRE, EXPIREAT, PERSIST, TTL ----

  /** The deadline that an expiry asks for; the present when the clock cannot hold it. */
  function Asked(command: Command, now: Time): int
    requires command.Expire? || command.ExpireAt?
  {
    var t := if command.Expire? then now + command.seconds * 1_000_000_000 else command.unixSeconds * 1_000_000_000;
    if t <= 0x7FFF_FFFF_FFFF_FFFF * 1_000_000_000 + 999_999_999 then t else now
  }

  lemma ExpireReply(cfg: StoreConfig, s: Store, command: Command, op: Op, now: Time)
    requires (command.Expire? || command.ExpireAt?) && OpOf(command) == Some(op)
    ensures Apply(cfg, s, op, now, {}).reply == Flag(Alive(s.db, command.key, now))
    ensures var after := Apply(cfg, s, op, now, {}).store.db;
            if !Alive(s.db, command.key, now) || Asked(command, now) <= now then command.key !in after
            else command.key in after &&
                 after[command.key] == Entry(s.db[command.key].value, Some(Asked(command, now)))
  {
    Finds(s, op, command.key, now);
  }

  /** An expiry is answered with 1 or 0 as the key is alive or not; it deletes the key if its
      deadline is reached already, and dates it otherwise. */
  lemma ExpireAnswer(cfg: StoreConfig, s: Store, command: Command, now: Time)
    requires command.Expire? || command.ExpireAt?
    ensures var (after, answer) := Executed(cfg, s, command, now, {});
            && answer == Ok(Integer(if Alive(s.db, command.key, now) then 1 else 0))
            && if !Alive(s.db, command.key, now) || Asked(command, now) <= now then command.key !in after.db
               else command.key in after.db &&
                    after.db[command.key] == Entry(s.db[command.key].value, Some(Asked(command, now)))
  {
    ExpireReply(cfg, s, command, OpOf(command).value, now);
    ClientView.Answers(cfg, s, command, OpOf(command).value, now, {}, Flag(Alive(s.db, command.key, now)));
  }

  lemma PersistReply(cfg: StoreConfig, s: Store, key: Key, now: Time)
    ensures Apply(cfg, s, Op.Persist(key), now, {}).reply ==
            Flag(Alive(s.db, key, now) && s.db[key].expiresAt.Some?)
    ensures var after := Apply(cfg, s, Op.Persist(key), now, {}).store.db;
            if Alive(s.db, key, now) then key in after && after[key] == Entry(s.db[key].value, None)
            else key !in after
  {
    Finds(s, Op.Persist(key), key, now);
  }

  /** `PERSIST` is answered with 1 exactly for a key that is alive and dated; the key is then
      there without a deadline. */
  lemma PersistAnswer(cfg: StoreConfig, s: Store, key: Key, now: Time)
    ensures var (after, answer) := Executed(cfg, s, Command.Persist(key), now, {});
            && answer == Ok(Integer(if Alive(s.db, key, now) && s.db[key].expiresAt.Some? then 1 else 0))
            && if Alive(s.db, key, now) then key in after.db && after.db[key] == Entry(s.db[key].value, None)
               else key !in after.db
  {
    PersistReply(cfg, s, key, now);
    ClientView.Answers(cfg, s, Command.Persist(key), Op.Persist(key), now, {},
                       Flag(Alive(s.db, key, now) && s.db[key].expiresAt.Some?));
  }

  lemma TtlReply(cfg: StoreConfig, s: Store, key: Key, now: Time)
    ensures Apply(cfg, s, TtlOf(key), now, {}).reply == Lifetime(
              if !Alive(s.db, key, now) then Missing
              else if s.db[key].expiresAt.None? then NoExpiration
              else Seconds((s.db[key].expiresAt.value - now) / 1_000_000_000))
  {
    Finds(s, TtlOf(key), key, now);
  }

  /** -2 for a key that is not alive, -1 for one without a deadline, and otherwise the whole
      seconds that are left. */
  lemma TtlAnswer(cfg: StoreConfig, s: Store, key: Key, now: Time)
    ensures var answer := Executed(cfg, s, Command.Ttl(key), now, {}).1;
            if !Alive(s.db, key, now) then answer == Ok(Integer(-2))
            else match s.db[key].expiresAt
                 case None => answer == Ok(Integer(-1))
                 case Some(deadline) => answer == Ok(Integer((deadline - now) / 1_000_000_000))
  {
    TtlReply(cfg, s, key, now);
    ClientView.Answers(cfg, s, Command.Ttl(key), TtlOf(key), now, {}, Apply(cfg, s, TtlOf(key), now, {}).reply);
  }

  // ---- PING, ECHO, the reports ----

  /** Commands that touch nothing. */
  lemma ImmediateAnswers(cfg: StoreConfig, s: Store, message: Bytes, now: Time)
    ensures Executed(cfg, s, Ping(None), now, {}) == (s, Ok(Simple(Ascii("PONG"))))
    ensures Executed(cfg, s, Ping(Some(message)), now, {}) == (s, Ok(Bulk(message)))
    ensures Executed(cfg, s, Echo(message), now, {}) == (s, Ok(Bulk(message)))
  {
  }

  /** The number of keys; `Accounting.ReportCounts` says what a report counts. */
  lemma DbSizeFrame(stats: StoreStats)
    requires stats.totalKeys <= I64_MAX
    ensures OpOf(DbSize) == Some(Op.Stats) && ReplyFrame(DbSize, Snapshot(stats)) == Ok(Integer(stats.totalKeys))
  {
  }

  lemma ReportOp(command: Command)
    requires command.Info? || command.AerugoStats?
    ensures OpOf(command) == Some(Op.Stats)
  {
  }

  /** `INFO` and `AERUGO.STATS` are answered with the printed report. */
  lemma InfoFrame(command: Command, reply: Reply)
    requires (command.Info? || command.AerugoStats?) && reply.Snapshot?
    ensures ReplyFrame(command, reply) == Ok(Bulk(FormatStats(reply.stats)))
  {
  }

  /** A row of the inspection tells the key, its kind, the seconds left or -1, the bytes of its
      value, what it takes, and how many items it has. */
  lemma RowTells(key: Key, entry: Entry, now: Time)
    requires entry.expiresAt.Some? ==> now < entry.expiresAt.value
    ensures var row := RowOf(key, entry, now);
            && row.key == key
            && row.typeName == (if entry.value.Text? then Ascii("string") else Ascii("list"))
            && row.ttlSeconds ==
               (if entry.expiresAt.None? then -1 else (entry.expiresAt.value - now) / 1_000_000_000)
            && row.payloadBytes == |Accounting.Payload(entry)|
            && row.estimatedBytes == Accounting.Taken(key, entry)
            && row.listItems == |Accounting.Items(entry)|
  {
    Accounting.EntryTakes(key, entry);
    Accounting.EntryCounts(key, entry);
  }

  /** A sweep counts what it drops: every entry whose deadline is reached, and no other. */
  lemma SweepDrops(cfg: StoreConfig, s: Store, now: Time)
    ensures var o := Apply(cfg, s, Sweep, now, {});
            && o.reply == Count(|set k: Key | k in s.db && !Alive(s.db, k, now)|)
            && o.store.db == (map k: Key | k in s.db && Alive(s.db, k, now) :: s.db[k])
            && o.store.expired == s.expired + |set k: Key | k in s.db && !Alive(s.db, k, now)|
            && o.store.evicted == s.evicted && o.store.rejected == s.rejected
  {
    assert s.db.Keys - Live(s.db, now).Keys == set k: Key | k in s.db && !Alive(s.db, k, now);
    assert Live(s.db, now) == map k: Key | k in s.db && Alive(s.db, k, now) :: s.db[k];
  }

  // ---- what operations leave alone ----

  function DeadKeys(db: Db, now: Time): set<Key> {
    set k: Key | k in db && !Alive(db, k, now)
  }

  lemma VisitCounts(s: Store, op: Op, now: Time)
    ensures Visit(s, op, now).expired ==
            s.expired + if op.Stats? || op.Sweep? || (op.Inspect? && op.limit != 0) then |DeadKeys(s.db, now)| else 0
  {
    assert s.db.Keys - Live(s.db, now).Keys == DeadKeys(s.db, now);
  }

  /** Only a report, an inspection that may show a row, and a sweep count what has expired. */
  lemma ExpiredMoves(cfg: StoreConfig, s: Store, op: Op, now: Time, victims: set<Key>)
    ensures Apply(cfg, s, op, now, victims).store.expired ==
            s.expired + if op.Stats? || op.Sweep? || (op.Inspect? && op.limit != 0) then |DeadKeys(s.db, now)| else 0
  {
    VisitCounts(s, op, now);
    PlainKeepsExpired(cfg, Visit(s, op, now), op, now, victims);
  }

  lemma PlainKeepsExpired(cfg: StoreConfig, s: Store, op: Op, now: Time, victims: set<Key>)
    ensures Plain(cfg, s, op, now, victims).store.expired == s.expired
  {
  }

  lemma ReadsChangeNothing(cfg: StoreConfig, s: Store, op: Op, now: Time)
    requires op.Get? || op.TtlOf? || op.Lrange? || op.Exists?
    ensures Plain(cfg, s, op, now, {}).store == s
  {
  }

  lemma Purged(db: Db, keys: set<Key>, now: Time, k: Key)
    ensures var after := Purge(db, keys, now);
            && (k in after <==> k in db && (Alive(db, k, now) || k !in keys))
            && (k in after ==> after[k] == db[k])
  {
  }

  lemma LooksAtNamed(op: Op, k: Key)
    requires op.Get? || op.TtlOf? || op.Lrange? || op.Exists?
    ensures LooksAt(op, k) <==> k in Named(op)
  {
  }

  lemma ReadsVisit(s: Store, op: Op, now: Time, k: Key)
    requires op.Get? || op.TtlOf? || op.Lrange? || op.Exists?
    ensures var after := Visit(s, op, now);
            && (k in after.db <==> k in s.db && (Alive(s.db, k, now) || !LooksAt(op, k)))
            && (k in after.db ==> after.db[k] == s.db[k])
            && after == s.(db := after.db)
  {
    LooksAtNamed(op, k);
    Purged(s.db, Named(op), now, k);
  }

  /** A read changes no entry, and drops what it looked at exactly if that has expired. */
  lemma ReadsOnlyDrop(cfg: StoreConfig, s: Store, op: Op, now: Time, k: Key)
    requires op.Get? || op.TtlOf? || op.Lrange? || op.Exists?
    ensures var after := Apply(cfg, s, op, now, {}).store;
            && (k in after.db <==> k in s.db && (Alive(s.db, k, now) || !LooksAt(op, k)))
            && (k in after.db ==> after.db[k] == s.db[k])
            && after == s.(db := after.db)
  {
    ReadsVisit(s, op, now, k);
    ReadsChangeNothing(cfg, Visit(s, op, now), op, now);
  }

  function LooksAt(op: Op, k: Key): bool
    requires op.Get? || op.TtlOf? || op.Lrange? || op.Exists?
  {
    if op.Exists? then k in op.keys else k == op.key
  }

  /** A report and an inspection that may show a row leave exactly the entries that are alive. */
  lemma ReportsOnlyDrop(cfg: StoreConfig, s: Store, op: Op, now: Time)
    requires op.Stats? || op.Inspect?
    ensures Apply(cfg, s, op, now, {}).store.db ==
            if op.Inspect? && op.limit == 0 then s.db else map k: Key | k in s.db && Alive(s.db, k, now) :: s.db[k]
  {
    assert Live(s.db, now) == map k: Key | k in s.db && Alive(s.db, k, now) :: s.db[k];
    assert Purge(s.db, {}, now) == s.db;
  }

  /** A key that an operation does not name and does not evict keeps its entry. */
  lemma OthersUntouched(cfg: StoreConfig, s: Store, op: Op, now: Time, victims: set<Key>, k: Key)
    requires !op.Stats? && !op.Inspect? && !op.Sweep? && k !in victims
    requires if op.Del? || op.Exists? then k !in op.keys else k != op.key
    ensures var after := Apply(cfg, s, op, now, victims).store.db;
            (k in after <==> k in s.db) && (k in after ==> after[k] == s.db[k])
  {
    var v := Visit(s, op, now);
    assert (k in v.db <==> k in s.db) && (k in v.db ==> v.db[k] == s.db[k]);
    if op.Set? || op.Push? {
      WritesSpare(cfg, v, op, now, victims, k);
    } else {
      ChangesSpare(cfg, v, op, now, k);
    }
  }

  lemma WritesSpare(cfg: StoreConfig, s: Store, op: Op, now: Time, victims: set<Key>, k: Key)
    requires (op.Set? || op.Push?) && k != op.key && k !in victims
    ensures var after := Plain(cfg, s, op, now, victims).store.db;
            (k in after <==> k in s.db) && (k in after ==> after[k] == s.db[k])
  {
    if Attempt(s.db, op).Some? {
      CommitSpares(cfg, s, Attempt(s.db, op).value, victims, k);
    }
  }

  lemma CommitSpares(cfg: StoreConfig, s: Store, w: Write, victims: set<Key>, k: Key)
    requires k != w.key && k !in victims
    ensures var after := Commit(cfg, s, w, victims).store.db;
            (k in after <==> k in s.db) && (k in after ==> after[k] == s.db[k])
  {
  }

  lemma ChangesSpare(cfg: StoreConfig, s: Store, op: Op, now: Time, k: Key)
    requires !op.Set? && !op.Push? && !op.Stats? && !op.Inspect? && !op.Sweep?
    requires if op.Del? || op.Exists? then k !in op.keys else k != op.key
    ensures var after := Plain(cfg, s, op, now, {}).store.db;
            (k in after <==> k in s.db) && (k in after ==> after[k] == s.db[k])
  {
  }
}
