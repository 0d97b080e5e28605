/** What a client sees when one command follows another on the same store. */
module ClientView {
  import opened ByteStrings
  import opened Frames
  import opened StoreModel
  import StoreTheorems
  import opened Commands

  lemma Answers(cfg: StoreConfig, s: Store, command: Command, op: Op, now: Time, victims: set<Key>, reply: Reply)
    requires OpOf(command) == Some(op) && Apply(cfg, s, op, now, victims).reply == reply
    ensures Executed(cfg, s, command, now, victims).1 == ReplyFrame(command, reply)
    ensures Executed(cfg, s, command, now, victims).0 == Apply(cfg, s, op, now, victims).store
  {
  }

  lemma SetStores(cfg: StoreConfig, s: Store, op: Op, now: Time, victims: set<Key>)
    requires op.Set? && Chosen(cfg, Visit(s, op, now).db, op, victims)
    requires !Apply(cfg, s, op, now, victims).reply.Failed?
    ensures var s' := Apply(cfg, s, op, now, victims).store;
            op.key in s'.db && s'.db[op.key] == Entry(Text(op.value), None)
  {
    var e := StoreTheorems.Event(op, now, victims);
    StoreTheorems.WriteOutcome(cfg, s, e, Write(op.key, Entry(Text(op.value), None), Done));
  }

  lemma GetAnswers(cfg: StoreConfig, s: Store, key: Key, value: Bytes, t: Time)
    requires key in s.db && s.db[key] == Entry(Text(value), None)
    ensures Executed(cfg, s, Command.Get(key), t, {}).1 == Ok(Bulk(value))
    ensures Executed(cfg, s, Command.Ttl(key), t, {}).1 == Ok(Integer(-1))
  {
    StoreTheorems.FoundAt(cfg, s, key, value, t);
    Answers(cfg, s, Command.Get(key), Op.Get(key), t, {}, Found(Some(value)));
    Answers(cfg, s, Command.Ttl(key), TtlOf(key), t, {}, Lifetime(NoExpiration));
  }

  /** `GET` returns what `SET` stored, at any later time, and `TTL` no deadline. */
  lemma GetReturnsWhatWasSet(cfg: StoreConfig, s: Store, s': Store, key: Key, value: Bytes,
                             now: Time, victims: set<Key>, answer: Frame, t: Time)
    requires ChosenFor(cfg, s, Command.Set(key, value), now, victims)
    requires Executed(cfg, s, Command.Set(key, value), now, victims) == (s', Ok(answer))
    ensures Executed(cfg, s', Command.Get(key), t, {}).1 == Ok(Bulk(value))
    ensures Executed(cfg, s', Command.Ttl(key), t, {}).1 == Ok(Integer(-1))
  {
    SetStores(cfg, s, Op.Set(key, value), now, victims);
    GetAnswers(cfg, s', key, value, t);
  }

  /** The list that a client can see under a key. */
  function VisibleList(db: Db, key: Key, now: Time): seq<Bytes> {
    StoreTheorems.ListAt(Live(db, now), key)
  }

  lemma RangeOf(cfg: StoreConfig, s: Store, key: Key, items: seq<Bytes>, t: Time)
    requires key in s.db && s.db[key].value == List(items) && !s.db[key].Expired(t)
    ensures Apply(cfg, s, Op.Lrange(key, 0, -1), t, {}).reply == Elements(items)
  {
    StoreTheorems.PurgeOne(s.db, key, t);
    assert items != [] ==> items[0..|items|] == items;
  }

  lemma RangeAnswers(cfg: StoreConfig, s: Store, key: Key, items: seq<Bytes>, t: Time)
    requires key in s.db && s.db[key].value == List(items) && !s.db[key].Expired(t)
    ensures Executed(cfg, s, Command.Lrange(key, 0, -1), t, {}).1 == Ok(Array(Bulks(items)))
  {
    RangeOf(cfg, s, key, items, t);
    Answers(cfg, s, Command.Lrange(key, 0, -1), Op.Lrange(key, 0, -1), t, {}, Elements(items));
  }

  lemma PushAttempt(db: Db, op: Op, now: Time)
    requires op.Push? && Attempt(Purge(db, {op.key}, now), op).Some?
    ensures var w := Attempt(Purge(db, {op.key}, now), op).value;
            && w.key == op.key && w.reply.Count? && !w.entry.Expired(now)
            && w.entry.value == List(Pushed(VisibleList(db, op.key, now), op.values, op.side))
  {
    StoreTheorems.PurgeOne(db, op.key, now);
  }

  lemma PushStores(cfg: StoreConfig, s: Store, op: Op, now: Time, victims: set<Key>)
    requires op.Push? && Chosen(cfg, Visit(s, op, now).db, op, victims)
    requires !Apply(cfg, s, op, now, victims).reply.Failed?
    ensures var s' := Apply(cfg, s, op, now, victims).store;
            && op.key in s'.db && s'.db[op.key].value ==
                List(Pushed(VisibleList(s.db, op.key, now), op.values, op.side))
            && !s'.db[op.key].Expired(now)
  {
    assert Visit(s, op, now).db == Purge(s.db, {op.key}, now);
    assert Attempt(Visit(s, op, now).db, op).Some?;
    PushAttempt(s.db, op, now);
    var w := Attempt(Visit(s, op, now).db, op).value;
    StoreTheorems.WriteOutcome(cfg, s, StoreTheorems.Event(op, now, victims), w);
  }

  /** After `LPUSH` the whole range is the pushed values reversed, then the list as it was
      seen; after `RPUSH` the list, then the values in order. */
  lemma RangeReturnsWhatWasPushed(cfg: StoreConfig, s: Store, s': Store, command: Command, now: Time,
                                  victims: set<Key>, answer: Frame)
    requires command.Lpush? || command.Rpush?
    requires ChosenFor(cfg, s, command, now, victims) && Executed(cfg, s, command, now, victims) == (s', Ok(answer))
    ensures var before := VisibleList(s.db, command.key, now);
            Executed(cfg, s', Command.Lrange(command.key, 0, -1), now, {}).1 ==
            Ok(Array(Bulks(if command.Lpush? then Reverse(command.values) + before else before + command.values)))
  {
    var before := VisibleList(s.db, command.key, now);
    PushExecuted(cfg, s, s', command, OpOf(command).value, now, victims, answer);
    RangeAnswers(cfg, s', command.key,
                 if command.Lpush? then Reverse(command.values) + before else before + command.values, now);
  }

  lemma PushExecuted(cfg: StoreConfig, s: Store, s': Store, command: Command, op: Op, now: Time, victims: set<Key>,
                     answer: Frame)
    requires OpOf(command) == Some(op) && op.Push?
    requires ChosenFor(cfg, s, command, now, victims) && Executed(cfg, s, command, now, victims) == (s', Ok(answer))
    ensures op.key in s'.db && !s'.db[op.key].Expired(now)
    ensures s'.db[op.key].value == List(Pushed(VisibleList(s.db, op.key, now), op.values, op.side))
  {
    PushStores(cfg, s, op, now, victims);
  }

  lemma TtlOfLive(cfg: StoreConfig, s: Store, key: Key, now: Time)
    ensures Apply(cfg, s, TtlOf(key), now, {}).reply == Lifetime(
              if key !in Live(s.db, now) then Missing
              else if s.db[key].expiresAt.None? then NoExpiration
              else Seconds((s.db[key].expiresAt.value - now) / SECOND))
  {
    StoreTheorems.PurgeOne(s.db, key, now);
  }

  /** The three kinds of answer to `TTL`. */
  lemma TtlTellsApart(cfg: StoreConfig, s: Store, key: Key, now: Time)
    ensures var answer := Executed(cfg, s, Command.Ttl(key), now, {}).1;
            && (answer == Ok(Integer(-2)) <==> key !in Live(s.db, now))
            && (answer == Ok(Integer(-1)) <==> key in Live(s.db, now) && s.db[key].expiresAt.None?)
            && (key in Live(s.db, now) && s.db[key].expiresAt.Some? ==>
                  answer == Ok(Integer((s.db[key].expiresAt.value - now) / SECOND)))
  {
    TtlOfLive(cfg, s, key, now);
    Answers(cfg, s, Command.Ttl(key), TtlOf(key), now, {}, Apply(cfg, s, TtlOf(key), now, {}).reply);
  }
}
