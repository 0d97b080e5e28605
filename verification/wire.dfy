/** The wire and the configuration, spelled out: the text of every frame, what a line announces,
    and names in any letter case. */
module Wire {
  import opened ByteStrings
  import opened Decimal
  import opened Frames
  import opened Encoder
  import opened Parser
  import opened CodecTheorems
  import StoreModel
  import opened Commands

  // ---- the text of frames ----

  lemma Marks()
    ensures [PLUS] == Ascii("+") && [DASH] == Ascii("-") && [COLON] == Ascii(":")
    ensures [DOLLAR] == Ascii("$") && [STAR] == Ascii("*") && CRLF == Ascii("\r\n")
    ensures [DOLLAR, 45, 49] + CRLF == Ascii("$-1\r\n")
  {
  }

  /** The text of a frame: its mark, its content or length, and the end of the line. */
  lemma TextOf(f: Frame)
    ensures Encode(f) ==
            match f
            case Simple(text) => Ascii("+") + text + Ascii("\r\n")
            case Error(message) => Ascii("-") + message + Ascii("\r\n")
            case Integer(n) => Ascii(":") + PrintInt(n) + Ascii("\r\n")
            case Bulk(bytes) => Ascii("$") + PrintNat(|bytes|) + Ascii("\r\n") + bytes + Ascii("\r\n")
            case Null => Ascii("$-1\r\n")
            case Array(items) => Ascii("*") + PrintNat(|items|) + Ascii("\r\n") + EncodeAll(items)
  {
    Marks();
  }

  // ---- what a line announces ----

  /** After a dollar sign: the null bulk string for -1, an error for any other negative length,
      for no number at all, for missing bytes, and for a payload without its line end. */
  lemma BulkAnnounced(length: Bytes, s: Bytes)
    requires LF !in length
    ensures FrameAt(Ascii("$") + length + Ascii("\r\n") + s) ==
            match ParseI64(length)
            case None => Bad(InvalidData)
            case Some(n) =>
              if n == -1 then Got(Null, s)
              else if n < -1 then Bad(InvalidData)
              else if |s| < n + 2 then Bad(UnexpectedEof)
              else if s[n] == 13 && s[n + 1] == 10 then Got(Bulk(s[..n]), s[n + 2..])
              else Bad(InvalidData)
  {
    Marks();
    Announced(DOLLAR, length, s);
    DollarLine([DOLLAR] + length, s);
    NumeralsAreText(length);
    if ParseI64(length).Some? {
      BulkOfLength(length, ParseI64(length).value, s);
    }
  }

  lemma DollarLine(line: Bytes, s: Bytes)
    requires line != [] && line[0] == DOLLAR
    ensures FrameOfLine(line, s) == BulkAt(line[1..], s)
  {
  }

  lemma BulkOfLength(length: Bytes, n: i64, s: Bytes)
    requires ParseLength(length) == Some(n)
    ensures BulkAt(length, s) ==
            if n == -1 then Got(Null, s)
            else if n < -1 then Bad(InvalidData)
            else if |s| < n + 2 then Bad(UnexpectedEof)
            else if s[n] == 13 && s[n + 1] == 10 then Got(Bulk(s[..n]), s[n + 2..])
            else Bad(InvalidData)
  {
    if 0 <= n && n + 2 <= |s| {
      var k: nat := n;
      assert s[k..k + 2] == [s[k], s[k + 1]];
    }
  }

  lemma Announced(mark: byte, length: Bytes, s: Bytes)
    requires mark != LF && LF !in length
    ensures FrameAt([mark] + length + CRLF + s) == FrameOfLine([mark] + length, s)
    ensures ([mark] + length)[1..] == length
  {
    TakeLine([mark] + length, s);
  }

  lemma NumeralsAreText(s: Bytes)
    ensures ParseI64(s).Some? || ParseU64(s).Some? ==> ValidUtf8(s)
  {
    if ParseI64(s).Some? || ParseU64(s).Some? {
      forall i | 0 <= i < |s|
        ensures s[i] < 0x80
      {
        assert i > 0 ==> s[i] == s[1..][i - 1];
      }
      AsciiIsUtf8(s);
    }
  }

  /** After a colon: an integer, or an error for what is no 64-bit number. */
  lemma IntegerAnnounced(text: Bytes, s: Bytes)
    requires LF !in text
    ensures FrameAt(Ascii(":") + text + Ascii("\r\n") + s) ==
            match ParseI64(text) case Some(n) => Got(Integer(n), s) case None => Bad(InvalidData)
  {
    Marks();
    Announced(COLON, text, s);
    NumeralsAreText(text);
  }

  /** After a plus sign: the text, or an error for what is not UTF-8. */
  lemma SimpleAnnounced(text: Bytes, s: Bytes)
    requires LF !in text
    ensures FrameAt(Ascii("+") + text + Ascii("\r\n") + s) ==
            if ValidUtf8(text) then Got(Simple(text), s) else Bad(InvalidData)
  {
    Marks();
    Announced(PLUS, text, s);
  }

  /** After a star: an array of that many frames, each taken where the one before ends; an error
      when one of them is, when the input ends first, or for what is no unsigned number. */
  lemma ArrayAnnounced(length: Bytes, s: Bytes)
    requires LF !in length
    ensures var r := FrameAt(Ascii("*") + length + Ascii("\r\n") + s);
            match ParseU64(length)
            case None => r == Bad(InvalidData)
            case Some(n) => r == Grown([], n, s)
  {
    Marks();
    Announced(STAR, length, s);
    StarLine([STAR] + length, s);
    NumeralsAreText(length);
    if ParseU64(length).Some? {
      ArrayOfLength(length, ParseU64(length).value, s);
    }
  }

  /** An array that has `done` already and takes `n` more frames from `s`. */
  function Grown(done: seq<Frame>, n: nat, s: Bytes): Read
    decreases n
  {
    if n == 0 then Got(Array(done), s)
    else
      var next := FrameAt(s);
      if next.End? then Bad(UnexpectedEof)
      else if next.Bad? then next
      else Grown(done + [next.frame], n - 1, next.rest)
  }

  function AsArray(r: ReadMany): Read {
    match r case Items(frames, rest) => Got(Array(frames), rest) case BadItems(error) => Bad(error)
  }

  lemma GrownOut(done: seq<Frame>, s: Bytes)
    ensures Grown(done, 0, s) == AsArray(After(done, ItemsAt(0, s)))
  {
    assert done + [] == done;
  }

  lemma GrownByOne(done: seq<Frame>, n: nat, s: Bytes, next: Read)
    requires n > 0 && next == FrameAt(s)
    ensures Grown(done, n, s) ==
            if next.Got? then Grown(done + [next.frame], n - 1, next.rest)
            else if next.End? then Bad(UnexpectedEof) else next
  {
  }

  lemma {:induction false} GrownIs(done: seq<Frame>, n: nat, s: Bytes, whole: ReadMany)
    requires whole == After(done, ItemsAt(n, s))
    ensures Grown(done, n, s) == AsArray(whole)
    decreases n
  {
    if n == 0 {
      GrownOut(done, s);
    } else {
      var next := FrameAt(s);
      OneMoreItem(done, n, s);
      GrownByOne(done, n, s, next);
      if next.Got? {
        GrownIs(done + [next.frame], n - 1, next.rest, whole);
      }
    }
  }

  lemma StarLine(line: Bytes, s: Bytes)
    requires line != [] && line[0] == STAR
    ensures FrameOfLine(line, s) == ArrayAt(line[1..], s)
  {
  }

  lemma ArrayOfLength(length: Bytes, n: u64, s: Bytes)
    requires ParseUsize(length) == Some(n)
    ensures ArrayAt(length, s) == Grown([], n, s)
  {
    var later := ItemsAt(n, s);
    assert later.Items? ==> [] + later.frames == later.frames;
    GrownIs([], n, s, later);
  }

  lemma TrimBare(line: Bytes)
    requires line == [] || line[|line| - 1] != 13
    ensures TrimCrlf(line + [LF]) == line
  {
    var whole := line + [LF];
    assert whole[..|whole| - 1] == line && whole[|whole| - 1] == LF;
    assert line != [] ==> whole[|whole| - 2] == line[|line| - 1];
  }

  lemma BareFeed(line: Bytes, s: Bytes)
    requires LF !in line && (line == [] || line[|line| - 1] != 13)
    ensures FrameAt(line + [LF] + s) == FrameOfLine(line, s)
  {
    SplitAfterFeed(line, s);
    TrimBare(line);
  }

  lemma NoEnd(line: Bytes)
    requires line != [] && LF !in line
    ensures FrameAt(line) == FrameOfLine(line, [])
  {
    NoFeedOneLine(line);
  }

  lemma FullLine(line: Bytes, s: Bytes, crlf: Bytes)
    requires LF !in line && line != [] && crlf == CRLF
    ensures FrameAt(line + crlf + s) == FrameOfLine(line, s)
  {
    TakeLine(line, s);
  }

  /** The carriage return may be missing, and at the end of the input the line feed too. */
  lemma LineEnds(line: Bytes, s: Bytes, crlf: Bytes)
    requires line != [] && LF !in line && crlf == Ascii("\r\n")
    ensures line[|line| - 1] != 13 ==> FrameAt(line + [10] + s) == FrameAt(line + crlf + s)
    ensures FrameAt(line) == FrameAt(line + crlf)
  {
    Marks();
    FullLine(line, s, crlf);
    FullLine(line, [], crlf);
    assert line + crlf + [] == line + crlf;
    NoEnd(line);
    if line[|line| - 1] != 13 {
      BareFeed(line, s);
    }
  }

  /** An empty line is read as an error frame. */
  lemma EmptyLine(s: Bytes)
    ensures FrameAt([13, 10] + s) == FrameAt([10] + s) == Got(Error(Ascii("ERR empty request")), s)
  {
    BareFeed([], s);
    assert [] + [LF] + s == [10] + s;
    LonelyReturn(s);
  }

  lemma LonelyReturn(s: Bytes)
    ensures FrameAt([13, 10] + s) == FrameOfLine([], s)
  {
    SplitAfterFeed([CR], s);
    TrimWhole([]);
    assert [CR] + [LF] + s == [13, 10] + s && [] + CRLF == [CR] + [LF];
  }

  // ---- names in any letter case ----

  function Spelling(verb: Verb): string {
    match verb
    case VPing => "PING"
    case VEcho => "ECHO"
    case VSet => "SET"
    case VGet => "GET"
    case VDel => "DEL"
    case VExists => "EXISTS"
    case VExpire => "EXPIRE"
    case VExpireAt => "EXPIREAT"
    case VTtl => "TTL"
    case VPersist => "PERSIST"
    case VLpush => "LPUSH"
    case VRpush => "RPUSH"
    case VLpop => "LPOP"
    case VRpop => "RPOP"
    case VLrange => "LRANGE"
    case VDbSize => "DBSIZE"
    case VInfo => "INFO"
    case VStats => "AERUGO.STATS"
    case VInspect => "AERUGO.INSPECT"
  }

  lemma NamesAreSpelled(verb: Verb)
    ensures |NameOf(verb)| == |Spelling(verb)|
    ensures forall i :: 0 <= i < |NameOf(verb)| ==> NameOf(verb)[i] as int == Spelling(verb)[i] as int
  {
  }

  /** The byte is the character, or the small letter of a capital one. */
  predicate SameLetter(b: byte, c: char) {
    b as int == c as int || ('A' <= c <= 'Z' && b as int == c as int + 32)
  }

  predicate SpelledAs(name: Bytes, text: string) {
    |name| == |text| && forall i :: 0 <= i < |name| ==> SameLetter(name[i], text[i])
  }

  lemma SpellingsAreCapitals(verb: Verb)
    ensures forall i :: 0 <= i < |Spelling(verb)| ==> Spelling(verb)[i] == '.' || 'A' <= Spelling(verb)[i] <= 'Z'
  {
  }

  lemma UpperIsSpelled(name: Bytes, upper: Bytes, text: string)
    requires |upper| == |text| && forall i :: 0 <= i < |text| ==> upper[i] as int == text[i] as int
    requires forall i :: 0 <= i < |text| ==> text[i] == '.' || 'A' <= text[i] <= 'Z'
    ensures Upper(name) == upper <==> SpelledAs(name, text)
  {
    if SpelledAs(name, text) {
      assert forall i :: 0 <= i < |name| ==> UpperByte(name[i]) == upper[i];
    }
    if Upper(name) == upper {
      forall i | 0 <= i < |name|
        ensures SameLetter(name[i], text[i])
      {
        assert UpperByte(name[i]) == upper[i];
      }
    }
  }

  /** A command is known by its name in capital letters, small letters, or both mixed. */
  lemma NameInAnyCase(name: Bytes, verb: Verb)
    ensures VerbOf(Upper(name)) == Some(verb) <==> SpelledAs(name, Spelling(verb))
  {
    NamesAreSpelled(verb);
    SpellingsAreCapitals(verb);
    UpperIsSpelled(name, NameOf(verb), Spelling(verb));
    NamesAreKnown(verb);
    KnownNames(Upper(name));
  }

  /** An inspection without a limit gives at most 128 rows. */
  lemma DefaultLimit(name: Bytes)
    requires SpelledAs(name, "AERUGO.INSPECT") && ValidUtf8(name)
    ensures FromFrame(Array(Bulks([name]))) == Ok(AerugoInspect(128))
  {
    NameInAnyCase(name, VInspect);
    BareInspection(name, [name]);
  }

  lemma BareInspection(name: Bytes, words: seq<Bytes>)
    requires VerbOf(Upper(name)) == Some(VInspect) && ValidUtf8(name) && words == [name]
    ensures FromFrame(Array(Bulks(words))) == Ok(AerugoInspect(128))
  {
    NamedRequest(name, VInspect, []);
    assert words == [name] + [];
    NoLimitGiven();
  }

  lemma NoLimitGiven()
    ensures FromArgs(VInspect, []) == Ok(AerugoInspect(128))
  {
  }

  lemma NamedRequest(name: Bytes, verb: Verb, args: seq<Bytes>)
    requires VerbOf(Upper(name)) == Some(verb) && ValidUtf8(name)
    ensures FromFrame(Array(Bulks([name] + args))) == FromArgs(verb, args)
  {
    BulkArgsOf([name] + args);
    assert ([name] + args)[1..] == args;
  }

  // ---- eviction policies ----

  function LowerByte(b: byte): byte {
    if 65 <= b <= 90 then b + 32 else b
  }

  function Lower(s: Bytes): Bytes {
    seq(|s|, i requires 0 <= i < |s| => LowerByte(s[i]))
  }

  /** The policy that a configuration names; no other name is accepted. */
  function PolicyFrom(name: Bytes): Option<StoreModel.EvictionPolicy> {
    if Lower(name) == Ascii("noeviction") then Some(StoreModel.NoEviction)
    else if Lower(name) == Ascii("allkeys-random") then Some(StoreModel.AllKeysRandom)
    else None
  }

  /** Names as they are reported are accepted, and name the same policy. */
  lemma PolicyReadsBack(policy: StoreModel.EvictionPolicy)
    ensures PolicyFrom(policy.Name()) == Some(policy)
  {
    var name := policy.Name();
    AsciiAt(if policy.NoEviction? then "noeviction" else "allkeys-random");
    assert Lower(name) == name;
  }
}
