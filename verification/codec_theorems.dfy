/** What the encoder and the decoder promise together. */
module CodecTheorems {
  import opened ByteStrings
  import opened Decimal
  import opened Frames
  import opened Encoder
  import opened Parser

  // ---- one line ----

  lemma {:induction false} SplitAfterFeed(line: Bytes, tail: Bytes)
    requires LF !in line
    ensures SplitLine(line + [LF] + tail) == (line + [LF], tail)
  {
    var s := line + [LF] + tail;
    if line == [] {
      assert s == [LF] + tail && s[1..] == tail && line + [LF] == [LF];
    } else {
      SplitAfterFeed(line[1..], tail);
      assert s[1..] == line[1..] + [LF] + tail;
      assert s[0] == line[0] && line[0] in line;
      assert [line[0]] + (line[1..] + [LF]) == line + [LF];
    }
  }

  lemma TrimWhole(line: Bytes)
    ensures TrimCrlf(line + CRLF) == line
  {
    assert (line + CRLF)[|line|..] == CRLF && (line + CRLF)[..|line|] == line;
  }

  /** A line without line feed, ended by CRLF, is cut off whole. */
  lemma TakeLine(line: Bytes, tail: Bytes)
    requires LF !in line && line != []
    ensures FrameAt(line + CRLF + tail) == FrameOfLine(line, tail)
  {
    SplitAfterFeed(line + [CR], tail);
    assert line + CRLF + tail == (line + [CR]) + [LF] + tail;
    assert line + CRLF == line + [CR] + [LF];
    TrimWhole(line);
  }

  lemma HeaderOf(mark: byte, n: int, tail: Bytes)
    requires mark != LF
    ensures FrameAt([mark] + PrintInt(n) + CRLF + tail) == FrameOfLine([mark] + PrintInt(n), tail)
    ensures ([mark] + PrintInt(n))[1..] == PrintInt(n)
  {
    PrintIsPlain(n);
    TakeLine([mark] + PrintInt(n), tail);
  }

  // ---- round trip ----

  lemma Regroup(header: Bytes, body: Bytes, tail: Bytes)
    ensures header + body + tail == header + (body + tail)
  {
  }

  /** After the header of a bulk string the decoder takes its payload and terminator. */
  lemma BulkHeader(n: nat, after: Bytes)
    requires n <= I64_MAX
    ensures FrameAt([DOLLAR] + PrintInt(n) + CRLF + after) ==
            if |after| < n + 2 then Bad(UnexpectedEof)
            else if after[n..n + 2] != CRLF then Bad(InvalidData)
            else Got(Bulk(after[..n]), after[n + 2..])
  {
    HeaderOf(DOLLAR, n, after);
    BulkLine(n, after);
  }

  lemma BulkLine(n: nat, after: Bytes)
    requires n <= I64_MAX
    ensures FrameOfLine([DOLLAR] + PrintInt(n), after) ==
            if |after| < n + 2 then Bad(UnexpectedEof)
            else if after[n..n + 2] != CRLF then Bad(InvalidData)
            else Got(Bulk(after[..n]), after[n + 2..])
  {
    var line := [DOLLAR] + PrintInt(n);
    assert line[1..] == PrintInt(n);
    PrintIsPlain(n);
    PrintParseI64(n);
  }

  /** After the header of an array the decoder takes its items. */
  lemma ArrayHeader(n: nat, after: Bytes)
    requires n <= I64_MAX
    ensures FrameAt([STAR] + PrintInt(n) + CRLF + after) ==
            match ItemsAt(n, after)
            case Items(frames, rest) => Got(Array(frames), rest)
            case BadItems(error) => Bad(error)
  {
    HeaderOf(STAR, n, after);
    PrintIsPlain(n);
    PrintParseU64(n);
  }

  lemma BulkRoundTrip(bytes: Bytes, tail: Bytes)
    requires |bytes| <= I64_MAX
    ensures FrameAt(Encode(Bulk(bytes)) + tail) == Got(Bulk(bytes), tail)
  {
    var header := [DOLLAR] + PrintInt(|bytes|) + CRLF;
    Regroup(header, bytes, CRLF);
    Regroup(header, bytes + CRLF, tail);
    var s, n := bytes + CRLF + tail, |bytes|;
    BulkHeader(n, s);
    assert s[..n] == bytes && s[n..n + 2] == CRLF && s[n + 2..] == tail;
  }

  lemma SimpleRoundTrip(text: Str, tail: Bytes)
    requires LF !in text
    ensures FrameAt(Encode(Simple(text)) + tail) == Got(Simple(text), tail)
  {
    var line := [PLUS] + text;
    assert line[1..] == text;
    TakeLine(line, tail);
  }

  lemma IntegerRoundTrip(n: i64, tail: Bytes)
    ensures FrameAt(Encode(Integer(n)) + tail) == Got(Integer(n), tail)
  {
    HeaderOf(COLON, n, tail);
    PrintIsPlain(n);
    PrintParseI64(n);
  }

  lemma NullRoundTrip(tail: Bytes)
    ensures FrameAt(Encode(Null) + tail) == Got(Null, tail)
  {
    assert PrintInt(-1) == [45, 49];
    assert Encode(Null) == [DOLLAR] + PrintInt(-1) + CRLF;
    HeaderOf(DOLLAR, -1, tail);
    PrintIsPlain(-1);
    PrintParseI64(-1);
  }

  /** A printable frame followed by anything reads back as itself and leaves the rest. */
  lemma {:induction false} ReadsBack(f: Frame, tail: Bytes)
    requires Sized(f) && Printable(f)
    ensures FrameAt(Encode(f) + tail) == Got(f, tail)
    decreases f, 1
  {
    match f {
      case Simple(text) => SimpleRoundTrip(text, tail);
      case Integer(n) => IntegerRoundTrip(n, tail);
      case Bulk(bytes) => BulkRoundTrip(bytes, tail);
      case Null => NullRoundTrip(tail);
      case Array(items) =>
        Regroup([STAR] + PrintInt(|items|) + CRLF, EncodeAll(items), tail);
        ArrayHeader(|items|, EncodeAll(items) + tail);
        ItemsReadBack(items, tail);
    }
  }

  lemma {:induction false} ItemsReadBack(items: seq<Frame>, tail: Bytes)
    requires forall i :: 0 <= i < |items| ==> Sized(items[i]) && Printable(items[i])
    ensures ItemsAt(|items|, EncodeAll(items) + tail) == Items(items, tail)
    decreases items, 0
  {
    if items != [] {
      FirstItem(items, tail);
      ReadsBack(items[0], EncodeAll(items[1..]) + tail);
      ItemsReadBack(items[1..], tail);
      ItemsStep(EncodeAll(items) + tail, items, EncodeAll(items[1..]) + tail, tail);
    } else {
      assert EncodeAll(items) + tail == tail;
    }
  }

  lemma ItemsStep(s: Bytes, items: seq<Frame>, rest: Bytes, tail: Bytes)
    requires items != [] && FrameAt(s) == Got(items[0], rest)
    requires ItemsAt(|items| - 1, rest) == Items(items[1..], tail)
    ensures ItemsAt(|items|, s) == Items(items, tail)
  {
    assert [items[0]] + items[1..] == items;
  }

  lemma {:induction false} LineStopsAtFeed(s: Bytes, i: nat)
    requires i < |s| && s[i] == LF
    ensures |SplitLine(s).0| <= i + 1
    ensures SplitLine(s).0[0] == s[0]
    ensures SplitLine(s).0[|SplitLine(s).0| - 1] == LF
    decreases i
  {
    if s[0] != LF {
      LineStopsAtFeed(s[1..], i - 1);
    }
  }

  lemma FeedCutsSimple(text: Str, tail: Bytes)
    requires LF in text
    ensures FrameAt(Encode(Simple(text)) + tail).Got? ==> FrameAt(Encode(Simple(text)) + tail).frame != Simple(text)
  {
    var s := [PLUS] + text + CRLF + tail;
    FeedCutsLine(text, tail);
    ShortSimple(TrimCrlf(SplitLine(s).0), SplitLine(s).1, text);
    FrameOfFirstLine(s);
  }

  lemma FrameOfFirstLine(s: Bytes)
    requires s != []
    ensures FrameAt(s) == FrameOfLine(TrimCrlf(SplitLine(s).0), SplitLine(s).1)
  {
  }

  lemma FeedCutsLine(text: Bytes, tail: Bytes)
    requires LF in text
    ensures var s := [PLUS] + text + CRLF + tail;
            var line := TrimCrlf(SplitLine(s).0);
            0 < |line| <= |text| && line[0] == PLUS
  {
    var s := [PLUS] + text + CRLF + tail;
    var i :| 0 <= i < |text| && text[i] == LF;
    assert s[i + 1] == LF && s[0] == PLUS;
    LineStopsAtFeed(s, i + 1);
  }

  lemma ShortSimple(line: Bytes, rest: Bytes, text: Str)
    requires 0 < |line| <= |text| && line[0] == PLUS
    ensures FrameOfLine(line, rest).Got? ==> FrameOfLine(line, rest).frame != Simple(text)
  {
  }

  /** The decoder has no arm for error frames: it takes the line for an inline command. */
  lemma ErrorReadsInline(message: Str, tail: Bytes)
    ensures FrameAt(Encode(Error(message)) + tail).Got?
    ensures FrameAt(Encode(Error(message)) + tail).frame.Array?
  {
    var s := [DASH] + message + CRLF + tail;
    assert s[0] == DASH && s[1 + |message| + 1] == LF;
    LineStopsAtFeed(s, 1 + |message| + 1);
    var line := TrimCrlf(SplitLine(s).0);
    assert line != [] && line[0] == DASH;
    InlineOfLine(line, SplitLine(s).1);
    FrameOfFirstLine(s);
  }

  lemma InlineOfLine(line: Bytes, rest: Bytes)
    requires line != [] && line[0] !in {STAR, DOLLAR, PLUS, COLON}
    ensures FrameOfLine(line, rest) == Got(ParseInline(line), rest)
  {
  }

  /** A frame that is not printable never reads back, whatever follows it. */
  lemma {:induction false} NeverReadsBack(f: Frame, tail: Bytes)
    requires Sized(f) && !Printable(f)
    ensures FrameAt(Encode(f) + tail).Got? ==> FrameAt(Encode(f) + tail).frame != f
    decreases f, 1
  {
    match f {
      case Simple(text) => FeedCutsSimple(text, tail);
      case Error(message) => ErrorReadsInline(message, tail);
      case Array(items) =>
        Regroup([STAR] + PrintInt(|items|) + CRLF, EncodeAll(items), tail);
        ArrayHeader(|items|, EncodeAll(items) + tail);
        ItemsNeverReadBack(items, tail);
    }
  }

  lemma {:induction false} ItemsNeverReadBack(items: seq<Frame>, tail: Bytes)
    requires forall i :: 0 <= i < |items| ==> Sized(items[i])
    requires exists i :: 0 <= i < |items| && !Printable(items[i])
    ensures ItemsAt(|items|, EncodeAll(items) + tail).Items? ==>
              ItemsAt(|items|, EncodeAll(items) + tail).frames != items
    decreases items, 0
  {
    var later := EncodeAll(items[1..]) + tail;
    var s := Encode(items[0]) + later;
    FirstItem(items, tail);
    if Printable(items[0]) {
      ReadsBack(items[0], later);
      UnprintableIsLater(items);
      ItemsNeverReadBack(items[1..], tail);
      LaterDiffer(items, s, later);
    } else {
      NeverReadsBack(items[0], later);
      FirstDiffers(items, s);
    }
  }

  lemma LaterDiffer(items: seq<Frame>, s: Bytes, later: Bytes)
    requires items != [] && FrameAt(s) == Got(items[0], later)
    requires ItemsAt(|items[1..]|, later).Items? ==> ItemsAt(|items[1..]|, later).frames != items[1..]
    ensures ItemsAt(|items|, s).Items? ==> ItemsAt(|items|, s).frames != items
  {
    ItemsDiffer(items, s);
  }

  lemma FirstDiffers(items: seq<Frame>, s: Bytes)
    requires items != [] && (FrameAt(s).Got? ==> FrameAt(s).frame != items[0])
    ensures ItemsAt(|items|, s).Items? ==> ItemsAt(|items|, s).frames != items
  {
    ItemsDiffer(items, s);
  }

  lemma UnprintableIsLater(items: seq<Frame>)
    requires exists i :: 0 <= i < |items| && !Printable(items[i])
    requires Printable(items[0])
    ensures exists i :: 0 <= i < |items[1..]| && !Printable(items[1..][i])
  {
    var i :| 0 <= i < |items| && !Printable(items[i]);
    assert !Printable(items[1..][i - 1]);
  }

  lemma FirstItem(items: seq<Frame>, tail: Bytes)
    requires items != []
    ensures EncodeAll(items) + tail == Encode(items[0]) + (EncodeAll(items[1..]) + tail)
  {
    Regroup(Encode(items[0]), EncodeAll(items[1..]), tail);
  }

  lemma ItemsDiffer(items: seq<Frame>, s: Bytes)
    requires items != []
    requires FrameAt(s).Got? ==>
               || FrameAt(s).frame != items[0]
               || (ItemsAt(|items| - 1, FrameAt(s).rest).Items? ==>
                     ItemsAt(|items| - 1, FrameAt(s).rest).frames != items[1..])
    ensures ItemsAt(|items|, s).Items? ==> ItemsAt(|items|, s).frames != items
  {
    if ItemsAt(|items|, s).Items? {
      var frames := ItemsAt(|items| - 1, FrameAt(s).rest).frames;
      assert ([FrameAt(s).frame] + frames)[1..] == frames;
    }
  }

  /** The exact condition for the round trip on a stream. */
  lemma RoundTripExactly(f: Frame, tail: Bytes)
    requires Sized(f)
    ensures Printable(f) <==> FrameAt(Encode(f) + tail) == Got(f, tail)
  {
    if Printable(f) {
      ReadsBack(f, tail);
    } else {
      NeverReadsBack(f, tail);
    }
  }

  lemma ReadAllStep(s: Bytes, f: Frame, rest: Bytes)
    requires FrameAt(s) == Got(f, rest)
    ensures ReadAll(s) == Stream([f] + ReadAll(rest).frames, ReadAll(rest).failure)
  {
  }

  /** A stream of printable frames decodes to those frames, then to whatever follows. */
  lemma {:induction false} StreamRoundTrip(fs: seq<Frame>, tail: Bytes)
    requires forall i :: 0 <= i < |fs| ==> Sized(fs[i]) && Printable(fs[i])
    ensures ReadAll(EncodeAll(fs) + tail) == Stream(fs + ReadAll(tail).frames, ReadAll(tail).failure)
  {
    if fs == [] {
      assert EncodeAll(fs) + tail == tail;
      assert fs + ReadAll(tail).frames == ReadAll(tail).frames;
    } else {
      StreamRoundTrip(fs[1..], tail);
      StreamStep(fs, tail);
      HeadAndTail(fs, ReadAll(tail).frames);
    }
  }

  lemma HeadAndTail<T>(s: seq<T>, later: seq<T>)
    requires s != []
    ensures [s[0]] + (s[1..] + later) == s + later
  {
  }

  lemma StreamStep(fs: seq<Frame>, tail: Bytes)
    requires fs != [] && Sized(fs[0]) && Printable(fs[0])
    ensures ReadAll(EncodeAll(fs) + tail) ==
            Stream([fs[0]] + ReadAll(EncodeAll(fs[1..]) + tail).frames, ReadAll(EncodeAll(fs[1..]) + tail).failure)
  {
    var rest := EncodeAll(fs[1..]) + tail;
    FirstItem(fs, tail);
    ReadsBack(fs[0], rest);
    ReadAllStep(EncodeAll(fs) + tail, fs[0], rest);
  }

  // ---- torn input ----

  /** A header line cut before its line feed: what is left of the number, if anything
      parses at all, is never zero unless the number was. */
  lemma TornHeader(mark: byte, n: nat, k: nat, s: Bytes)
    requires mark != LF && 0 < k < |[mark] + PrintNat(n) + CRLF|
    requires s == ([mark] + PrintNat(n) + CRLF)[..k]
    ensures FrameAt(s) == FrameOfLine(s, []) && s[0] == mark
    ensures TornLength(s[1..], n)
  {
    assert LF !in s;
    NoFeedOneLine(s);
    FrameOfFirstLine(s);
    TornNumber(mark, n, k, s);
  }

  ghost predicate TornLength(digits: Bytes, n: nat) {
    forall signed :: ParseInteger(digits, signed).Some? ==>
      0 <= ParseInteger(digits, signed).value && (n > 0 ==> 0 < ParseInteger(digits, signed).value)
  }

  lemma TornNumber(mark: byte, n: nat, k: nat, s: Bytes)
    requires 0 < k < |[mark] + PrintNat(n) + CRLF|
    requires s == ([mark] + PrintNat(n) + CRLF)[..k]
    ensures TornLength(s[1..], n)
  {
    var d := PrintNat(n);
    if k <= |d| + 1 {
      assert s[1..] == d[..k - 1];
      if n > 0 && k > 1 {
        CutPrintStaysPositive(n, k - 1);
      }
    } else {
      assert s[1..] == d + [CR];
      assert s[1..][|d|] == CR;
      assert s[1..] != [] && !AllDigits(s[1..]) && IsDigit(d[0]) && s[1..][0] == d[0];
    }
  }

  lemma {:induction false} NoFeedOneLine(s: Bytes)
    requires LF !in s
    ensures SplitLine(s) == (s, []) && TrimCrlf(s) == s
  {
    if s != [] {
      NoFeedOneLine(s[1..]);
      assert [s[0]] + s[1..] == s;
    }
    if |s| >= 2 {
      assert s[|s| - 2..][1] == s[|s| - 1];
    }
  }

  lemma TornBulk(bytes: Bytes, k: nat)
    requires |bytes| <= I64_MAX && 0 < k < |Encode(Bulk(bytes))|
    ensures FrameAt(Encode(Bulk(bytes))[..k]).Bad?
  {
    var header := [DOLLAR] + PrintInt(|bytes|) + CRLF;
    Regroup(header, bytes, CRLF);
    CutConcat(header, bytes + CRLF, k);
    if k < |header| {
      TornBulkHeader(|bytes|, k);
    } else {
      BulkHeader(|bytes|, (bytes + CRLF)[..k - |header|]);
    }
  }

  lemma TornBulkHeader(n: nat, k: nat)
    requires 0 < k < |[DOLLAR] + PrintNat(n) + CRLF|
    ensures FrameAt(([DOLLAR] + PrintNat(n) + CRLF)[..k]).Bad?
  {
    var s := ([DOLLAR] + PrintNat(n) + CRLF)[..k];
    TornHeader(DOLLAR, n, k, s);
    TornBulkLine(s, n);
  }

  lemma TornBulkLine(line: Bytes, n: nat)
    requires line != [] && line[0] == DOLLAR && TornLength(line[1..], n)
    ensures FrameOfLine(line, []).Bad?
  {
  }

  lemma TornArrayLine(line: Bytes, n: nat)
    requires line != [] && line[0] == STAR && TornLength(line[1..], n) && n > 0
    ensures FrameOfLine(line, []).Bad?
  {
  }

  lemma CutConcat(a: Bytes, b: Bytes, k: nat)
    requires k <= |a + b|
    ensures (a + b)[..k] == if k < |a| then a[..k] else a + b[..k - |a|]
  {
  }

  lemma {:induction false} TornItems(args: seq<Bytes>, k: nat)
    requires forall i :: 0 <= i < |args| ==> |args[i]| <= I64_MAX
    requires k < |EncodeAll(Bulks(args))|
    ensures ItemsAt(|args|, EncodeAll(Bulks(args))[..k]).BadItems?
  {
    var first, later := Encode(Bulk(args[0])), EncodeAll(Bulks(args[1..]));
    assert Bulks(args)[1..] == Bulks(args[1..]);
    CutConcat(first, later, k);
    if k < |first| {
      if k > 0 {
        TornBulk(args[0], k);
      }
    } else {
      BulkRoundTrip(args[0], later[..k - |first|]);
      TornItems(args[1..], k - |first|);
    }
  }

  /** A non-empty array of bulk strings, cut anywhere inside, is an error: never a
      shorter command. */
  lemma TornCommand(args: seq<Bytes>, k: nat)
    requires 0 < |args| <= I64_MAX && forall i :: 0 <= i < |args| ==> |args[i]| <= I64_MAX
    requires 0 < k < |Encode(Array(Bulks(args)))|
    ensures FrameAt(Encode(Array(Bulks(args)))[..k]).Bad?
  {
    var header, body := [STAR] + PrintNat(|args|) + CRLF, EncodeAll(Bulks(args));
    assert Encode(Array(Bulks(args))) == header + body;
    CutConcat(header, body, k);
    if k < |header| {
      TornArrayHeader(|args|, k);
    } else {
      TornBody(args, body[..k - |header|], k - |header|);
    }
  }

  lemma TornArrayHeader(n: nat, k: nat)
    requires n > 0 && 0 < k < |[STAR] + PrintNat(n) + CRLF|
    ensures FrameAt(([STAR] + PrintNat(n) + CRLF)[..k]).Bad?
  {
    var s := ([STAR] + PrintNat(n) + CRLF)[..k];
    TornHeader(STAR, n, k, s);
    TornArrayLine(s, n);
  }

  lemma TornBody(args: seq<Bytes>, part: Bytes, k: nat)
    requires |args| <= I64_MAX && forall i :: 0 <= i < |args| ==> |args[i]| <= I64_MAX
    requires k < |EncodeAll(Bulks(args))| && part == EncodeAll(Bulks(args))[..k]
    ensures FrameAt([STAR] + PrintNat(|args|) + CRLF + part).Bad?
  {
    TornItems(args, k);
    ArrayHeader(|args|, part);
  }

  // ---- totality and progress ----

  /** Whatever the bytes and whatever length they announce, a frame that is read has
      consumed at least one byte and leaves a suffix of the input. */
  lemma {:induction false} DecoderLeavesSuffix(s: Bytes)
    ensures FrameAt(s).Got? ==> |FrameAt(s).rest| < |s| && IsSuffix(FrameAt(s).rest, s)
    decreases |s|, 0
  {
    if s != [] {
      LineLeavesSuffix(TrimCrlf(SplitLine(s).0), SplitLine(s).1);
      if FrameAt(s).Got? {
        SplitAtLineLength(s);
        SuffixOfDrop(FrameAt(s).rest, s, LineLength(s));
      }
    }
  }

  lemma {:induction false} LineLeavesSuffix(line: Bytes, s: Bytes)
    ensures FrameOfLine(line, s).Got? ==> IsSuffix(FrameOfLine(line, s).rest, s)
    decreases |s|, 3
  {
    if line != [] && line[0] == STAR {
      ArrayLeavesSuffix(line[1..], s);
    }
    if line != [] && line[0] == DOLLAR {
      BulkLeavesSuffix(line[1..], s);
    }
  }

  lemma {:induction false} ArrayLeavesSuffix(length: Bytes, s: Bytes)
    ensures ArrayAt(length, s).Got? ==> IsSuffix(ArrayAt(length, s).rest, s)
    decreases |s|, 2
  {
    if ParseUsize(length).Some? {
      ItemsLeaveSuffix(ParseUsize(length).value, s);
    }
  }

  lemma BulkLeavesSuffix(length: Bytes, s: Bytes)
    ensures BulkAt(length, s).Got? ==> IsSuffix(BulkAt(length, s).rest, s)
  {
  }

  lemma {:induction false} ItemsLeaveSuffix(n: nat, s: Bytes)
    ensures ItemsAt(n, s).Items? ==> IsSuffix(ItemsAt(n, s).rest, s)
    decreases |s|, 1
  {
    if n > 0 && FrameAt(s).Got? {
      DecoderLeavesSuffix(s);
      ItemsLeaveSuffix(n - 1, FrameAt(s).rest);
      SuffixOfSuffix(ItemsAt(n - 1, FrameAt(s).rest), FrameAt(s).rest, s);
    }
  }

  lemma SuffixOfSuffix(later: ReadMany, rest: Bytes, s: Bytes)
    requires IsSuffix(rest, s) && (later.Items? ==> IsSuffix(later.rest, rest))
    ensures later.Items? ==> IsSuffix(later.rest, s)
  {
    if later.Items? {
      SuffixOfDrop(later.rest, s, |s| - |rest|);
    }
  }

  ghost predicate IsSuffix(rest: Bytes, s: Bytes) {
    |rest| <= |s| && rest == s[|s| - |rest|..]
  }

  lemma SuffixOfDrop(rest: Bytes, s: Bytes, n: nat)
    requires n <= |s| && IsSuffix(rest, s[n..])
    ensures IsSuffix(rest, s)
  {
    assert s[n..][|s| - n - |rest|..] == s[|s| - |rest|..];
  }

  /** An array has fewer items than the bytes it consumed, with one exception: an inline
      command that is a single byte at the very end of the input. */
  lemma FewerItemsThanBytes(s: Bytes)
    requires FrameAt(s).Got? && FrameAt(s).frame.Array?
    ensures |FrameAt(s).frame.items| < |s| - |FrameAt(s).rest| <==> |s| > 1 || IsBlank(s[0])
  {
    var (whole, rest) := SplitLine(s);
    ArrayOfLine(TrimCrlf(whole), rest);
    if TrimCrlf(whole)[0] != STAR && |whole| == 1 {
      OneByteLine(s);
      LonelyByte(s[0]);
    }
  }

  lemma OneByteLine(s: Bytes)
    requires |SplitLine(s).0| == 1 && TrimCrlf(SplitLine(s).0) != []
    ensures s == [s[0]] && SplitLine(s) == (s, []) && TrimCrlf(s) == s
  {
    assert s[0] != LF;
    assert SplitLine(s[1..]).0 == [];
    assert s == [s[0]];
    NoFeedOneLine(s);
  }

  lemma ArrayOfLine(line: Bytes, s: Bytes)
    requires FrameOfLine(line, s).Got? && FrameOfLine(line, s).frame.Array?
    ensures line != []
    ensures line[0] == STAR ==> |line| > 1 && |FrameOfLine(line, s).frame.items| <= |s| - |FrameOfLine(line, s).rest|
    ensures line[0] != STAR ==> FrameOfLine(line, s) == Got(ParseInline(line), s)
    ensures line[0] != STAR ==> 2 * |FrameOfLine(line, s).frame.items| <= |line| + 1
  {
    if line[0] == STAR {
      assert ParseUsize(line[1..]).Some?;
    } else {
      InlineOfLine(line, s);
      FewPieces(line);
    }
  }

  lemma LonelyByte(b: byte)
    ensures DropEmpty(SplitBlanks([b])) == if IsBlank(b) then [] else [[b]]
  {
    var line: Bytes, none: seq<Bytes> := [b], [[]];
    assert line[1..] == [] && SplitBlanks(line[1..]) == none && none[1..] == [];
    if IsBlank(b) {
      var pieces := [[]] + none;
      assert SplitBlanks(line) == pieces && pieces[0] == [] && pieces[1..] == none;
    } else {
      assert [b] + none[0] == line;
      var pieces := [line] + none[1..];
      assert SplitBlanks(line) == pieces == [[b]] && pieces[1..] == [];
    }
  }

  lemma {:induction false} FewPieces(line: Bytes)
    ensures 2 * |DropEmpty(SplitBlanks(line))| <= |line| + if SplitBlanks(line)[0] == [] then 0 else 1
  {
    if line != [] {
      FewPieces(line[1..]);
      var rest := SplitBlanks(line[1..]);
      var all := SplitBlanks(line);
      assert all[1..] == if IsBlank(line[0]) then rest else rest[1..];
    }
  }

  // ---- inline commands ----

  /** No space, tab, line feed, carriage return or form feed. */
  predicate IsWord(arg: Bytes) {
    arg != [] && forall i :: 0 <= i < |arg| ==> arg[i] !in {9, 10, 12, 13, 32}
  }

  /** Spaces, tabs, carriage returns and form feeds. */
  predicate IsGap(gap: Bytes) {
    forall i :: 0 <= i < |gap| ==> gap[i] in {9, 12, 13, 32}
  }

  /** The arguments, each followed by its gap. */
  function InlineText(args: seq<Bytes>, gaps: seq<Bytes>): Bytes
    requires |args| == |gaps|
  {
    if args == [] then [] else args[0] + (gaps[0] + InlineText(args[1..], gaps[1..]))
  }

  /** Words, separated by gaps that only the last may leave empty. */
  ghost predicate IsInline(args: seq<Bytes>, gaps: seq<Bytes>) {
    && |args| == |gaps|
    && (forall i :: 0 <= i < |args| ==> IsWord(args[i]) && IsGap(gaps[i]))
    && (forall i :: 0 <= i < |args| - 1 ==> gaps[i] != [])
  }

  lemma {:induction false} SplitWord(arg: Bytes, s: Bytes)
    requires IsWord(arg) && (s == [] || IsBlank(s[0]))
    ensures SplitBlanks(arg + s) == [arg] + SplitBlanks(s)[1..]
  {
    var line := arg + s;
    assert line[1..] == arg[1..] + s;
    assert SplitBlanks(s)[0] == [];
    if |arg| == 1 {
      assert line[1..] == s && [arg[0]] + [] == arg;
    } else {
      SplitWord(arg[1..], s);
      assert [arg[0]] + arg[1..] == arg;
    }
  }

  lemma {:induction false} SkipGap(gap: Bytes, s: Bytes)
    requires IsGap(gap)
    ensures DropEmpty(SplitBlanks(gap + s)) == DropEmpty(SplitBlanks(s))
  {
    if gap == [] {
      assert gap + s == s;
    } else {
      assert (gap + s)[1..] == gap[1..] + s;
      SkipGap(gap[1..], s);
      var rest := SplitBlanks(gap[1..] + s);
      assert ([[]] + rest)[1..] == rest;
    }
  }

  lemma {:induction false} WordsOfInline(args: seq<Bytes>, gaps: seq<Bytes>)
    requires IsInline(args, gaps)
    ensures DropEmpty(SplitBlanks(InlineText(args, gaps))) == args
  {
    if args == [] {
      var none: seq<Bytes> := [[]];
      assert SplitBlanks([]) == none && none[1..] == [];
    } else {
      var s := gaps[0] + InlineText(args[1..], gaps[1..]);
      assert |args| > 1 ==> s[0] == gaps[0][0];
      SplitWord(args[0], s);
      SkipGap(gaps[0], InlineText(args[1..], gaps[1..]));
      WordsOfInline(args[1..], gaps[1..]);
      assert SplitBlanks(s)[0] == [] && SplitBlanks(s) == [[]] + SplitBlanks(s)[1..];
      var pieces := [args[0]] + SplitBlanks(s)[1..];
      assert pieces[1..] == SplitBlanks(s)[1..];
      assert args == [args[0]] + args[1..];
    }
  }

  lemma {:induction false} InlineHasNoFeed(args: seq<Bytes>, gaps: seq<Bytes>)
    requires IsInline(args, gaps)
    ensures LF !in InlineText(args, gaps)
  {
    if args != [] {
      InlineHasNoFeed(args[1..], gaps[1..]);
    }
  }

  /** The inline form of a command and its array form read as the same frame, provided
      the line does not start with a byte that announces another kind of frame. */
  lemma InlineAgreesWithArray(lead: Bytes, args: seq<Bytes>, gaps: seq<Bytes>, tail: Bytes)
    requires IsGap(lead) && IsInline(args, gaps) && 0 < |args| <= I64_MAX
    requires forall i :: 0 <= i < |args| ==> |args[i]| <= I64_MAX
    requires (lead + InlineText(args, gaps))[0] !in {STAR, DOLLAR, PLUS, COLON}
    ensures FrameAt(lead + InlineText(args, gaps) + CRLF + tail)
         == FrameAt(Encode(Array(Bulks(args))) + tail)
         == Got(Array(Bulks(args)), tail)
  {
    var line := lead + InlineText(args, gaps);
    InlineHasNoFeed(args, gaps);
    TakeLine(line, tail);
    SkipGap(lead, InlineText(args, gaps));
    WordsOfInline(args, gaps);
    ReadsBack(Array(Bulks(args)), tail);
  }
}
