/** The RESP2 decoder: what one read returns as a function of the bytes ahead, and the
    reader that computes it by advancing over its input. */
module Parser {
  import opened ByteStrings
  import opened Decimal
  import opened Frames
  import opened Encoder

  datatype ReadError = UnexpectedEof | InvalidData

  datatype Read = End | Got(frame: Frame, rest: Bytes) | Bad(error: ReadError)

  datatype ReadMany = Items(frames: seq<Frame>, rest: Bytes) | BadItems(error: ReadError)

  // ---- lines ----

  /** Length of the first line with its line feed, or of all of `s` when there is none. */
  function LineLength(s: Bytes): (n: nat)
    ensures n <= |s| && (s != [] ==> n > 0)
  {
    if s == [] then 0 else if s[0] == LF then 1 else 1 + LineLength(s[1..])
  }

  /** The first line with its line feed, and what follows it. */
  function SplitLine(s: Bytes): (r: (Bytes, Bytes))
    ensures |r.0| + |r.1| == |s| && (s != [] ==> r.0 != [])
  {
    if s == [] then ([], [])
    else if s[0] == LF then ([LF], s[1..])
    else
      var (line, rest) := SplitLine(s[1..]);
      ([s[0]] + line, rest)
  }

  lemma {:induction false} SplitAtLineLength(s: Bytes)
    ensures SplitLine(s) == (s[..LineLength(s)], s[LineLength(s)..])
  {
    if s != [] && s[0] != LF {
      SplitAtLineLength(s[1..]);
      var n := LineLength(s[1..]);
      assert s[..n + 1] == [s[0]] + s[1..][..n] && s[n + 1..] == s[1..][n..];
    } else {
      assert s != [] ==> s[..1] == [LF];
    }
  }

  lemma OneMoreByte(s: Bytes, k: nat)
    requires k < |s|
    ensures LineLength(s[k..]) == if s[k] == LF then 1 else 1 + LineLength(s[k + 1..])
  {
    assert s[k..][1..] == s[k + 1..];
  }

  function TrimCrlf(line: Bytes): Bytes {
    if |line| >= 2 && line[|line| - 2..] == CRLF then line[..|line| - 2]
    else if |line| >= 1 && line[|line| - 1] == LF then line[..|line| - 1]
    else line
  }

  // ---- inline commands ----

  predicate IsBlank(b: byte) {
    b == 32 || b == 9 || b == LF || b == CR || b == 12
  }

  /** The pieces between blanks, empty ones included. */
  function SplitBlanks(line: Bytes): (pieces: seq<Bytes>)
    ensures pieces != []
  {
    if line == [] then [[]]
    else
      var rest := SplitBlanks(line[1..]);
      if IsBlank(line[0]) then [[]] + rest else [[line[0]] + rest[0]] + rest[1..]
  }

  function DropEmpty(pieces: seq<Bytes>): seq<Bytes> {
    if pieces == [] then []
    else (if pieces[0] == [] then [] else [pieces[0]]) + DropEmpty(pieces[1..])
  }

  function ParseInline(line: Bytes): Frame {
    Array(Bulks(DropEmpty(SplitBlanks(line))))
  }

  // ---- lengths ----

  function ParseUsize(s: Bytes): Option<u64> {
    if ValidUtf8(s) then ParseU64(s) else None
  }

  function ParseLength(s: Bytes): Option<i64> {
    if ValidUtf8(s) then ParseI64(s) else None
  }

  // ---- frames ----

  function EmptyRequest(): Frame {
    Error(Ascii("ERR empty request"))
  }

  /** What reading one frame from `s` gives. */
  function FrameAt(s: Bytes): (r: Read)
    ensures r.End? <==> s == []
    ensures r.Got? ==> |r.rest| < |s|
    decreases |s|, 0
  {
    if s == [] then End
    else FrameOfLine(TrimCrlf(SplitLine(s).0), SplitLine(s).1)
  }

  function FrameOfLine(line: Bytes, s: Bytes): (r: Read)
    ensures !r.End? && (r.Got? ==> |r.rest| <= |s|)
    decreases |s|, 3
  {
    if line == [] then Got(EmptyRequest(), s)
    else if line[0] == STAR then ArrayAt(line[1..], s)
    else if line[0] == DOLLAR then BulkAt(line[1..], s)
    else if line[0] == PLUS then
      if ValidUtf8(line[1..]) then Got(Simple(line[1..]), s) else Bad(InvalidData)
    else if line[0] == COLON then
      match ParseLength(line[1..])
      case Some(n) => Got(Integer(n), s)
      case None => Bad(InvalidData)
    else Got(ParseInline(line), s)
  }

  function ArrayAt(length: Bytes, s: Bytes): (r: Read)
    ensures !r.End?
    ensures r.Got? ==> r.frame.Array? && |r.frame.items| + |r.rest| <= |s|
    decreases |s|, 2
  {
    match ParseUsize(length)
    case None => Bad(InvalidData)
    case Some(n) =>
      match ItemsAt(n, s)
      case Items(frames, rest) => Got(Array(frames), rest)
      case BadItems(error) => Bad(error)
  }

  function ItemsAt(n: nat, s: Bytes): (r: ReadMany)
    ensures r.Items? ==> |r.frames| == n && n + |r.rest| <= |s|
    decreases |s|, 1
  {
    if n == 0 then Items([], s)
    else
      match FrameAt(s)
      case End => BadItems(UnexpectedEof)
      case Bad(error) => BadItems(error)
      case Got(frame, rest) =>
        match ItemsAt(n - 1, rest)
        case BadItems(error) => BadItems(error)
        case Items(frames, rest') =>
          Items([frame] + frames, rest')
  }

  function BulkAt(length: Bytes, s: Bytes): (r: Read)
    ensures !r.End? && (r.Got? ==> |r.rest| <= |s|)
  {
    match ParseLength(length)
    case None => Bad(InvalidData)
    case Some(n) =>
      if n == -1 then Got(Null, s)
      else if n < 0 then Bad(InvalidData)
      else if |s| < n + 2 then Bad(UnexpectedEof)
      else if s[n..n + 2] != CRLF then Bad(InvalidData)
      else Got(Bulk(s[..n]), s[n + 2..])
  }

  /** `later`, read after the items `done`. */
  ghost function After(done: seq<Frame>, later: ReadMany): ReadMany {
    if later.Items? then Items(done + later.frames, later.rest) else later
  }

  lemma OneMoreItem(done: seq<Frame>, n: nat, s: Bytes)
    requires n > 0
    ensures match FrameAt(s)
            case End => After(done, ItemsAt(n, s)) == BadItems(UnexpectedEof)
            case Bad(error) => After(done, ItemsAt(n, s)) == BadItems(error)
            case Got(frame, rest) => After(done, ItemsAt(n, s)) == After(done + [frame], ItemsAt(n - 1, rest))
  {
    var r := FrameAt(s);
    if r.Got? {
      var later := ItemsAt(n - 1, r.rest);
      if later.Items? {
        assert done + ([r.frame] + later.frames) == done + [r.frame] + later.frames;
      }
    }
  }

  /** Every frame up to the first end of input or error. */
  datatype Stream = Stream(frames: seq<Frame>, failure: Option<ReadError>)

  function ReadAll(s: Bytes): Stream
    decreases |s|
  {
    match FrameAt(s)
    case End => Stream([], None)
    case Bad(error) => Stream([], Some(error))
    case Got(frame, rest) =>
      var later := ReadAll(rest);
      Stream([frame] + later.frames, later.failure)
  }

  class Reader {
    const input: Bytes
    var position: nat

    ghost predicate Valid()
      reads this
    {
      position <= |input|
    }

    /** The bytes not read yet. */
    ghost function Ahead(): Bytes
      reads this
      requires Valid()
    {
      input[position..]
    }

    constructor (input: Bytes)
      ensures Valid() && Ahead() == this.input == input
    {
      this.input := input;
      position := 0;
    }

    /** `read_until(b'\n')` */
    method ReadLine() returns (line: Bytes)
      requires Valid()
      modifies this`position
      ensures Valid()
      ensures (line, Ahead()) == SplitLine(old(Ahead()))
      ensures position == old(position) + |line|
    {
      ghost var s := Ahead();
      var n := 0;
      var more := position < |input|;
      while more
        invariant position == old(position) && n <= |s| && (more ==> n < |s|)
        invariant LineLength(s) == n + if more then LineLength(s[n..]) else 0
        decreases |s| - n, more
      {
        OneMoreByte(s, n);
        more := input[position + n] != LF && position + n + 1 < |input|;
        n := n + 1;
      }
      SplitAtLineLength(s);
      line := input[position..position + n];
      position := position + n;
      assert line == s[..n] && Ahead() == s[n..];
    }

    method ReadFrame() returns (r: Result<Option<Frame>, ReadError>)
      requires Valid()
      modifies this`position
      ensures Valid() && position >= old(position)
      ensures match FrameAt(old(Ahead()))
              case End => r == Ok(None) && position == old(position)
              case Bad(error) => r == Err(error)
              case Got(frame, rest) => r == Ok(Some(frame)) && Ahead() == rest && position > old(position)
      decreases |input| - position, 0
    {
      var line := ReadLine();
      if |line| == 0 {
        return Ok(None);
      }
      line := TrimCrlf(line);
      if line == [] {
        return Ok(Some(EmptyRequest()));
      }
      if line[0] == STAR {
        var frame := ReadArray(line[1..]);
        r := if frame.Ok? then Ok(Some(frame.value)) else Err(frame.error);
      } else if line[0] == DOLLAR {
        var frame := ReadBulk(line[1..]);
        r := if frame.Ok? then Ok(Some(frame.value)) else Err(frame.error);
      } else if line[0] == PLUS {
        r := if ValidUtf8(line[1..]) then Ok(Some(Simple(line[1..]))) else Err(InvalidData);
      } else if line[0] == COLON {
        var n := ParseLength(line[1..]);
        r := if n.Some? then Ok(Some(Integer(n.value))) else Err(InvalidData);
      } else {
        r := Ok(Some(ParseInline(line)));
      }
    }

    method ReadArray(length: Bytes) returns (r: Result<Frame, ReadError>)
      requires Valid()
      modifies this`position
      ensures Valid() && position >= old(position)
      ensures match ArrayAt(length, old(Ahead()))
              case Bad(error) => r == Err(error)
              case Got(frame, rest) => r == Ok(frame) && Ahead() == rest
      decreases |input| - position, 2
    {
      var parsed := ParseUsize(length);
      if parsed.None? {
        return Err(InvalidData);
      }
      var items := ReadItems(parsed.value);
      r := if items.Ok? then Ok(Array(items.value)) else Err(items.error);
    }

    /** The loop of `read_array`. */
    method ReadItems(len: nat) returns (r: Result<seq<Frame>, ReadError>)
      requires Valid()
      modifies this`position
      ensures Valid() && position >= old(position)
      ensures match ItemsAt(len, old(Ahead()))
              case BadItems(error) => r == Err(error)
              case Items(frames, rest) => r == Ok(frames) && Ahead() == rest
      decreases |input| - position, 1
    {
      var items: seq<Frame> := [];
      ghost var whole := ItemsAt(len, Ahead());
      for i := 0 to len
        invariant Valid() && position >= old(position) + i
        invariant After(items, ItemsAt(len - i, Ahead())) == whole
      {
        OneMoreItem(items, len - i, Ahead());
        var next := ReadFrame();
        if next.Err? {
          return Err(next.error);
        }
        if next.value.None? {
          return Err(UnexpectedEof);
        }
        items := items + [next.value.value];
      }
      assert items + [] == items;
      r := Ok(items);
    }

    method ReadBulk(length: Bytes) returns (r: Result<Frame, ReadError>)
      requires Valid()
      modifies this`position
      ensures Valid() && position >= old(position)
      ensures match BulkAt(length, old(Ahead()))
              case Bad(error) => r == Err(error)
              case Got(frame, rest) => r == Ok(frame) && Ahead() == rest
    {
      var parsed := ParseLength(length);
      if parsed.None? {
        return Err(InvalidData);
      }
      var len: int := parsed.value;
      if len == -1 {
        return Ok(Null);
      }
      if len < 0 {
        return Err(InvalidData);
      }
      if |input| - position < len + 2 {
        position := |input|;
        return Err(UnexpectedEof);
      }
      ghost var s := Ahead();
      var buffer := input[position..position + len + 2];
      position := position + len + 2;
      assert buffer == s[..len + 2] && Ahead() == s[len + 2..];
      assert buffer[len..] == s[len..len + 2] && buffer[..len] == s[..len];
      if buffer[len..] != CRLF {
        return Err(InvalidData);
      }
      r := Ok(Bulk(buffer[..len]));
    }
  }
}
