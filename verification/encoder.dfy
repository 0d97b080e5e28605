/** The RESP2 encoder: a writer whose buffer grows, proved against the text of a frame. */
module Encoder {
  import opened ByteStrings
  import opened Decimal
  import opened Frames

  const STAR: byte := 42
  const DOLLAR: byte := 36
  const COLON: byte := 58
  const DASH: byte := 45

  function Encode(f: Frame): (s: Bytes)
    ensures s != []
    decreases f, 0
  {
    match f
    case Simple(text) => [PLUS] + text + CRLF
    case Error(message) => [DASH] + message + CRLF
    case Integer(n) => [COLON] + PrintInt(n) + CRLF
    case Bulk(bytes) => [DOLLAR] + PrintNat(|bytes|) + CRLF + bytes + CRLF
    case Null => [DOLLAR, 45, 49] + CRLF
    case Array(items) => [STAR] + PrintNat(|items|) + CRLF + EncodeAll(items)
  }

  function EncodeAll(fs: seq<Frame>): (s: Bytes)
    decreases fs
  {
    if fs == [] then [] else Encode(fs[0]) + EncodeAll(fs[1..])
  }

  lemma {:induction false} EncodeAllConcat(a: seq<Frame>, b: seq<Frame>)
    ensures EncodeAll(a + b) == EncodeAll(a) + EncodeAll(b)
  {
    if a == [] {
      assert a + b == b;
    } else {
      assert (a + b)[1..] == a[1..] + b;
      EncodeAllConcat(a[1..], b);
    }
  }

  lemma EncodeStep(before: Bytes, items: seq<Frame>, i: nat)
    requires i < |items|
    ensures before + EncodeAll(items[i..]) == before + Encode(items[i]) + EncodeAll(items[i + 1..])
  {
    assert items[i..][1..] == items[i + 1..];
  }

  class Writer {
    var buffer: Bytes

    constructor ()
      ensures buffer == []
    {
      buffer := [];
    }

    method WriteAll(bytes: Bytes)
      modifies this
      ensures buffer == old(buffer) + bytes
    {
      buffer := buffer + bytes;
    }

    method WriteFrame(f: Frame)
      modifies this
      ensures buffer == old(buffer) + Encode(f)
      decreases f, 1
    {
      match f {
        case Simple(text) =>
          WriteAll([PLUS]);
          WriteAll(text);
          WriteAll(CRLF);
          assert buffer == old(buffer) + ([PLUS] + text + CRLF);
        case Error(message) =>
          WriteAll([DASH]);
          WriteAll(message);
          WriteAll(CRLF);
          assert buffer == old(buffer) + ([DASH] + message + CRLF);
        case Integer(n) =>
          WriteAll([COLON] + PrintInt(n) + CRLF);
        case Bulk(bytes) =>
          ghost var header := [DOLLAR] + PrintNat(|bytes|) + CRLF;
          WriteAll([DOLLAR] + PrintNat(|bytes|) + CRLF);
          WriteAll(bytes);
          WriteAll(CRLF);
          assert buffer == old(buffer) + (header + bytes + CRLF);
        case Null =>
          WriteAll([DOLLAR, 45, 49] + CRLF);
        case Array(items) =>
          WriteArray(items);
      }
    }

    method WriteArray(items: seq<Frame>)
      modifies this
      ensures buffer == old(buffer) + ([STAR] + PrintNat(|items|) + CRLF + EncodeAll(items))
      decreases items, 0
    {
      ghost var header := [STAR] + PrintNat(|items|) + CRLF;
      WriteAll([STAR] + PrintNat(|items|) + CRLF);
      ghost var whole := old(buffer) + (header + EncodeAll(items));
      assert items[0..] == items && buffer + EncodeAll(items) == whole;
      for i := 0 to |items|
        invariant buffer + EncodeAll(items[i..]) == whole
      {
        EncodeStep(buffer, items, i);
        WriteFrame(items[i]);
      }
      assert items[|items|..] == [] && buffer + [] == buffer;
    }
  }
}
