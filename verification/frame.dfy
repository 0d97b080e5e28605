/** RESP2 frames. */
module Frames {
  import opened ByteStrings

  datatype Frame =
    | Simple(text: Str)
    | Error(message: Str)
    | Integer(n: i64)
    | Bulk(bytes: Bytes)
    | Null
    | Array(items: seq<Frame>)

  /** The frames that the decoder can read back: no error frame anywhere inside, and no
      line feed in a simple string. */
  predicate Printable(f: Frame) {
    match f
    case Simple(text) => LF !in text
    case Error(_) => false
    case Array(items) => forall i :: 0 <= i < |items| ==> Printable(items[i])
    case _ => true
  }

  /** Payloads and arrays as long as a Rust vector can be. */
  predicate Sized(f: Frame) {
    match f
    case Bulk(bytes) => |bytes| <= I64_MAX
    case Array(items) => |items| <= I64_MAX && forall i :: 0 <= i < |items| ==> Sized(items[i])
    case _ => true
  }

  function Bulks(args: seq<Bytes>): (fs: seq<Frame>)
    ensures |fs| == |args| && forall i :: 0 <= i < |args| ==> fs[i] == Bulk(args[i])
  {
    seq(|args|, i requires 0 <= i < |args| => Bulk(args[i]))
  }
}
