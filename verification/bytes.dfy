/** Byte strings, the UTF-8 validity test behind every `String` of the server,
    and the machine integer ranges that number parsing must respect. */
module ByteStrings {

  datatype Option<+T> = None | Some(value: T)

  datatype Result<+T, +E> = Ok(value: T) | Err(error: E) {
    predicate IsFailure() {
      Err?
    }

    function PropagateFailure<U>(): Result<U, E>
      requires Err?
    {
      Err(error)
    }

    function Extract(): T
      requires Ok?
    {
      value
    }
  }

  newtype byte = b: int | 0 <= b < 256

  type Bytes = seq<byte>

  type i64 = n: int | -0x8000_0000_0000_0000 <= n < 0x8000_0000_0000_0000

  type u64 = n: int | 0 <= n < 0x1_0000_0000_0000_0000

  const I64_MAX: nat := 0x7FFF_FFFF_FFFF_FFFF
  const U64_MAX: nat := 0xFFFF_FFFF_FFFF_FFFF

  const LF: byte := 10
  const CR: byte := 13
  const CRLF: Bytes := [13, 10]

  // ---- UTF-8 (section 4 of RFC 3629) ----

  predicate IsTail(b: byte) {
    0x80 <= b <= 0xBF
  }

  /** Width of the well-formed character that starts `s`, or 0 when there is none. */
  function CharWidth(s: Bytes): (w: nat)
    requires s != []
    ensures w <= |s|
  {
    var b := s[0];
    if b < 0x80 then 1
    else if |s| >= 2 && 0xC2 <= b <= 0xDF && IsTail(s[1]) then 2
    else if |s| >= 3 && IsTail(s[2])
            && (|| (b == 0xE0 && 0xA0 <= s[1] <= 0xBF)
                || (b == 0xED && 0x80 <= s[1] <= 0x9F)
                || (0xE1 <= b <= 0xEF && b != 0xED && IsTail(s[1]))) then 3
    else if |s| >= 4 && IsTail(s[2]) && IsTail(s[3])
            && (|| (b == 0xF0 && 0x90 <= s[1] <= 0xBF)
                || (b == 0xF4 && 0x80 <= s[1] <= 0x8F)
                || (0xF1 <= b <= 0xF3 && IsTail(s[1]))) then 4
    else 0
  }

  predicate ValidUtf8(s: Bytes) {
    s == [] || (CharWidth(s) > 0 && ValidUtf8(s[CharWidth(s)..]))
  }

  predicate IsAscii(s: Bytes) {
    forall i :: 0 <= i < |s| ==> s[i] < 0x80
  }

  lemma {:induction false} AsciiIsUtf8(s: Bytes)
    requires IsAscii(s)
    ensures ValidUtf8(s)
  {
    if s != [] {
      assert forall i :: 0 <= i < |s[1..]| ==> s[1..][i] == s[i + 1];
      AsciiIsUtf8(s[1..]);
    }
  }

  lemma CharWidthConcat(a: Bytes, b: Bytes)
    requires a != [] && CharWidth(a) > 0
    ensures CharWidth(a + b) == CharWidth(a)
  {
    var s := a + b;
    assert s[0] == a[0];
    assert |a| >= 2 ==> s[1] == a[1];
    assert |a| >= 3 ==> s[2] == a[2];
    assert |a| >= 4 ==> s[3] == a[3];
  }

  lemma {:induction false} Utf8Concat(a: Bytes, b: Bytes)
    requires ValidUtf8(a) && ValidUtf8(b)
    ensures ValidUtf8(a + b)
  {
    if a == [] {
      assert a + b == b;
    } else {
      var w := CharWidth(a);
      Utf8Concat(a[w..], b);
      assert (a + b)[w..] == a[w..] + b;
      CharWidthConcat(a, b);
    }
  }

  /** A Rust `String`: bytes that passed UTF-8 validation. */
  type Str = s: Bytes | ValidUtf8(s) witness []

  /** The bytes of an ASCII literal. */
  function Ascii(s: string): (r: Str)
    ensures |r| == |s| && IsAscii(r)
  {
    var r: Bytes := seq(|s|, i requires 0 <= i < |s| => (s[i] as int % 128) as byte);
    AsciiIsUtf8(r);
    r
  }

  lemma AsciiAt(s: string)
    ensures forall i :: 0 <= i < |s| ==> Ascii(s)[i] as int == s[i] as int % 128
  {
  }

  // ---- ASCII upper-casing ----

  function UpperByte(b: byte): byte {
    if 0x61 <= b <= 0x7A then b - 0x20 else b
  }

  function Upper(s: Bytes): (r: Bytes)
    ensures |r| == |s| && forall i :: 0 <= i < |s| ==> r[i] == UpperByte(s[i])
  {
    seq(|s|, i requires 0 <= i < |s| => UpperByte(s[i]))
  }

  lemma {:induction false} UpperKeepsUtf8(s: Bytes)
    requires ValidUtf8(s)
    ensures ValidUtf8(Upper(s))
  {
    if s != [] {
      var w := CharWidth(s);
      UpperKeepsUtf8(s[w..]);
      assert Upper(s)[w..] == Upper(s[w..]);
      assert CharWidth(Upper(s)) == w;
    }
  }

  // ---- lexicographic order on keys (`String::cmp`) ----

  predicate Leq(a: Bytes, b: Bytes) {
    a == [] || (b != [] && (a[0] < b[0] || (a[0] == b[0] && Leq(a[1..], b[1..]))))
  }

  lemma {:induction false} LeqTotal(a: Bytes, b: Bytes)
    ensures Leq(a, b) || Leq(b, a)
    ensures Leq(a, b) && Leq(b, a) ==> a == b
  {
    if a != [] && b != [] {
      LeqTotal(a[1..], b[1..]);
      assert a == [a[0]] + a[1..] && b == [b[0]] + b[1..];
    }
  }

  lemma {:induction false} LeqTransitive(a: Bytes, b: Bytes, c: Bytes)
    requires Leq(a, b) && Leq(b, c)
    ensures Leq(a, c)
  {
    if a != [] {
      if a[0] == b[0] && b[0] == c[0] {
        LeqTransitive(a[1..], b[1..], c[1..]);
      }
    }
  }

  // ---- sequences ----

  function Reverse<T>(s: seq<T>): (r: seq<T>)
    ensures |r| == |s| && forall i :: 0 <= i < |s| ==> r[i] == s[|s| - 1 - i]
  {
    if s == [] then [] else Reverse(s[1..]) + [s[0]]
  }

  function Min(a: int, b: int): int {
    if a <= b then a else b
  }
}
