/** Decimal integers as Rust prints them (`to_string`) and parses them (`str::parse`). */
module Decimal {
  import opened ByteStrings

  const MINUS: byte := 45
  const PLUS: byte := 43
  const ZERO: byte := 48

  predicate IsDigit(b: byte) {
    48 <= b <= 57
  }

  predicate AllDigits(s: Bytes) {
    forall i :: 0 <= i < |s| ==> IsDigit(s[i])
  }

  function PrintNat(n: nat): (s: Bytes)
    ensures s != [] && AllDigits(s)
  {
    if n < 10 then [ZERO + n as byte] else PrintNat(n / 10) + [ZERO + (n % 10) as byte]
  }

  function PrintInt(n: int): (s: Bytes) {
    if n < 0 then [MINUS] + PrintNat(-n) else PrintNat(n)
  }

  function DigitsValue(s: Bytes): nat
    requires AllDigits(s)
  {
    if s == [] then 0 else 10 * DigitsValue(s[..|s| - 1]) + (s[|s| - 1] - ZERO) as nat
  }

  /** Sign and digits to an integer: one optional sign, at least one digit, nothing else.
      An unsigned target has no minus sign. */
  function ParseInteger(s: Bytes, signed: bool): Option<int> {
    if s == [] then None
    else
      var negative := signed && s[0] == MINUS;
      var digits := if negative || s[0] == PLUS then s[1..] else s;
      if digits == [] || !AllDigits(digits) then None
      else
        var value: int := DigitsValue(digits);
        Some(if negative then -value else value)
  }

  function ParseI64(s: Bytes): (r: Option<i64>) {
    match ParseInteger(s, true)
    case Some(n) => if -0x8000_0000_0000_0000 <= n <= I64_MAX then Some(n) else None
    case None => None
  }

  function ParseU64(s: Bytes): (r: Option<u64>) {
    match ParseInteger(s, false)
    case Some(n) => if 0 <= n <= U64_MAX then Some(n) else None
    case None => None
  }

  lemma {:induction false} DigitsValueOfPrint(n: nat)
    ensures DigitsValue(PrintNat(n)) == n
  {
    if n >= 10 {
      DigitsValueOfPrint(n / 10);
      var s := PrintNat(n);
      assert s[..|s| - 1] == PrintNat(n / 10);
    }
  }

  /** Printing and parsing undo each other on the whole signed range. */
  lemma PrintParseI64(n: i64)
    ensures ParseI64(PrintInt(n)) == Some(n)
  {
    var wide: int := n;
    var m: nat := if wide < 0 then -wide else wide;
    DigitsValueOfPrint(m);
    if n < 0 {
      assert PrintInt(n)[1..] == PrintNat(m);
    }
  }

  /** Printing and parsing undo each other on the whole unsigned range. */
  lemma PrintParseU64(n: u64)
    ensures ParseU64(PrintNat(n)) == Some(n)
  {
    DigitsValueOfPrint(n);
  }

  /** Printed integers are ASCII and hold no line break, blank or colon. */
  lemma PrintIsPlain(n: int)
    ensures forall i :: 0 <= i < |PrintInt(n)| ==> IsDigit(PrintInt(n)[i]) || PrintInt(n)[i] == MINUS
    ensures ValidUtf8(PrintInt(n))
  {
    assert IsAscii(PrintInt(n));
    AsciiIsUtf8(PrintInt(n));
  }

  /** A positive number keeps a positive value when its text is cut short, however short. */
  lemma {:induction false} CutPrintStaysPositive(n: nat, k: nat)
    requires n > 0 && 0 < k <= |PrintNat(n)|
    ensures AllDigits(PrintNat(n)[..k]) && 0 < DigitsValue(PrintNat(n)[..k]) <= n
  {
    var s := PrintNat(n);
    if k == |s| {
      assert s[..k] == s;
      DigitsValueOfPrint(n);
    } else if n >= 10 {
      assert s[..k] == PrintNat(n / 10)[..k];
      CutPrintStaysPositive(n / 10, k);
    }
  }
}
