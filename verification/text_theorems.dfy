/** What the byte-level definitions mean: order, numerals and UTF-8, each against a
    definition that does not use them. */
module TextTheorems {
  import opened ByteStrings
  import opened Decimal

  // ---- order ----

  /** The strings agree on their first `p` bytes. */
  predicate Agree(a: Bytes, b: Bytes, p: nat) {
    p <= |a| && p <= |b| && forall i :: 0 <= i < p ==> a[i] == b[i]
  }

  /** The first string ends there, or has the smaller byte. */
  predicate Before(a: Bytes, b: Bytes, p: nat) {
    Agree(a, b, p) && (p == |a| || (p < |b| && a[p] < b[p]))
  }

  /** `Leq` is the lexicographic order: it is decided where the strings first differ. */
  lemma {:induction false} LeqIsLexicographic(a: Bytes, b: Bytes)
    ensures Leq(a, b) <==> exists p: nat :: Before(a, b, p)
  {
    if a == [] {
      assert Before(a, b, 0);
    } else if b != [] && a[0] == b[0] {
      LeqIsLexicographic(a[1..], b[1..]);
      if Leq(a, b) {
        var p: nat :| Before(a[1..], b[1..], p);
        assert Before(a, b, p + 1);
      }
      if p: nat :| Before(a, b, p) {
        assert Before(a[1..], b[1..], p - 1);
      }
    } else if Leq(a, b) {
      assert Before(a, b, 0);
    }
  }

  // ---- numerals ----

  function Pow10(n: nat): (p: nat)
    ensures p > 0
  {
    if n == 0 then 1 else 10 * Pow10(n - 1)
  }

  lemma QuotientIs(a: nat, p: nat, q: nat, r: nat)
    requires a == p * q + r && r < p
    ensures a / p == q
  {
    var q', r' := a / p, a % p;
    if q < q' {
      Multiples(p, q, q');
    } else if q' < q {
      Multiples(p, q', q);
    }
  }

  lemma {:induction false} Multiples(p: nat, few: nat, many: nat)
    requires few < many
    ensures p * few + p <= p * many
  {
    OneMore(p, many - 1);
    if few + 1 < many {
      Multiples(p, few, many - 1);
    }
  }

  lemma OneMore(p: nat, k: nat)
    ensures p * (k + 1) == p * k + p
  {
  }

  lemma DropLastDigit(a: nat, d: nat, p: nat)
    requires d < 10 && p > 0
    ensures (10 * a + d) / (10 * p) == a / p
  {
    var q, r := a / p, a % p;
    assert a == p * q + r;
    assert 10 * a + d == (10 * p) * q + (10 * r + d);
    QuotientIs(10 * a + d, 10 * p, q, 10 * r + d);
  }

  /** The digit at each place, counted from the right, is the digit of the value. */
  lemma {:induction false} DigitsAreDecimal(s: Bytes, i: nat)
    requires AllDigits(s) && i < |s|
    ensures DigitsValue(s) < Pow10(|s|)
    ensures DigitsValue(s) / Pow10(i) % 10 == s[|s| - 1 - i] as int - 48
  {
    var front := s[..|s| - 1];
    var d := s[|s| - 1] as int - 48;
    assert DigitsValue(s) == 10 * DigitsValue(front) + d;
    if |front| > 0 {
      DigitsAreDecimal(front, if i == 0 then 0 else i - 1);
    } else {
      assert Pow10(1) == 10 * Pow10(0);
    }
    if i > 0 {
      DropLastDigit(DigitsValue(front), d, Pow10(i - 1));
    }
  }

  /** A printed number has no needless zero in front. */
  lemma {:induction false} NoZeroInFront(n: nat)
    ensures |PrintNat(n)| > 1 ==> PrintNat(n)[0] != 48
    ensures n > 0 ==> PrintNat(n)[0] != 48
  {
    if n >= 10 {
      NoZeroInFront(n / 10);
    }
  }

  /** A printed number is its decimal digits. */
  lemma PrintIsDecimal(n: nat, i: nat)
    requires i < |PrintNat(n)|
    ensures n < Pow10(|PrintNat(n)|)
    ensures n / Pow10(i) % 10 == PrintNat(n)[|PrintNat(n)| - 1 - i] as int - 48
    ensures |PrintNat(n)| > 1 ==> PrintNat(n)[0] != 48
  {
    DigitsValueOfPrint(n);
    DigitsAreDecimal(PrintNat(n), i);
    NoZeroInFront(n);
  }

  /** Nothing, a plus sign, or, where allowed, a minus sign. */
  predicate IsSign(sign: Bytes, minus: bool) {
    sign == [] || (|sign| == 1 && (sign[0] == 43 || (minus && sign[0] == 45)))
  }

  /** A sign and at least one digit. */
  ghost predicate IsNumeral(s: Bytes, sign: Bytes, digits: Bytes) {
    s == sign + digits && digits != [] && forall i :: 0 <= i < |digits| ==> 48 <= digits[i] <= 57
  }

  function Worth(sign: Bytes, digits: Bytes): int
    requires AllDigits(digits)
  {
    var n: int := DigitsValue(digits);
    if sign != [] && sign[0] == 45 then -n else n
  }

  lemma SignIs(s: Bytes, sign: Bytes, digits: Bytes)
    requires IsNumeral(s, sign, digits) && IsSign(sign, true)
    ensures s != [] && AllDigits(digits)
    ensures if sign == [] then s == digits && IsDigit(s[0]) else s[0] == sign[0] && s[1..] == digits
  {
    if sign == [] {
      assert s == digits;
    } else {
      assert s[0] == sign[0] && s[1..] == digits;
    }
  }

  lemma SignedNumeral(s: Bytes, sign: Bytes, digits: Bytes)
    requires IsNumeral(s, sign, digits) && IsSign(sign, true)
    ensures AllDigits(digits) && ParseInteger(s, true) == Some(Worth(sign, digits))
  {
    SignIs(s, sign, digits);
  }

  lemma UnsignedNumeral(s: Bytes, sign: Bytes, digits: Bytes)
    requires IsNumeral(s, sign, digits) && IsSign(sign, false)
    ensures AllDigits(digits) && ParseInteger(s, false) == Some(DigitsValue(digits))
  {
    SignIs(s, sign, digits);
  }

  /** A signed number is read from exactly the numerals with an optional sign that fit. */
  lemma SignedExactly(s: Bytes, n: i64)
    ensures ParseI64(s) == Some(n) <==>
            exists sign: Bytes, digits: Bytes ::
              && IsNumeral(s, sign, digits) && IsSign(sign, true) && AllDigits(digits)
              && n == Worth(sign, digits)
  {
    if ParseI64(s) == Some(n) {
      var sign: Bytes := if s[0] == 45 || s[0] == 43 then [s[0]] else [];
      assert IsNumeral(s, sign, s[|sign|..]);
      SignedNumeral(s, sign, s[|sign|..]);
    }
    forall sign: Bytes, digits: Bytes | IsNumeral(s, sign, digits) && IsSign(sign, true)
      ensures AllDigits(digits)
      ensures ParseInteger(s, true) == Some(Worth(sign, digits))
    {
      SignedNumeral(s, sign, digits);
    }
  }

  /** An unsigned number is read from exactly the numerals without a minus sign that fit. */
  lemma UnsignedExactly(s: Bytes, n: u64)
    ensures ParseU64(s) == Some(n) <==>
            exists sign: Bytes, digits: Bytes ::
              && IsNumeral(s, sign, digits) && IsSign(sign, false) && AllDigits(digits)
              && n == DigitsValue(digits)
  {
    if ParseU64(s) == Some(n) {
      var sign: Bytes := if s[0] == 43 then [s[0]] else [];
      assert IsNumeral(s, sign, s[|sign|..]);
      UnsignedNumeral(s, sign, s[|sign|..]);
    }
    forall sign: Bytes, digits: Bytes | IsNumeral(s, sign, digits) && IsSign(sign, false)
      ensures AllDigits(digits) && ParseInteger(s, false) == Some(DigitsValue(digits))
    {
      UnsignedNumeral(s, sign, digits);
    }
  }

  // ---- UTF-8 (section 3 of RFC 3629) ----

  /** A code point that UTF-8 can encode: no surrogate. */
  type Scalar = c: int | 0 <= c < 0xD800 || 0xE000 <= c < 0x11_0000

  function EncodeChar(c: Scalar): (s: Bytes)
    ensures s != []
  {
    if c < 0x80 then [c as byte]
    else if c < 0x800 then [(0xC0 + c / 0x40) as byte, (0x80 + c % 0x40) as byte]
    else if c < 0x1_0000 then
      [(0xE0 + c / 0x1000) as byte, (0x80 + c / 0x40 % 0x40) as byte, (0x80 + c % 0x40) as byte]
    else
      [(0xF0 + c / 0x4_0000) as byte, (0x80 + c / 0x1000 % 0x40) as byte,
       (0x80 + c / 0x40 % 0x40) as byte, (0x80 + c % 0x40) as byte]
  }

  function EncodeText(text: seq<Scalar>): Bytes {
    if text == [] then [] else EncodeChar(text[0]) + EncodeText(text[1..])
  }

  lemma EncodedWidth(c: Scalar)
    ensures CharWidth(EncodeChar(c)) == |EncodeChar(c)|
  {
  }

  /** The code point that starts `s`. */
  function CharAt(s: Bytes): (c: Scalar)
    requires s != [] && CharWidth(s) > 0
  {
    var b := s[0] as int;
    match CharWidth(s)
    case 1 => b
    case 2 => (b - 0xC0) * 0x40 + (s[1] as int - 0x80)
    case 3 => (b - 0xE0) * 0x1000 + (s[1] as int - 0x80) * 0x40 + (s[2] as int - 0x80)
    case _ => (b - 0xF0) * 0x4_0000 + (s[1] as int - 0x80) * 0x1000 + (s[2] as int - 0x80) * 0x40 + (s[3] as int - 0x80)
  }

  lemma Sextet(q: nat, r: nat)
    requires r < 0x40
    ensures (q * 0x40 + r) / 0x40 == q && (q * 0x40 + r) % 0x40 == r
  {
  }

  lemma Sextets(a: nat, b: nat, c: nat)
    requires b < 0x40 && c < 0x40
    ensures var n := a * 0x1000 + b * 0x40 + c;
            n / 0x1000 == a && n / 0x40 % 0x40 == b && n % 0x40 == c
  {
    Sextet(a * 0x40 + b, c);
    Sextet(a, b);
  }

  lemma ThreeBytes(s: Bytes)
    requires s != [] && CharWidth(s) == 3
    ensures EncodeChar(CharAt(s)) == s[..3]
  {
    Sextets(s[0] as int - 0xE0, s[1] as int - 0x80, s[2] as int - 0x80);
  }

  lemma FourBytes(s: Bytes)
    requires s != [] && CharWidth(s) == 4
    ensures EncodeChar(CharAt(s)) == s[..4]
  {
    var a, b, c, d := s[0] as int - 0xF0, s[1] as int - 0x80, s[2] as int - 0x80, s[3] as int - 0x80;
    Sextets(a * 0x40 + b, c, d);
    Sextet(a, b);
    assert CharAt(s) / 0x4_0000 == a;
  }

  lemma CharReadsBack(s: Bytes)
    requires s != [] && CharWidth(s) > 0
    ensures EncodeChar(CharAt(s)) == s[..CharWidth(s)]
  {
    match CharWidth(s) {
      case 1 =>
      case 2 => Sextet(s[0] as int - 0xC0, s[1] as int - 0x80);
      case 3 => ThreeBytes(s);
      case _ => FourBytes(s);
    }
  }

  lemma {:induction false} EncodedIsValid(text: seq<Scalar>)
    ensures ValidUtf8(EncodeText(text))
  {
    if text != [] {
      var c := EncodeChar(text[0]);
      EncodedWidth(text[0]);
      assert c[|c|..] == [] && ValidUtf8(c);
      EncodedIsValid(text[1..]);
      Utf8Concat(c, EncodeText(text[1..]));
    }
  }

  lemma {:induction false} ValidIsEncoded(s: Bytes) returns (text: seq<Scalar>)
    requires ValidUtf8(s)
    ensures s == EncodeText(text)
  {
    if s == [] {
      text := [];
    } else {
      var w := CharWidth(s);
      var later := ValidIsEncoded(s[w..]);
      CharReadsBack(s);
      text := [CharAt(s)] + later;
      assert text[1..] == later && s == s[..w] + s[w..];
    }
  }

  /** Valid byte strings are exactly the encodings of code points. */
  lemma ValidExactly(s: Bytes)
    ensures ValidUtf8(s) <==> exists text: seq<Scalar> :: s == EncodeText(text)
  {
    if ValidUtf8(s) {
      var text := ValidIsEncoded(s);
    }
    if text: seq<Scalar> :| s == EncodeText(text) {
      EncodedIsValid(text);
    }
  }
}
