/** Decimal and hexadecimal numerals, as they are printed and as they are parsed. */
module Numerals {
  import opened Basics

  // ---- decimal ----

  predicate IsDigit(c: char) {
    '0' <= c <= '9'
  }

  function DigitChar(d: nat): (c: char)
    requires d < 10
    ensures IsDigit(c) && DigitValue(c) == d
  {
    '0' + d as char
  }

  function DigitValue(c: char): (d: nat)
    requires IsDigit(c)
    ensures d < 10
  {
    c as int - '0' as int
  }

  predicate AllDigits(t: string) {
    forall c :: c in t ==> IsDigit(c)
  }

  function Decimal(n: nat): (t: string)
    ensures t != "" && AllDigits(t)
  {
    if n < 10 then [DigitChar(n)] else Decimal(n / 10) + [DigitChar(n % 10)]
  }

  function DecimalValue(t: string): nat
    requires AllDigits(t)
  {
    if t == "" then 0 else DecimalValue(t[..|t| - 1]) * 10 + DigitValue(t[|t| - 1])
  }

  // An unsigned parse: an optional `+`, then digits, then a range check.
  function ParseUnsigned(t: string, bound: nat): (r: VfsResult<nat>)
    ensures r.Ok? ==> r.value < bound
  {
    var digits := if t != "" && t[0] == '+' then t[1..] else t;
    if digits == "" || !AllDigits(digits) then Err(Decode)
    else if DecimalValue(digits) >= bound then Err(Decode)
    else Ok(DecimalValue(digits))
  }

  // The spelling the printer uses: digits without sign or leading zeros.
  predicate CanonicalDecimal(t: string) {
    t != "" && AllDigits(t) && (|t| == 1 || t[0] != '0')
  }

  lemma {:induction false} DecimalIsCanonical(n: nat)
    ensures CanonicalDecimal(Decimal(n)) && DecimalValue(Decimal(n)) == n
    ensures n > 0 ==> Decimal(n)[0] != '0'
  {
    if n < 10 {
      assert Decimal(n)[..0] == "";
    } else {
      DecimalIsCanonical(n / 10);
      assert Decimal(n)[..|Decimal(n)| - 1] == Decimal(n / 10);
      assert Decimal(n)[0] == Decimal(n / 10)[0];
    }
  }

  lemma {:induction false} CanonicalIsDecimal(t: string)
    requires CanonicalDecimal(t)
    ensures Decimal(DecimalValue(t)) == t
    ensures t[0] != '0' ==> DecimalValue(t) > 0
  {
    var front, last := t[..|t| - 1], t[|t| - 1];
    if |t| == 1 {
      assert front == "" && t == [last];
    } else {
      assert forall c :: c in front ==> c in t;
      assert front[0] == t[0];
      CanonicalIsDecimal(front);
      assert t == front + [last];
      assert DecimalValue(t) == DecimalValue(front) * 10 + DigitValue(last);
      assert DigitChar(DigitValue(last)) == last;
    }
  }

  lemma DecimalRoundTrip(n: nat, bound: nat)
    requires n < bound
    ensures ParseUnsigned(Decimal(n), bound) == Ok(n)
  {
    DecimalIsCanonical(n);
    assert Decimal(n)[0] in Decimal(n);
  }

  // A parsed numeral is reprinted as it stood exactly when it was canonical.
  lemma DecimalReprints(t: string, bound: nat)
    requires ParseUnsigned(t, bound).Ok?
    ensures Decimal(ParseUnsigned(t, bound).value) == t <==> CanonicalDecimal(t)
  {
    var n := ParseUnsigned(t, bound).value;
    DecimalIsCanonical(n);
    if CanonicalDecimal(t) {
      assert t[0] in t;
      CanonicalIsDecimal(t);
    }
  }

  // ---- hexadecimal bytes ----

  function HexValue(c: char): Option<nat> {
    if '0' <= c <= '9' then Some(c as int - '0' as int)
    else if 'a' <= c <= 'f' then Some(c as int - 'a' as int + 10)
    else if 'A' <= c <= 'F' then Some(c as int - 'A' as int + 10)
    else None
  }

  function UpperHex(d: nat): (c: char)
    requires d < 16
    ensures HexValue(c) == Some(d) && IsUpperHex(c)
  {
    if d < 10 then '0' + d as char else 'A' + (d - 10) as char
  }

  function LowerHex(d: nat): (c: char)
    requires d < 16
    ensures HexValue(c) == Some(d) && IsLowerHex(c)
  {
    if d < 10 then '0' + d as char else 'a' + (d - 10) as char
  }

  predicate IsUpperHex(c: char) {
    '0' <= c <= '9' || 'A' <= c <= 'F'
  }

  predicate IsLowerHex(c: char) {
    '0' <= c <= '9' || 'a' <= c <= 'f'
  }

  // Base-16 parse of two characters: either two digits of any case, or a `+`
  // and one digit.
  function HexPair(a: char, b: char): (r: Option<byte>) {
    match HexValue(b)
    case None => None
    case Some(low) =>
      if a == '+' then Some(low)
      else match HexValue(a)
           case None => None
           case Some(high) => if high * 16 + low < 0x100 then Some(high * 16 + low) else None
  }

  function UpperPair(b: byte): (t: string)
    ensures |t| == 2
  {
    [UpperHex(b / 16), UpperHex(b % 16)]
  }

  function LowerPair(b: byte): (t: string)
    ensures |t| == 2
  {
    [LowerHex(b / 16), LowerHex(b % 16)]
  }

  lemma UpperPairRoundTrip(b: byte)
    ensures HexPair(UpperPair(b)[0], UpperPair(b)[1]) == Some(b)
  {
  }

  lemma LowerPairRoundTrip(b: byte)
    ensures HexPair(LowerPair(b)[0], LowerPair(b)[1]) == Some(b)
  {
  }

  // A parsed pair is the upper-case (lower-case) print of its value exactly when
  // both characters are upper-case (lower-case) digits.
  lemma PairReprints(x: char, y: char)
    requires HexPair(x, y).Some?
    ensures UpperPair(HexPair(x, y).value) == [x, y] <==> IsUpperHex(x) && IsUpperHex(y)
    ensures LowerPair(HexPair(x, y).value) == [x, y] <==> IsLowerHex(x) && IsLowerHex(y)
  {
    var b := HexPair(x, y).value;
    assert UpperPair(b)[0] == UpperHex(b / 16) && UpperPair(b)[1] == UpperHex(b % 16);
    assert LowerPair(b)[0] == LowerHex(b / 16) && LowerPair(b)[1] == LowerHex(b % 16);
    if x != '+' {
      assert b / 16 == HexValue(x).value && b % 16 == HexValue(y).value;
    }
  }
}
