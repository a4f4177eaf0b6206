/**
 Percent-escaping and decimal numerals, in terms of the characters and bytes
 themselves: what is printed for a value, and exactly what is read as one.
 */
module PercentRules {
  import opened Basics
  import opened Numerals
  import Percent

  // ---- escapes ----

  // The byte stands for itself: `0-9`, `A-Z`, `a-z`, `-`, `.` and `_`.
  predicate StandsForItself(b: byte) {
    0x30 <= b <= 0x39 || 0x41 <= b <= 0x5A || 0x61 <= b <= 0x7A || b == 0x2D || b == 0x2E || b == 0x5F
  }

  // `c` is the hexadecimal digit `d`, in one of the two cases.
  predicate UpperDigit(c: char, d: nat) {
    d < 16 && c as int == if d < 10 then 0x30 + d else 0x41 + (d - 10)
  }

  predicate LowerDigit(c: char, d: nat) {
    d < 16 && c as int == if d < 10 then 0x30 + d else 0x61 + (d - 10)
  }

  // The rule for every byte: itself, or `%` and two upper-case digits.
  lemma EscapeRule(b: byte)
    ensures StandsForItself(b) ==> Percent.Encode([b]) == [b as char]
    ensures !StandsForItself(b) ==>
              var t := Percent.Encode([b]);
              |t| == 3 && t[0] == '%' && UpperDigit(t[1], b / 16) && UpperDigit(t[2], b % 16)
  {
    assert Percent.Encode([b]) == Percent.EncodeByte(b) + Percent.Encode([b][1..]);
    assert [b][1..] == [];
    assert Percent.Encode([b]) == Percent.EncodeByte(b);
  }

  // And a sequence is escaped byte by byte, so the rule settles every text.
  lemma {:induction false} EncodeAppend(a: seq<byte>, b: seq<byte>)
    ensures Percent.Encode(a + b) == Percent.Encode(a) + Percent.Encode(b)
  {
    if a == [] {
      assert a + b == b;
    } else {
      hide Percent.Encode, Percent.EncodeByte;
      EncodeAppend(a[1..], b);
      EncodeBegins(a);
      EncodeBegins(a + b);
      assert (a + b)[0] == a[0];
      assert (a + b)[1..] == a[1..] + b;
      Regroups(Percent.EncodeByte(a[0]), Percent.Encode(a[1..]), Percent.Encode(b));
    }
  }

  lemma Regroups(x: string, y: string, z: string)
    ensures x + (y + z) == (x + y) + z
  {
  }

  lemma EncodeBegins(bytes: seq<byte>)
    requires bytes != []
    ensures Percent.Encode(bytes) == Percent.EncodeByte(bytes[0]) + Percent.Encode(bytes[1..])
  {
  }

  // Two characters that are read as one byte: digits of either case, or `+` and one digit.
  ghost predicate SpellsByte(x: char, y: char, b: byte) {
    exists high: nat, low: nat :: SpellsHigh(x, high) && SpellsDigit(y, low) && b == 16 * high + low
  }

  predicate SpellsDigit(c: char, d: nat) {
    UpperDigit(c, d) || LowerDigit(c, d)
  }

  predicate SpellsHigh(c: char, d: nat) {
    SpellsDigit(c, d) || (c == '+' && d == 0)
  }

  lemma HexDigitsAreExact(c: char, d: nat)
    ensures HexValue(c) == Some(d) <==> SpellsDigit(c, d)
  {
  }

  lemma HexPairsAreExact(x: char, y: char, b: byte)
    ensures HexPair(x, y) == Some(b) <==> SpellsByte(x, y, b)
  {
    if HexPair(x, y) == Some(b) {
      var low := HexValue(y).value;
      HexDigitsAreExact(y, low);
      if x == '+' {
        assert SpellsHigh(x, 0) && SpellsDigit(y, low) && b == 16 * 0 + low;
      } else {
        var high := HexValue(x).value;
        HexDigitsAreExact(x, high);
        assert SpellsHigh(x, high) && SpellsDigit(y, low) && b == 16 * high + low;
      }
    }
    if high: nat, low: nat :| SpellsHigh(x, high) && SpellsDigit(y, low) && b == 16 * high + low {
      HexDigitsAreExact(y, low);
      HexDigitsAreExact(x, high);
    }
  }

  // The lower-case digits of a GUID byte.
  lemma LowerPairRule(b: byte)
    ensures LowerDigit(LowerPair(b)[0], b / 16) && LowerDigit(LowerPair(b)[1], b % 16)
  {
  }

  // ---- raw text is read as UTF-8 ----

  // A reader of one scalar value: `bs` is its shortest encoding. The lead byte gives
  // the topmost bits, each continuation six more.
  predicate IsUtf8Of(bs: seq<byte>, c: char) {
    var v := c as int;
    || (|bs| == 1 && bs[0] < 0x80 && v == bs[0])
    || (|bs| == 2 && 0xC0 <= bs[0] < 0xE0 && Continues(bs[1])
        && 0x80 <= v == SixMore(bs[0] as int - 0xC0, bs[1]))
    || (|bs| == 3 && 0xE0 <= bs[0] < 0xF0 && Continues(bs[1]) && Continues(bs[2])
        && 0x800 <= v == SixMore(SixMore(bs[0] as int - 0xE0, bs[1]), bs[2]))
    || (|bs| == 4 && 0xF0 <= bs[0] < 0xF8 && Continues(bs[1]) && Continues(bs[2]) && Continues(bs[3])
        && 0x10000 <= v == SixMore(SixMore(SixMore(bs[0] as int - 0xF0, bs[1]), bs[2]), bs[3]))
  }

  predicate Continues(b: byte) {
    0x80 <= b < 0xC0
  }

  function SixMore(high: int, b: byte): int {
    high * 0x40 + (b as int - 0x80)
  }

  lemma SixMoreIsUnique(a: int, x: byte, b: int, y: byte)
    requires Continues(x) && Continues(y) && SixMore(a, x) == SixMore(b, y)
    ensures a == b && x == y
  {
  }

  lemma SixMoreDivides(v: nat)
    ensures SixMore(v / 0x40, 0x80 + v % 0x40) == v && Continues(0x80 + v % 0x40)
    ensures v / 0x40 / 0x40 == v / 0x1000 && v / 0x1000 / 0x40 == v / 0x40000
  {
  }

  lemma Utf8IsRead(c: char)
    ensures IsUtf8Of(Percent.Utf8(c), c)
  {
    hide SixMore;
    var v := c as int;
    SixMoreDivides(v);
    SixMoreDivides(v / 0x40);
    SixMoreDivides(v / 0x1000);
  }

  lemma Utf8IsUnique(a: seq<byte>, b: seq<byte>, c: char)
    requires IsUtf8Of(a, c) && IsUtf8Of(b, c)
    ensures a == b
  {
    Utf8LengthIsUnique(a, b, c);
    hide SixMore;
    if |a| == 2 {
      SixMoreIsUnique(a[0] as int - 0xC0, a[1], b[0] as int - 0xC0, b[1]);
    } else if |a| == 3 {
      var x, y := SixMore(a[0] as int - 0xE0, a[1]), SixMore(b[0] as int - 0xE0, b[1]);
      SixMoreIsUnique(x, a[2], y, b[2]);
      SixMoreIsUnique(a[0] as int - 0xE0, a[1], b[0] as int - 0xE0, b[1]);
    } else if |a| == 4 {
      var x, y := SixMore(a[0] as int - 0xF0, a[1]), SixMore(b[0] as int - 0xF0, b[1]);
      SixMoreIsUnique(SixMore(x, a[2]), a[3], SixMore(y, b[2]), b[3]);
      SixMoreIsUnique(x, a[2], y, b[2]);
      SixMoreIsUnique(a[0] as int - 0xF0, a[1], b[0] as int - 0xF0, b[1]);
    }
  }

  lemma Utf8LengthIsUnique(a: seq<byte>, b: seq<byte>, c: char)
    requires IsUtf8Of(a, c) && IsUtf8Of(b, c)
    ensures |a| == |b|
  {
    Utf8LengthOf(a, c);
    Utf8LengthOf(b, c);
  }

  lemma Utf8LengthOf(a: seq<byte>, c: char)
    requires IsUtf8Of(a, c)
    ensures var v := c as int;
            |a| == if v < 0x80 then 1 else if v < 0x800 then 2 else if v < 0x10000 then 3 else 4
  {
  }

  // Exactly what a text is read as: an escape gives its byte, anything else its UTF-8.
  ghost predicate SpellsBytes(t: string, bytes: seq<byte>)
    decreases |t|
  {
    if t == "" then bytes == []
    else if t[0] == '%' then
      |t| >= 3 && bytes != [] && SpellsByte(t[1], t[2], bytes[0]) && SpellsBytes(t[3..], bytes[1..])
    else
      exists n :: 1 <= n <= 4 && n <= |bytes| && IsUtf8Of(bytes[..n], t[0]) && SpellsBytes(t[1..], bytes[n..])
  }

  lemma {:induction false} DecodesExactly(t: string, bytes: seq<byte>)
    ensures Percent.Decode(t) == Ok(bytes) <==> SpellsBytes(t, bytes)
    decreases |t|
  {
    if t == "" {
    } else if t[0] == '%' {
      if |t| >= 3 {
        if HexPair(t[1], t[2]).Some? {
          HexPairsAreExact(t[1], t[2], HexPair(t[1], t[2]).value);
        }
        if bytes != [] {
          HexPairsAreExact(t[1], t[2], bytes[0]);
          DecodesExactly(t[3..], bytes[1..]);
          assert bytes == [bytes[0]] + bytes[1..];
        }
      }
    } else {
      RawDecodesExactly(t, bytes);
    }
  }

  lemma {:induction false} RawDecodesExactly(t: string, bytes: seq<byte>)
    requires t != "" && t[0] != '%'
    ensures Percent.Decode(t) == Ok(bytes) <==> SpellsBytes(t, bytes)
    decreases |t|, 0
  {
    hide IsUtf8Of, Percent.Utf8;
    var u := Percent.Utf8(t[0]);
    Utf8IsRead(t[0]);
    Utf8Length(t[0]);
    if Percent.Decode(t) == Ok(bytes) {
      assert bytes[..|u|] == u && bytes[|u|..] == Percent.Decode(t[1..]).value;
      DecodesExactly(t[1..], bytes[|u|..]);
    }
    if SpellsBytes(t, bytes) {
      var n :| 1 <= n <= 4 && n <= |bytes| && IsUtf8Of(bytes[..n], t[0]) && SpellsBytes(t[1..], bytes[n..]);
      Utf8IsUnique(bytes[..n], u, t[0]);
      DecodesExactly(t[1..], bytes[n..]);
      assert bytes == bytes[..n] + bytes[n..];
    }
  }

  lemma Utf8Length(c: char)
    ensures 1 <= |Percent.Utf8(c)| <= 4
  {
  }

  // Text without `%` is always accepted, and a UTF-8 reader reads it back.
  ghost predicate ReadsBack(bytes: seq<byte>, s: string)
    decreases |s|
  {
    if s == "" then bytes == []
    else exists n :: 1 <= n <= |bytes| && IsUtf8Of(bytes[..n], s[0]) && ReadsBack(bytes[n..], s[1..])
  }

  lemma {:induction false} RawTextIsUtf8(s: string)
    requires '%' !in s
    ensures Percent.Decode(s).Ok? && ReadsBack(Percent.Decode(s).value, s)
  {
    if s != "" {
      hide IsUtf8Of, Percent.Utf8;
      assert forall c :: c in s[1..] ==> c in s;
      RawTextIsUtf8(s[1..]);
      var u, bytes := Percent.Utf8(s[0]), Percent.Decode(s).value;
      Utf8IsRead(s[0]);
      Utf8Length(s[0]);
      assert bytes[..|u|] == u && bytes[|u|..] == Percent.Decode(s[1..]).value;
    }
  }

  // ASCII text stands as it is, a slash and every other delimiter included.
  lemma {:induction false} AsciiStandsAsItIs(s: string)
    requires '%' !in s && forall c :: c in s ==> c as int < 0x80
    ensures Percent.Decode(s).Ok?
    ensures var bytes := Percent.Decode(s).value;
            |bytes| == |s| && forall i :: 0 <= i < |s| ==> bytes[i] == s[i] as int
  {
    if s != "" {
      assert forall c :: c in s[1..] ==> c in s;
      AsciiStandsAsItIs(s[1..]);
      assert s[0] in s && Percent.Utf8(s[0]) == [s[0] as int];
      assert Percent.Decode(s).value == [s[0] as int] + Percent.Decode(s[1..]).value;
      assert forall i :: 0 < i < |s| ==> s[i] == s[1..][i - 1];
    }
  }

  // ---- numbers ----

  function Pow10(k: nat): nat {
    if k == 0 then 1 else 10 * Pow10(k - 1)
  }

  predicate IsNumeral(t: string) {
    t != "" && OnlyDigits(t)
  }

  predicate OnlyDigits(t: string) {
    forall i :: 0 <= i < |t| ==> 0x30 <= t[i] as int <= 0x39
  }

  // The value by places: each digit counts for a power of ten.
  function PlaceValue(t: string): nat
    requires OnlyDigits(t)
  {
    if t == "" then 0 else (t[0] as int - 0x30) * Pow10(|t| - 1) + PlaceValue(t[1..])
  }

  lemma {:induction false} PlaceValueSnoc(front: string, last: char)
    requires OnlyDigits(front) && 0x30 <= last as int <= 0x39
    ensures PlaceValue(front + [last]) == PlaceValue(front) * 10 + (last as int - 0x30)
  {
    var t := front + [last];
    if front == "" {
      assert t[1..] == "" && Pow10(0) == 1;
    } else {
      assert t[0] == front[0] && t[1..] == front[1..] + [last];
      PlaceValueSnoc(front[1..], last);
      var d, k := front[0] as int - 0x30, |front| - 1;
      assert Pow10(|t| - 1) == 10 * Pow10(k);
      assert d * (10 * Pow10(k)) == (d * Pow10(k)) * 10;
    }
  }

  lemma DigitsAreDigits(t: string)
    ensures AllDigits(t) <==> OnlyDigits(t)
  {
    forall i | AllDigits(t) && 0 <= i < |t| ensures 0x30 <= t[i] as int <= 0x39 {
      assert IsDigit(t[i]);
    }
    forall c | OnlyDigits(t) && c in t ensures IsDigit(c) {
      var i :| 0 <= i < |t| && t[i] == c;
    }
  }

  lemma {:induction false} ValueByPlaces(t: string)
    requires OnlyDigits(t)
    ensures AllDigits(t) && DecimalValue(t) == PlaceValue(t)
  {
    DigitsAreDigits(t);
    if t != "" {
      var front, last := t[..|t| - 1], t[|t| - 1];
      assert t == front + [last];
      ValueByPlaces(front);
      PlaceValueSnoc(front, last);
    }
  }

  // A number is printed as the numeral of that value that has no leading zero.
  lemma DecimalRule(n: nat)
    ensures IsNumeral(Decimal(n)) && PlaceValue(Decimal(n)) == n
    ensures |Decimal(n)| > 1 ==> Decimal(n)[0] != '0'
  {
    DecimalIsCanonical(n);
    var t := Decimal(n);
    DigitsAreDigits(t);
    ValueByPlaces(t);
  }

  // Exactly what is read as `n`: a numeral of that value, perhaps behind a `+`.
  ghost predicate SpellsNumber(t: string, n: nat) {
    exists ds: string :: IsNumeral(ds) && (t == ds || t == "+" + ds) && PlaceValue(ds) == n
  }

  lemma NumbersAreExact(t: string, bound: nat, n: nat)
    ensures ParseUnsigned(t, bound) == Ok(n) <==> n < bound && SpellsNumber(t, n)
  {
    hide DecimalValue, PlaceValue;
    if ParseUnsigned(t, bound) == Ok(n) {
      var ds := if t[0] == '+' then t[1..] else t;
      DigitsAreDigits(ds);
      ValueByPlaces(ds);
      assert IsNumeral(ds) && (t == ds || t == "+" + ds);
    }
    if n < bound && SpellsNumber(t, n) {
      var ds :| IsNumeral(ds) && (t == ds || t == "+" + ds) && PlaceValue(ds) == n;
      ValueByPlaces(ds);
      assert ds[0] != '+';
      assert ("+" + ds)[1..] == ds;
    }
  }
}
