/** Percent-escaping: unreserved bytes stand for themselves, every other byte is %HH. */
module Percent {
  import opened Basics
  import opened Numerals

  // Letters, digits, `.`, `_` and `-`; unlike RFC 3986 section 2.3, not `~`.
  predicate IsUnreserved(c: char) {
    'A' <= c <= 'Z' || 'a' <= c <= 'z' || '0' <= c <= '9' || c == '.' || c == '_' || c == '-'
  }

  function EncodeByte(b: byte): (t: string)
    ensures t != ""
  {
    if IsUnreserved(b as char) then [b as char] else "%" + UpperPair(b)
  }

  function Encode(bytes: seq<byte>): string {
    if bytes == [] then "" else EncodeByte(bytes[0]) + Encode(bytes[1..])
  }

  // The UTF-8 bytes of one scalar value.
  function Utf8(c: char): seq<byte> {
    var v := c as int;
    if v < 0x80 then [v]
    else if v < 0x800 then [0xC0 + v / 0x40, 0x80 + v % 0x40]
    else if v < 0x10000 then [0xE0 + v / 0x1000, 0x80 + v / 0x40 % 0x40, 0x80 + v % 0x40]
    else [0xF0 + v / 0x40000, 0x80 + v / 0x1000 % 0x40, 0x80 + v / 0x40 % 0x40, 0x80 + v % 0x40]
  }

  // Anything but `%` is taken as it is, reserved or not.
  function Decode(s: string): VfsResult<seq<byte>> {
    if s == "" then Ok([])
    else if s[0] == '%' then
      if |s| < 3 then Err(Error.Decode)
      else match HexPair(s[1], s[2])
           case None => Err(Error.Decode)
           case Some(b) =>
             var rest :- Decode(s[3..]);
             Ok([b] + rest)
    else
      var rest :- Decode(s[1..]);
      Ok(Utf8(s[0]) + rest)
  }

  // The spelling `Encode` uses: every escape is upper-case and needed, and
  // nothing reserved stands unescaped.
  predicate Canonical(s: string) {
    if s == "" then true
    else if s[0] == '%' then
      && |s| >= 3 && IsUpperHex(s[1]) && IsUpperHex(s[2])
      && (HexPair(s[1], s[2]).Some? ==> !IsUnreserved(HexPair(s[1], s[2]).value as char))
      && Canonical(s[3..])
    else IsUnreserved(s[0]) && Canonical(s[1..])
  }

  // Every character of an encoding is unreserved or the escape sign.
  predicate IsEncoded(s: string) {
    forall c :: c in s ==> IsUnreserved(c) || c == '%'
  }

  lemma {:induction false} EncodeSnoc(bytes: seq<byte>, b: byte)
    ensures Encode(bytes + [b]) == Encode(bytes) + EncodeByte(b)
  {
    if bytes == [] {
      assert [b][1..] == [] && [] + [b] == [b];
    } else {
      EncodeSnoc(bytes[1..], b);
      assert (bytes + [b])[0] == bytes[0] && (bytes + [b])[1..] == bytes[1..] + [b];
    }
  }

  method RunEncode(bytes: seq<byte>) returns (s: string)
    ensures s == Encode(bytes)
  {
    s := "";
    for i := 0 to |bytes|
      invariant s == Encode(bytes[..i])
    {
      EncodeSnoc(bytes[..i], bytes[i]);
      assert bytes[..i + 1] == bytes[..i] + [bytes[i]];
      var b := bytes[i];
      if IsUnreserved(b as char) {
        s := s + [b as char];
      } else {
        s := s + ("%" + UpperPair(b));
      }
    }
    assert bytes[..|bytes|] == bytes;
  }

  // One step of decoding, by position.
  lemma DecodeFrom(s: string, i: nat)
    requires i < |s|
    ensures Decode(s[i..]) ==
            if s[i] != '%' then Prepend(Utf8(s[i]), Decode(s[i + 1..]))
            else if i + 3 > |s| || HexPair(s[i + 1], s[i + 2]).None? then Err(Error.Decode)
            else Prepend([HexPair(s[i + 1], s[i + 2]).value], Decode(s[i + 3..]))
  {
    assert s[i..][0] == s[i] && s[i..][1..] == s[i + 1..];
    if i + 3 <= |s| {
      assert s[i..][1] == s[i + 1] && s[i..][2] == s[i + 2] && s[i..][3..] == s[i + 3..];
    }
  }

  method RunDecode(s: string) returns (r: VfsResult<seq<byte>>)
    ensures r == Decode(s)
  {
    hide Decode;
    var out: seq<byte> := [];
    var i := 0;
    assert s[0..] == s;
    PrependNothing(Decode(s));
    while i < |s|
      invariant 0 <= i <= |s|
      invariant Decode(s) == Prepend(out, Decode(s[i..]))
    {
      DecodeFrom(s, i);
      if s[i] == '%' {
        if i + 3 > |s| {
          return Err(Error.Decode);
        }
        var pair := HexPair(s[i + 1], s[i + 2]);
        if pair.None? {
          return Err(Error.Decode);
        }
        PrependTwice(out, [pair.value], Decode(s[i + 3..]));
        out := out + [pair.value];
        i := i + 3;
      } else {
        PrependTwice(out, Utf8(s[i]), Decode(s[i + 1..]));
        out := out + Utf8(s[i]);
        i := i + 1;
      }
    }
    DecodeNothing();
    assert s[|s|..] == "" && out + [] == out;
    return Ok(out);
  }

  lemma DecodeNothing()
    ensures Decode("") == Ok([])
  {
  }

  lemma {:induction false} EncodeIsEncoded(bytes: seq<byte>)
    ensures IsEncoded(Encode(bytes))
  {
    if bytes != [] {
      EncodeIsEncoded(bytes[1..]);
    }
  }

  lemma {:induction false} RoundTrip(bytes: seq<byte>)
    ensures Decode(Encode(bytes)) == Ok(bytes)
  {
    if bytes != [] {
      RoundTrip(bytes[1..]);
      var b, rest := bytes[0], Encode(bytes[1..]);
      var s := Encode(bytes);
      assert [b] + bytes[1..] == bytes;
      if IsUnreserved(b as char) {
        assert s[0] == b as char && s[1..] == rest;
      } else {
        UpperPairRoundTrip(b);
        assert s[0] == '%' && s[1] == UpperPair(b)[0] && s[2] == UpperPair(b)[1] && s[3..] == rest;
      }
    }
  }

  lemma {:induction false} EncodeIsCanonical(bytes: seq<byte>)
    ensures Canonical(Encode(bytes))
  {
    if bytes != [] {
      EncodeIsCanonical(bytes[1..]);
      var b, rest := bytes[0], Encode(bytes[1..]);
      var s := Encode(bytes);
      if IsUnreserved(b as char) {
        assert s[0] == b as char && s[1..] == rest;
      } else {
        UpperPairRoundTrip(b);
        assert s[0] == '%' && s[1] == UpperPair(b)[0] && s[2] == UpperPair(b)[1] && s[3..] == rest;
      }
    }
  }

  lemma {:induction false} CanonicalIsEncode(s: string)
    requires Canonical(s) && Decode(s).Ok?
    ensures Encode(Decode(s).value) == s
  {
    if s != "" {
      if s[0] == '%' {
        CanonicalIsEncode(s[3..]);
        PairReprints(s[1], s[2]);
        var b := HexPair(s[1], s[2]).value;
        var rest := Decode(s[3..]).value;
        assert ([b] + rest)[0] == b && ([b] + rest)[1..] == rest;
        assert s == "%" + [s[1], s[2]] + s[3..];
      } else {
        CanonicalIsEncode(s[1..]);
        var rest := Decode(s[1..]).value;
        var b: byte := s[0] as int;
        assert Utf8(s[0]) == [b] && b as char == s[0];
        assert ([b] + rest)[0] == b && ([b] + rest)[1..] == rest;
        assert s == [s[0]] + s[1..];
      }
    }
  }

  // An accepted text is re-encoded as it stood exactly when it was canonical.
  lemma {:induction false} Reprints(s: string)
    requires Decode(s).Ok?
    ensures Encode(Decode(s).value) == s <==> Canonical(s)
  {
    EncodeIsCanonical(Decode(s).value);
    if Canonical(s) {
      CanonicalIsEncode(s);
    }
  }
}
