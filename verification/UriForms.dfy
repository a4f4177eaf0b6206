/** What the lenient decoder accepts: normal forms, structure, legacy spellings. */
module UriForms {
  import opened Basics
  import opened Locators
  import opened Text
  import opened Numerals
  import opened Uri
  import opened UriRoundTrip
  import Percent

  // ---- decoding normalises ----

  lemma BodyIsKnown(known: seq<FsKind>, tag: string, body: string)
    ensures ParseBody(known, tag, body).Ok? ==> KnownLayer(known, ParseBody(known, tag, body).value)
  {
    hide Percent.Decode, Cut, Split, ParseUnsigned, ParseContainer, ParseEncryption, ParseStream,
         ParseVolumeBody, ParseNodeAddr, ParseRangeBody, ParseSnapshotBody, ParseArchiveBody;
    OtherBodiesAreNotFs(body);
  }

  lemma OtherBodiesAreNotFs(body: string)
    ensures ParseVolumeBody(body).Ok? ==> !ParseVolumeBody(body).value.FsLayer?
    ensures ParseRangeBody(body).Ok? ==> !ParseRangeBody(body).value.FsLayer?
    ensures ParseSnapshotBody(body).Ok? ==> !ParseSnapshotBody(body).value.FsLayer?
    ensures ParseArchiveBody(body).Ok? ==> !ParseArchiveBody(body).value.FsLayer?
  {
    hide Cut, Split, ParseUnsigned, ParseVolumeScheme, ParseGuid, NumberAt;
  }

  lemma {:induction false} ParsedAreKnown(known: seq<FsKind>, pieces: seq<string>)
    requires ParseLayers(known, pieces).Ok?
    ensures KnownKinds(known, ParseLayers(known, pieces).value)
  {
    hide ParseBody, Cut;
    if pieces != [] {
      ParsedAreKnown(known, pieces[1..]);
      var (tag, rest) := Cut(pieces[0], ':');
      BodyIsKnown(known, tag, rest.value);
    }
  }

  lemma FromUriLayers(known: seq<FsKind>, s: string, rest: string)
    requires Remainder(s) == Some(rest)
    ensures match ParseLayers(known, Split(rest, '|'))
            case Err(e) => FromUri(known, s) == Err(e)
            case Ok(layers) => FromUri(known, s).Ok? && FromUri(known, s).value.Layers() == layers
  {
    hide ParseLayer;
    var parsed := ParseLayers(known, Split(rest, '|'));
    if parsed.Ok? {
      PushAllAppends(Root(parsed.value[0]), parsed.value[1..]);
      assert [] + [parsed.value[0]] + parsed.value[1..] == parsed.value;
    }
  }

  // Whatever text is accepted, however it was spelled, its locator re-encodes to
  // a text that decodes to the same locator.
  lemma DecodeNormalises(known: seq<FsKind>, s: string)
    requires ValidKinds(known) && FromUri(known, s).Ok?
    ensures KnownKinds(known, FromUri(known, s).value.Layers())
    ensures FromUri(known, ToUri(FromUri(known, s).value)) == FromUri(known, s)
  {
    var rest := Remainder(s).value;
    FromUriLayers(known, s, rest);
    ParsedAreKnown(known, Split(rest, '|'));
    UriRoundTrips(known, FromUri(known, s).value);
  }

  // ---- delimiters are structure ----

  predicate IsUriCharacter(c: char) {
    || 'A' <= c <= 'Z' || 'a' <= c <= 'z' || '0' <= c <= '9' || c == '.' || c == '_' || c == '-'
    || c == '%' || c == '|' || c == ':' || c == ',' || c == '/'
  }

  lemma TokenDelimiters(known: seq<FsKind>, l: Layer)
    requires ValidKinds(known) && KnownLayer(known, l)
    ensures Count(LayerToken(l), ':') == 1 && '|' !in LayerToken(l)
    ensures forall c :: c in LayerToken(l) ==> IsUriCharacter(c)
  {
    hide Join, LayerFields;
    LayerTokenShape(known, l);
    var tag, body := LayerTag(l), Join(LayerFields(l), ',');
    CountAbsent(tag, ':');
    CountAbsent(body, ':');
    CountAppend(tag + ":", body, ':');
    CountAppend(tag, ":", ':');
    assert ":"[1..] == "" && Count(":", ':') == 1;
  }

  lemma {:induction false} TokensDelimiters(known: seq<FsKind>, layers: seq<Layer>)
    requires layers != [] && ValidKinds(known) && KnownKinds(known, layers)
    ensures Clean(LayerTokens(layers), '|')
    ensures Count(Join(LayerTokens(layers), '|'), ':') == |layers|
    ensures forall c :: c in Join(LayerTokens(layers), '|') ==> IsUriCharacter(c)
  {
    hide LayerToken, IsUriCharacter;
    var tokens := LayerTokens(layers);
    assert layers[0] in layers && forall l :: l in layers[1..] ==> l in layers;
    TokenDelimiters(known, layers[0]);
    assert IsUriCharacter('|') by { BarIsUriCharacter(); }
    if |layers| > 1 {
      TokensDelimiters(known, layers[1..]);
      assert tokens[1..] == LayerTokens(layers[1..]);
      var later := Join(tokens[1..], '|');
      CountAppend(tokens[0] + ['|'], later, ':');
      CountAppend(tokens[0], ['|'], ':');
      CountAbsent(['|'], ':');
    }
  }

  lemma BarIsUriCharacter()
    ensures IsUriCharacter('|')
  {
  }

  // Of a locator with n layers the URI holds exactly n - 1 bars and n + 1 colons,
  // and no character outside the escape sign, the delimiters and the unreserved set.
  lemma DelimitersAreStructure(known: seq<FsKind>, l: Locator)
    requires ValidKinds(known) && KnownKinds(known, l.Layers())
    ensures Count(ToUri(l), '|') == l.Depth() - 1
    ensures Count(ToUri(l), ':') == l.Depth() + 1
    ensures forall c :: c in ToUri(l) ==> IsUriCharacter(c)
  {
    hide LayerTokens, Join, Clean;
    LayersCountDepth(l);
    var tokens := LayerTokens(l.Layers());
    TokensDelimiters(known, l.Layers());
    JoinCountsDelimiters(tokens, '|');
    CountAppend(SCHEME, Join(tokens, '|'), '|');
    CountAppend(SCHEME, Join(tokens, '|'), ':');
    SchemeDelimiters();
  }

  lemma SchemeDelimiters()
    ensures Count(SCHEME, '|') == 0 && Count(SCHEME, ':') == 1
    ensures forall c :: c in SCHEME ==> IsUriCharacter(c)
  {
    assert SCHEME[1..] == "oc:" && "oc:"[1..] == "c:" && "c:"[1..] == ":" && ":"[1..] == "";
  }

  // ---- legacy spellings ----

  const FILE_TAG: string := "file:"
  const LEGACY_FILE_TAG: string := "os:"

  // `legacy` is `piece`, or `piece` with its `file:` tag written `os:`.
  ghost predicate Respelled(piece: string, legacy: string) {
    legacy == piece || exists body :: piece == FILE_TAG + body && legacy == LEGACY_FILE_TAG + body
  }

  lemma FileTagsParseAlike(known: seq<FsKind>, body: string)
    ensures ParseBody(known, "os", body) == ParseBody(known, "file", body) == ParseFileBody(body)
  {
    hide ParseFileBody;
  }

  lemma RespelledParsesAlike(known: seq<FsKind>, piece: string, legacy: string)
    requires Respelled(piece, legacy)
    ensures ParseLayer(known, legacy) == ParseLayer(known, piece)
    ensures '|' !in piece ==> '|' !in legacy
  {
    hide ParseBody, Cut;
    if legacy != piece {
      var body :| piece == FILE_TAG + body && legacy == LEGACY_FILE_TAG + body;
      CutFindsFirst("file", ':', body);
      CutFindsFirst("os", ':', body);
      assert piece == "file" + [':'] + body && legacy == "os" + [':'] + body;
      FileTagsParseAlike(known, body);
    }
  }

  lemma {:induction false} RespelledChainsParseAlike(known: seq<FsKind>, pieces: seq<string>, legacy: seq<string>)
    requires |legacy| == |pieces| && Clean(pieces, '|')
    requires forall i :: 0 <= i < |pieces| ==> Respelled(pieces[i], legacy[i])
    ensures ParseLayers(known, legacy) == ParseLayers(known, pieces)
    ensures Clean(legacy, '|')
  {
    hide ParseLayer, Respelled;
    if pieces != [] {
      assert forall p :: p in pieces[1..] ==> p in pieces;
      RespelledChainsParseAlike(known, pieces[1..], legacy[1..]);
      RespelledParsesAlike(known, pieces[0], legacy[0]);
      assert pieces[0] in pieces;
      assert legacy == [legacy[0]] + legacy[1..];
    }
  }

  lemma LegacyRemainder(rest: string)
    ensures Remainder(SCHEME + rest) == Some(rest)
    ensures Remainder(LEGACY_SCHEME + rest) == Some(rest)
  {
    SchemeStrips(rest);
    var s := LEGACY_SCHEME + rest;
    assert s[0] == 'f' && s[|LEGACY_SCHEME|..] == rest;
  }

  // For every remainder and every choice of `file:` tags to write as `os:`, the
  // legacy text and the new one decode alike: same locator, or both rejected.
  lemma LegacyDecodesAlike(known: seq<FsKind>, rest: string, legacy: seq<string>)
    requires |legacy| == |Split(rest, '|')|
    requires forall i :: 0 <= i < |legacy| ==> Respelled(Split(rest, '|')[i], legacy[i])
    ensures FromUri(known, LEGACY_SCHEME + Join(legacy, '|')) == FromUri(known, SCHEME + rest)
    ensures FromUri(known, SCHEME + Join(legacy, '|')) == FromUri(known, SCHEME + rest)
  {
    hide Split, Join, Respelled, Remainder, ParseLayers;
    var pieces := Split(rest, '|');
    JoinOfSplit(rest, '|');
    RespelledChainsParseAlike(known, pieces, legacy);
    SplitOfJoin(legacy, '|');
    LegacyRemainder(rest);
    LegacyRemainder(Join(legacy, '|'));
  }
}
