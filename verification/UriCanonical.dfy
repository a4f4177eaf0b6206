/**
 Encoding what was decoded is not the identity on texts: the decoder is lenient.
 It is the identity exactly on canonical texts, a property of the spelling alone.
 */
module UriCanonical {
  import opened Basics
  import opened Locators
  import opened Text
  import opened Numerals
  import opened Uri
  import opened UriRoundTrip
  import opened UriForms
  import Percent

  // ---- canonical spellings ----

  // A number as it is printed, small enough for the width it is stored in.
  predicate CanonicalBelow(t: string, bound: nat) {
    CanonicalDecimal(t) && DecimalValue(t) < bound
  }

  predicate CanonicalFileId(t: string) {
    var fields := Split(t, '.');
    match fields[0]
    case "ntfsref" => |fields| == 3 && CanonicalDecimal(fields[1]) && CanonicalBelow(fields[2], U16_MODULUS)
    case "extinode" => |fields| == 3 && CanonicalDecimal(fields[1]) && CanonicalBelow(fields[2], U32_MODULUS)
    case "apfsoid" => |fields| == 3 && CanonicalDecimal(fields[1]) && CanonicalDecimal(fields[2])
    case "fatdirentry" =>
      |fields| == 3 && CanonicalBelow(fields[1], U32_MODULUS) && CanonicalBelow(fields[2], U16_MODULUS)
    case "isoextent" => |fields| == 2 && CanonicalBelow(fields[1], U32_MODULUS)
    case "opaque" => |fields| == 2 && CanonicalDecimal(fields[1])
    case _ => false
  }

  predicate CanonicalStream(t: string) {
    var fields := Split(t, '.');
    match fields[0]
    case "named" => |fields| == 2 && CanonicalBelow(fields[1], U16_MODULUS)
    case "xattr" => |fields| == 2 && CanonicalBelow(fields[1], U16_MODULUS)
    case _ => |fields| == 1
  }

  predicate CanonicalPieces(pieces: seq<string>) {
    forall p :: p in pieces ==> Percent.Canonical(p)
  }

  predicate CanonicalNodeAddr(t: string)
    requires t != ""
  {
    if t[0] == 'p' then
      t[1..] == "" || (t[1] == '/' && CanonicalPieces(Split(t[2..], '/')))
    else if t[1..] == "" || t[1] != '/' then false
    else if t[0] == 'f' then CanonicalFileId(t[2..])
    else
      var (first, rest) := Cut(t[2..], '/');
      CanonicalFileId(first) && (rest.Some? ==> CanonicalPieces(Split(rest.value, '/')))
  }

  predicate CanonicalGuid(t: string) {
    forall c :: c in t ==> IsLowerHex(c)
  }

  predicate CanonicalVolume(body: string) {
    var fields := Split(body, ',');
    && 2 <= |fields| <= 3
    && CanonicalDecimal(fields[1])
    && (|fields| == 3 ==> CanonicalGuid(fields[2]))
  }

  predicate CanonicalPair(body: string) {
    var (first, rest) := Cut(body, ',');
    CanonicalDecimal(first) && rest.Some? && CanonicalDecimal(rest.value)
  }

  predicate CanonicalSecond(body: string) {
    var (_, rest) := Cut(body, ',');
    rest.Some? && CanonicalDecimal(rest.value)
  }

  predicate CanonicalFs(body: string) {
    var (_, rest) := Cut(body, ',');
    rest.Some? && rest.value != "" && CanonicalNodeAddr(rest.value)
  }

  predicate CanonicalBody(tag: string, body: string) {
    match tag
    case "file" => Percent.Canonical(body)
    case "dir" => Percent.Canonical(body)
    case "range" => CanonicalPair(body)
    case "volume" => CanonicalVolume(body)
    case "snapshot" => CanonicalSecond(body)
    case "fs" => CanonicalFs(body)
    case "stream" => CanonicalStream(body)
    case "archive" => body == "" || CanonicalDecimal(body)
    case "os" => false
    case _ => true
  }

  predicate CanonicalLayer(piece: string) {
    var (tag, rest) := Cut(piece, ':');
    rest.Some? && CanonicalBody(tag, rest.value)
  }

  predicate CanonicalUri(s: string) {
    && "loc:" <= s
    && forall p :: p in Split(s[4..], '|') ==> CanonicalLayer(p)
  }

  // ---- joined fields and splitted text ----

  lemma JoinedIffSplit(pieces: seq<string>, t: string, sep: char)
    requires pieces != [] && Clean(pieces, sep)
    ensures Join(pieces, sep) == t <==> pieces == Split(t, sep)
  {
    SplitOfJoin(pieces, sep);
    JoinOfSplit(t, sep);
  }

  lemma JoinedIffCut(a: string, b: string, t: string, sep: char)
    requires sep !in a
    ensures a + [sep] + b == t <==> Cut(t, sep) == (a, Some(b))
  {
    CutFindsFirst(a, sep, b);
  }

  // ---- numbers ----

  lemma UnsignedValue(t: string, bound: nat)
    requires ParseUnsigned(t, bound).Ok? && t != "" && IsDigit(t[0])
    ensures AllDigits(t) && ParseUnsigned(t, bound).value == DecimalValue(t)
  {
  }

  lemma BelowReprints(t: string, bound: nat, width: nat)
    requires 0 < width && ParseUnsigned(t, bound).Ok?
    ensures Decimal(ParseUnsigned(t, bound).value % width) == t <==> CanonicalBelow(t, width)
  {
    hide ParseUnsigned, Decimal, DecimalValue;
    var n := ParseUnsigned(t, bound).value;
    var stored := n % width;
    DecimalReprints(t, bound);
    DecimalIsCanonical(stored);
    if CanonicalBelow(t, width) {
      assert t[0] in t;
      UnsignedValue(t, bound);
      SmallRemainder(n, width);
    }
    if Decimal(stored) == t {
      assert t[0] in t;
      UnsignedValue(t, bound);
    }
  }

  lemma SmallRemainder(n: nat, width: nat)
    requires n < width
    ensures n % width == n
  {
  }

  // ---- file ids and streams ----

  lemma FileIdReprints(t: string)
    requires ParseFileId(t).Ok?
    ensures FileIdToken(ParseFileId(t).value) == t <==> CanonicalFileId(t)
  {
    hide Split, Join, Decimal, ParseUnsigned, CanonicalBelow, CanonicalDecimal;
    var fields := Split(t, '.');
    var id := ParseFileId(t).value;
    FileIdFieldsArePlain(id);
    JoinedIffSplit(FileIdFields(id), t, '.');
    match id
    case NtfsRef(_, _) => PlainAt(fields, 1); BelowAt(fields, 2, U16_MODULUS);
    case ExtInode(_, _) => PlainAt(fields, 1); BelowAt(fields, 2, U32_MODULUS);
    case ApfsOid(_, _) => PlainAt(fields, 1); PlainAt(fields, 2);
    case FatDirEntry(_, _) => BelowAt(fields, 1, U32_MODULUS); BelowAt(fields, 2, U16_MODULUS);
    case IsoExtent(_) => BelowAt(fields, 1, U32_MODULUS);
    case Opaque(_) => PlainAt(fields, 1);
  }

  lemma PlainAt(fields: seq<string>, k: nat)
    requires NumberAt(fields, k).Ok?
    ensures Decimal(NumberAt(fields, k).value) == fields[k] <==> CanonicalDecimal(fields[k])
  {
    DecimalReprints(fields[k], U64_MODULUS);
  }

  lemma BelowAt(fields: seq<string>, k: nat, width: nat)
    requires 0 < width && NumberAt(fields, k).Ok?
    ensures Decimal(NumberAt(fields, k).value % width) == fields[k] <==> CanonicalBelow(fields[k], width)
  {
    BelowReprints(fields[k], U64_MODULUS, width);
  }

  lemma StreamReprints(t: string)
    requires ParseStream(t).Ok?
    ensures StreamToken(ParseStream(t).value) == t <==> CanonicalStream(t)
  {
    hide Split, Join, Decimal, ParseUnsigned, CanonicalBelow, CanonicalDecimal;
    var fields := Split(t, '.');
    var s := ParseStream(t).value;
    StreamFieldsArePlain(s);
    JoinedIffSplit(StreamFields(s), t, '.');
    if s.Named? || s.Xattr? {
      var second := if |fields| > 1 then fields[1] else "";
      NoNumberIsEmpty();
      BelowReprints(second, U32_MODULUS, U16_MODULUS);
    }
  }

  lemma NoNumberIsEmpty()
    ensures ParseUnsigned("", U32_MODULUS).Err?
  {
  }

  // ---- paths and node addresses ----

  lemma {:induction false} PiecesReprint(pieces: seq<string>)
    requires DecodeAll(pieces).Ok?
    ensures |DecodeAll(pieces).value| == |pieces|
    ensures EncodeAll(DecodeAll(pieces).value) == pieces <==> CanonicalPieces(pieces)
  {
    hide Percent.Decode, Percent.Encode, Percent.Canonical;
    if pieces != [] {
      PiecesReprint(pieces[1..]);
      Percent.Reprints(pieces[0]);
      var path := DecodeAll(pieces).value;
      assert path[1..] == DecodeAll(pieces[1..]).value;
      var again := EncodeAll(path);
      assert again[0] == Percent.Encode(path[0]) && again[1..] == EncodeAll(path[1..]);
      assert pieces == [pieces[0]] + pieces[1..] && again == [again[0]] + again[1..];
    }
  }

  // A decoded component list prints back to the text it came from, behind a slash.
  lemma ComponentsReprint(t: string)
    requires DecodeAll(Split(t, '/')).Ok?
    ensures var path := DecodeAll(Split(t, '/')).value;
            && path != [] && Components(path) != "" && Components(path)[0] == '/'
            && (Components(path)[1..] == t <==> CanonicalPieces(Split(t, '/')))
  {
    hide Split, Join, DecodeAll, CanonicalPieces;
    var path := DecodeAll(Split(t, '/')).value;
    PiecesReprint(Split(t, '/'));
    ComponentsAreJoined(path);
    EncodeAllIsClean(path);
    JoinedIffSplit(EncodeAll(path), t, '/');
    assert Components(path)[1..] == Join(EncodeAll(path), '/');
  }

  lemma SlashedEqual(a: string, b: string)
    requires a != "" && b != "" && a[0] == b[0]
    ensures a == b <==> a[1..] == b[1..]
  {
    assert a == [a[0]] + a[1..] && b == [b[0]] + b[1..];
  }

  lemma PathReprints(t: string)
    requires t != "" && t[0] == 'p' && ParseNodeAddr(t).Ok?
    ensures NodeAddrToken(ParseNodeAddr(t).value) == t <==> CanonicalNodeAddr(t)
  {
    hide Split, DecodeAll, CanonicalPieces, Components;
    var rest := t[1..];
    var path := ParseNodeAddr(t).value.path;
    var token := NodeAddrToken(Path(path));
    assert token[0] == 'p' && token[1..] == Components(path);
    SlashedEqual(token, t);
    if rest == "" {
      NoComponents();
    } else {
      ComponentsReprint(StripSlash(rest));
      if rest[0] == '/' {
        SlashedEqual(Components(path), rest);
        assert StripSlash(rest) == t[2..];
      }
    }
  }

  lemma NoComponents()
    ensures Components([]) == ""
  {
  }

  lemma FileReprints(t: string)
    requires t != "" && t[0] == 'f' && ParseNodeAddr(t).Ok?
    ensures NodeAddrToken(ParseNodeAddr(t).value) == t <==> CanonicalNodeAddr(t)
  {
    hide Split, ParseFileId, FileIdToken, CanonicalFileId;
    var rest := t[1..];
    var id := ParseNodeAddr(t).value.id;
    var token := NodeAddrToken(File(id));
    assert token[0] == 'f' && token[1..] == "/" + FileIdToken(id);
    SlashedEqual(token, t);
    if rest != "" && rest[0] == '/' {
      assert StripSlash(rest) == t[2..];
      FileIdReprints(t[2..]);
      SlashedEqual("/" + FileIdToken(id), rest);
      assert ("/" + FileIdToken(id))[1..] == FileIdToken(id);
    }
  }

  lemma BothReprints(t: string)
    requires t != "" && t[0] == 'b' && ParseNodeAddr(t).Ok?
    ensures NodeAddrToken(ParseNodeAddr(t).value) == t <==> CanonicalNodeAddr(t)
  {
    hide Split, Cut, DecodeAll, ParseFileId, FileIdToken, CanonicalFileId, CanonicalPieces, Components;
    var rest := t[1..];
    var a := ParseNodeAddr(t).value;
    var token := NodeAddrToken(a);
    var inner := FileIdToken(a.id) + Components(a.path);
    assert token[0] == 'b' && token[1..] == "/" + inner;
    SlashedEqual(token, t);
    if rest != "" && rest[0] == '/' {
      assert StripSlash(rest) == t[2..];
      SlashedEqual("/" + inner, rest);
      assert ("/" + inner)[1..] == inner;
      InnerReprints(t[2..], a.path, a.id);
    }
  }

  // The id up to the first slash, then the components, each on its own terms.
  lemma InnerReprints(t: string, path: seq<seq<byte>>, id: FileId)
    requires var (first, rest) := Cut(t, '/');
             && ParseFileId(first) == Ok(id)
             && (match rest case None => path == [] case Some(p) => DecodeAll(Split(p, '/')) == Ok(path))
    ensures FileIdToken(id) + Components(path) == t <==>
            var (first, rest) := Cut(t, '/');
            CanonicalFileId(first) && (rest.Some? ==> CanonicalPieces(Split(rest.value, '/')))
  {
    hide Split, Cut, DecodeAll, ParseFileId, FileIdToken, CanonicalFileId, CanonicalPieces, Components;
    var (first, rest) := Cut(t, '/');
    FileIdReprints(first);
    BothCut(path, id);
    var token := FileIdToken(id);
    match rest
    case None =>
      NoComponents();
      assert token + Components(path) == token && t == first;
    case Some(p) =>
      ComponentsReprint(p);
      FileIdTokenIsPlain(id);
      assert '/' !in token;
      JoinedIffCut(token, Components(path)[1..], t, '/');
      assert token + Components(path) == token + ['/'] + Components(path)[1..];
  }

  lemma NodeAddrReprints(t: string)
    requires ParseNodeAddr(t).Ok?
    ensures t != "" && (NodeAddrToken(ParseNodeAddr(t).value) == t <==> CanonicalNodeAddr(t))
  {
    hide Split, Cut, DecodeAll, ParseFileId, FileIdToken, NodeAddrToken, CanonicalNodeAddr;
    if t[0] == 'p' {
      PathReprints(t);
    } else if t[0] == 'f' {
      FileReprints(t);
    } else {
      BothReprints(t);
    }
  }

  // ---- layers ----

  lemma {:induction false} PairsReprint(t: string)
    requires ParsePairs(t).Ok?
    ensures HexOf(ParsePairs(t).value) == t <==> CanonicalGuid(t)
  {
    hide LowerPair, IsLowerHex, HexPair;
    if t != "" {
      PairsReprint(t[2..]);
      PairReprints(t[0], t[1]);
      var pair := LowerPair(HexPair(t[0], t[1]).value);
      var later := HexOf(ParsePairs(t[2..]).value);
      assert t == [t[0], t[1]] + t[2..];
      HeadAndTail(pair, later, t);
    }
  }

  lemma HeadAndTail(pair: string, later: string, t: string)
    requires |pair| == 2 <= |t|
    ensures pair + later == t <==> pair == [t[0], t[1]] && later == t[2..]
  {
    assert t == [t[0], t[1]] + t[2..];
    assert (pair + later)[..2] == pair && (pair + later)[2..] == later;
    assert t[..2] == [t[0], t[1]];
  }

  lemma TokensReprint(t: string)
    ensures ParseContainer(t).Ok? ==> ContainerToken(ParseContainer(t).value) == t
    ensures ParseEncryption(t).Ok? ==> EncryptionToken(ParseEncryption(t).value) == t
    ensures ParseVolumeScheme(t).Ok? ==> VolumeToken(ParseVolumeScheme(t).value) == t
  {
  }

  // What `body` decodes to prints back as `body` exactly when it is canonical.
  ghost predicate Reprints(parsed: VfsResult<Layer>, body: string, canonical: bool) {
    parsed.Ok? ==> (Join(LayerFields(parsed.value), ',') == body <==> canonical)
  }

  lemma RangeReprints(body: string)
    ensures Reprints(ParseRangeBody(body), body, CanonicalPair(body))
  {
    hide Cut, Join, ParseUnsigned, Decimal, CanonicalDecimal;
    var parsed := ParseRangeBody(body);
    if parsed.Ok? {
      var (a, rest) := Cut(body, ',');
      DecimalReprints(a, U64_MODULUS);
      DecimalReprints(rest.value, U64_MODULUS);
      JoinTwo(Decimal(parsed.value.start), Decimal(parsed.value.len), ',');
      JoinedIffCut(Decimal(parsed.value.start), Decimal(parsed.value.len), body, ',');
    }
  }

  lemma SnapshotReprints(body: string)
    ensures Reprints(ParseSnapshotBody(body), body, CanonicalSecond(body))
  {
    hide Cut, Join, ParseUnsigned, Decimal, CanonicalDecimal;
    var parsed := ParseSnapshotBody(body);
    if parsed.Ok? {
      var (kind, rest) := Cut(body, ',');
      DecimalReprints(rest.value, U64_MODULUS);
      var n := ParseUnsigned(rest.value, U64_MODULUS).value;
      JoinTwo(kind, Decimal(n), ',');
      JoinedIffCut(kind, Decimal(n), body, ',');
    }
  }

  lemma FsReprints(known: seq<FsKind>, body: string)
    ensures Reprints(ParseFsBody(known, body), body, CanonicalFs(body))
  {
    hide Cut, Join, ParseNodeAddr, NodeAddrToken, CanonicalNodeAddr;
    var parsed := ParseFsBody(known, body);
    if parsed.Ok? {
      var (kind, rest) := Cut(body, ',');
      NodeAddrReprints(rest.value);
      var token := NodeAddrToken(parsed.value.at);
      JoinTwo(kind, token, ',');
      JoinedIffCut(kind, token, body, ',');
    }
  }

  lemma VolumeReprints(body: string)
    ensures Reprints(ParseVolumeBody(body), body, CanonicalVolume(body))
  {
    hide Split, Join, ParseUnsigned, Decimal, CanonicalDecimal, ParseVolumeScheme, VolumeToken, ParsePairs, HexOf,
         CanonicalGuid;
    var parsed := ParseVolumeBody(body);
    if parsed.Ok? {
      var fields := Split(body, ',');
      TokensReprint(fields[0]);
      PlainAt(fields, 1);
      if |fields| >= 3 {
        PairsReprint(fields[2]);
      }
      VolumeFieldsAreClean(parsed.value);
      JoinedIffSplit(LayerFields(parsed.value), body, ',');
    }
  }

  lemma VolumeFieldsAreClean(l: Layer)
    requires l.VolumeLayer?
    ensures Clean(LayerFields(l), ',')
  {
    LayerTokenShape([], l);
  }

  lemma ArchiveReprints(body: string)
    ensures Reprints(ParseArchiveBody(body), body, body == "" || CanonicalDecimal(body))
  {
    hide Join, ParseUnsigned, Decimal, CanonicalDecimal;
    var parsed := ParseArchiveBody(body);
    if parsed.Ok? {
      if body == "" {
        JoinOne("", ',');
      } else {
        DecimalReprints(body, U64_MODULUS);
        JoinOne(Decimal(parsed.value.member.value), ',');
      }
    }
  }

  lemma PathBodiesReprint(body: string)
    ensures Reprints(ParseFileBody(body), body, Percent.Canonical(body))
    ensures Reprints(ParseDirectoryBody(body), body, Percent.Canonical(body))
  {
    hide Percent.Decode, Percent.Encode, Percent.Canonical;
    if Percent.Decode(body).Ok? {
      Percent.Reprints(body);
      JoinOne(Percent.Encode(Percent.Decode(body).value), ',');
    }
  }

  lemma TokenBodiesReprint(body: string)
    ensures Reprints(ParseContainerBody(body), body, true)
    ensures Reprints(ParseEncryptionBody(body), body, true)
    ensures Reprints(ParseStreamBody(body), body, CanonicalStream(body))
  {
    hide ParseContainer, ContainerToken, ParseEncryption, EncryptionToken, ParseStream, StreamToken, CanonicalStream;
    TokensReprint(body);
    JoinOne(body, ',');
    if ParseStream(body).Ok? {
      StreamReprints(body);
      JoinOne(StreamToken(ParseStream(body).value), ',');
    }
  }

  // The tag of the decoded layer is the tag that was read, or `file` for `os`.
  lemma BodyKeepsTag(known: seq<FsKind>, tag: string, body: string)
    requires ParseBody(known, tag, body).Ok?
    ensures LayerTag(ParseBody(known, tag, body).value) == if tag == "os" then "file" else tag
  {
    hide ParseFileBody, ParseDirectoryBody, ParseRangeBody, ParseContainerBody, ParseVolumeBody,
         ParseEncryptionBody, ParseSnapshotBody, ParseFsBody, ParseStreamBody, ParseArchiveBody;
    BodyKinds(known, body);
  }

  lemma BodyKinds(known: seq<FsKind>, body: string)
    ensures ParseFileBody(body).Ok? ==> ParseFileBody(body).value.FileLayer?
    ensures ParseDirectoryBody(body).Ok? ==> ParseDirectoryBody(body).value.DirectoryLayer?
    ensures ParseContainerBody(body).Ok? ==> ParseContainerBody(body).value.ContainerLayer?
    ensures ParseEncryptionBody(body).Ok? ==> ParseEncryptionBody(body).value.EncryptionLayer?
    ensures ParseStreamBody(body).Ok? ==> ParseStreamBody(body).value.StreamLayer?
    ensures ParseVolumeBody(body).Ok? ==> ParseVolumeBody(body).value.VolumeLayer?
    ensures ParseRangeBody(body).Ok? ==> ParseRangeBody(body).value.RangeLayer?
    ensures ParseSnapshotBody(body).Ok? ==> ParseSnapshotBody(body).value.SnapshotLayer?
    ensures ParseArchiveBody(body).Ok? ==> ParseArchiveBody(body).value.ArchiveLayer?
    ensures ParseFsBody(known, body).Ok? ==> ParseFsBody(known, body).value.FsLayer?
  {
    hide Cut, Split, ParseUnsigned, ParseVolumeScheme, ParseGuid, NumberAt, ParseNodeAddr, ParseContainer,
         ParseEncryption, ParseStream, Percent.Decode;
  }

  lemma BodyReprints(known: seq<FsKind>, tag: string, body: string)
    requires tag != "os"
    ensures Reprints(ParseBody(known, tag, body), body, CanonicalBody(tag, body))
  {
    hide Reprints, ParseFileBody, ParseDirectoryBody, ParseRangeBody, ParseContainerBody, ParseVolumeBody,
         ParseEncryptionBody, ParseSnapshotBody, ParseFsBody, ParseStreamBody, ParseArchiveBody,
         CanonicalPair, CanonicalVolume, CanonicalSecond, CanonicalFs, CanonicalStream, CanonicalDecimal,
         Percent.Canonical;
    PathBodiesReprint(body);
    TokenBodiesReprint(body);
    RangeReprints(body);
    SnapshotReprints(body);
    FsReprints(known, body);
    VolumeReprints(body);
    ArchiveReprints(body);
    RejectedReprints(body, CanonicalBody(tag, body));
  }

  lemma RejectedReprints(body: string, canonical: bool)
    ensures Reprints(Err(Decode), body, canonical)
  {
  }

  lemma LayerReprints(known: seq<FsKind>, piece: string)
    requires ParseLayer(known, piece).Ok?
    ensures LayerToken(ParseLayer(known, piece).value) == piece <==> CanonicalLayer(piece)
  {
    hide Cut, Join, ParseBody, LayerFields, LayerTag, CanonicalBody;
    var l := ParseLayer(known, piece).value;
    var (tag, rest) := Cut(piece, ':');
    BodyKeepsTag(known, tag, rest.value);
    if tag != "os" {
      BodyReprints(known, tag, rest.value);
    }
    TagIsPlain(l);
    JoinedIffCut(LayerTag(l), Join(LayerFields(l), ','), piece, ':');
    assert LayerToken(l) == LayerTag(l) + [':'] + Join(LayerFields(l), ',');
    LegacyIsNotCanonical(rest.value);
  }

  lemma LegacyIsNotCanonical(body: string)
    ensures !CanonicalBody("os", body)
  {
  }

  lemma {:induction false} LayersReprint(known: seq<FsKind>, pieces: seq<string>)
    requires ParseLayers(known, pieces).Ok?
    ensures LayerTokens(ParseLayers(known, pieces).value) == pieces <==>
            forall p :: p in pieces ==> CanonicalLayer(p)
  {
    hide ParseLayer, LayerToken, CanonicalLayer;
    if pieces != [] {
      LayersReprint(known, pieces[1..]);
      LayerReprints(known, pieces[0]);
      var layers := ParseLayers(known, pieces).value;
      var again := LayerTokens(layers);
      assert layers[1..] == ParseLayers(known, pieces[1..]).value;
      assert again[0] == LayerToken(layers[0]) && again[1..] == LayerTokens(layers[1..]);
      assert pieces == [pieces[0]] + pieces[1..] && again == [again[0]] + again[1..];
    }
  }

  // ---- texts ----

  // Of the accepted texts, the canonical ones, and no others, survive a decode
  // and re-encode unchanged.
  lemma {:induction false} ReencodesExactlyCanonical(known: seq<FsKind>, s: string)
    requires ValidKinds(known) && FromUri(known, s).Ok?
    ensures ToUri(FromUri(known, s).value) == s <==> CanonicalUri(s)
  {
    hide ParseLayers, LayerTokens, Split, Join, CanonicalLayer, ToUri, FromUri;
    AcceptedHasRemainder(known, s);
    var rest := Remainder(s).value;
    var l := FromUri(known, s).value;
    FromUriLayers(known, s, rest);
    var tokens := LayerTokens(l.Layers());
    UriOfLayers(l);
    LayersReprint(known, Split(rest, '|'));
    ParsedAreKnown(known, Split(rest, '|'));
    LayersRoundTrip(known, l.Layers());
    LayersCountDepth(l);
    JoinedIffSplit(tokens, rest, '|');
    SchemeStrips(Join(tokens, '|'));
    if StripPrefix(s, SCHEME).Some? {
      assert s == SCHEME + rest;
    }
  }

  lemma UriOfLayers(l: Locator)
    ensures LayerTokens(l.Layers()) != [] && ToUri(l) == SCHEME + Join(LayerTokens(l.Layers()), '|')
  {
    LayersCountDepth(l);
  }

  lemma AcceptedHasRemainder(known: seq<FsKind>, s: string)
    requires FromUri(known, s).Ok?
    ensures Remainder(s).Some?
  {
  }

  // For instance a leading `+` is accepted, and then printed differently.
  lemma LenientTextsAreAccepted(known: seq<FsKind>)
    ensures FromUri(known, "loc:archive:+3") == Ok(Root(ArchiveLayer(Some(3))))
    ensures ToUri(Root(ArchiveLayer(Some(3)))) != "loc:archive:+3"
  {
    hide Split, Cut, ParseLayer, ParseBody, ToUri;
    var s := "loc:archive:+3";
    var rest := "archive:+3";
    assert s == SCHEME + rest;
    LegacyRemainder(rest);
    JoinedIffSplit([rest], rest, '|');
    PlusThreeLayer(known);
    assert [rest][1..] == [];
    assert ParseLayers(known, [rest]) == Ok([ArchiveLayer(Some(3))] + []);
    assert '+' in s && !IsUriCharacter('+');
    DelimitersAreStructure([], Root(ArchiveLayer(Some(3))));
  }

  lemma PlusThreeLayer(known: seq<FsKind>)
    ensures ParseLayer(known, "archive:+3") == Ok(ArchiveLayer(Some(3)))
  {
    hide Cut, ParseBody;
    assert "archive:+3" == "archive" + [':'] + "+3";
    CutFindsFirst("archive", ':', "+3");
    ArchiveTag(known, "+3");
    assert "+3"[1..] == "3" && "3"[..0] == "";
    assert AllDigits("3") && DecimalValue("3") == 3;
    assert ParseUnsigned("+3", U64_MODULUS) == Ok(3);
  }

  lemma ArchiveTag(known: seq<FsKind>, body: string)
    ensures ParseBody(known, "archive", body) == ParseArchiveBody(body)
  {
    hide ParseArchiveBody;
  }
}
