/** Decoding what was encoded gives back the locator, whatever its bytes. */
module UriRoundTrip {
  import opened Basics
  import opened Locators
  import opened Text
  import opened Numerals
  import opened Uri
  import Percent

  // Kind tokens are spelled with unreserved characters.
  ghost predicate ValidKinds(known: seq<FsKind>) {
    forall k :: k in known ==> IsPlain(k)
  }

  // Every filesystem layer is of a known kind; the field types bound the rest.
  ghost predicate KnownKinds(known: seq<FsKind>, layers: seq<Layer>) {
    forall l :: l in layers ==> KnownLayer(known, l)
  }

  predicate KnownLayer(known: seq<FsKind>, l: Layer) {
    l.FsLayer? ==> l.kind in known
  }

  // Unreserved characters only.
  predicate IsPlain(s: string) {
    forall c :: c in s ==> Percent.IsUnreserved(c)
  }

  // What may stand between two commas: no comma, colon or bar.
  predicate IsField(s: string) {
    forall c :: c in s ==> Percent.IsUnreserved(c) || c == '%' || c == '/'
  }

  // ---- alphabets ----

  lemma {:induction false} JoinCharacters(pieces: seq<string>, sep: char, c: char)
    requires pieces != [] && c in Join(pieces, sep)
    ensures c == sep || exists p :: p in pieces && c in p
  {
    if |pieces| > 1 && c !in pieces[0] && c != sep {
      JoinCharacters(pieces[1..], sep, c);
      var p :| p in pieces[1..] && c in p;
      assert p in pieces;
    }
  }

  lemma PlainJoin(pieces: seq<string>)
    requires pieces != [] && forall p :: p in pieces ==> IsPlain(p)
    ensures IsPlain(Join(pieces, '.'))
  {
    forall c | c in Join(pieces, '.') ensures Percent.IsUnreserved(c) {
      JoinCharacters(pieces, '.', c);
    }
  }

  lemma FileIdFieldsArePlain(id: FileId)
    ensures forall f :: f in FileIdFields(id) ==> IsPlain(f)
    ensures Clean(FileIdFields(id), '.')
  {
  }

  lemma StreamFieldsArePlain(s: StreamId)
    ensures forall f :: f in StreamFields(s) ==> IsPlain(f)
    ensures Clean(StreamFields(s), '.')
  {
  }

  lemma {:induction false} ComponentsAreFields(path: seq<seq<byte>>)
    ensures IsField(Components(path))
  {
    if path != [] {
      ComponentsAreFields(path[1..]);
      Percent.EncodeIsEncoded(path[0]);
    }
  }

  lemma FileIdTokenIsPlain(id: FileId)
    ensures IsPlain(FileIdToken(id))
  {
    FileIdFieldsArePlain(id);
    PlainJoin(FileIdFields(id));
  }

  lemma NodeAddrIsField(a: NodeAddr)
    ensures IsField(NodeAddrToken(a))
  {
    match a
    case Path(path) => ComponentsAreFields(path);
    case File(id) => FileIdTokenIsPlain(id);
    case Both(path, id) =>
      FileIdTokenIsPlain(id);
      ComponentsAreFields(path);
  }

  lemma {:induction false} HexIsPlain(bytes: seq<byte>)
    ensures IsPlain(HexOf(bytes))
  {
    if bytes != [] {
      HexIsPlain(bytes[1..]);
    }
  }

  lemma ContainerTokensArePlain(f: ContainerFormat)
    ensures IsPlain(ContainerToken(f))
  {
  }

  lemma VolumeTokensArePlain(v: VolumeScheme)
    ensures IsPlain(VolumeToken(v))
  {
  }

  lemma EncryptionTokensArePlain(e: EncryptionScheme)
    ensures IsPlain(EncryptionToken(e))
  {
  }

  lemma LayerFieldsAreFields(known: seq<FsKind>, l: Layer)
    requires ValidKinds(known) && KnownLayer(known, l)
    ensures forall f :: f in LayerFields(l) ==> IsField(f)
  {
    match l
    case FileLayer(path) => Percent.EncodeIsEncoded(path);
    case DirectoryLayer(path) => Percent.EncodeIsEncoded(path);
    case RangeLayer(_, _) =>
    case ContainerLayer(f) => ContainerTokensArePlain(f);
    case VolumeLayer(v, _, guid) =>
      VolumeTokensArePlain(v);
      if guid.Some? {
        HexIsPlain(guid.value);
      }
    case EncryptionLayer(e) => EncryptionTokensArePlain(e);
    case SnapshotLayer(_) =>
    case FsLayer(kind, at) =>
      assert IsPlain(kind);
      NodeAddrIsField(at);
    case StreamLayer(s) =>
      StreamFieldsArePlain(s);
      PlainJoin(StreamFields(s));
    case ArchiveLayer(_) =>
  }

  lemma TagIsPlain(l: Layer)
    ensures IsPlain(LayerTag(l)) && ':' !in LayerTag(l)
  {
  }

  // A layer's token: its tag, one colon, and a body free of colons and bars.
  lemma LayerTokenShape(known: seq<FsKind>, l: Layer)
    requires ValidKinds(known) && KnownLayer(known, l)
    ensures IsPlain(LayerTag(l)) && ':' !in LayerTag(l)
    ensures Clean(LayerFields(l), ',')
    ensures forall c :: c in Join(LayerFields(l), ',') ==>
              Percent.IsUnreserved(c) || c == '%' || c == '/' || c == ','
  {
    hide Join, LayerFields;
    LayerFieldsAreFields(known, l);
    TagIsPlain(l);
    forall c | c in Join(LayerFields(l), ',')
      ensures Percent.IsUnreserved(c) || c == '%' || c == '/' || c == ','
    {
      JoinCharacters(LayerFields(l), ',', c);
    }
  }

  // ---- the pieces round trip ----

  lemma TokensRoundTrip(f: ContainerFormat, v: VolumeScheme, e: EncryptionScheme)
    ensures ParseContainer(ContainerToken(f)) == Ok(f)
    ensures ParseVolumeScheme(VolumeToken(v)) == Ok(v)
    ensures ParseEncryption(EncryptionToken(e)) == Ok(e)
  {
  }

  lemma {:induction false} PairsRoundTrip(bytes: seq<byte>)
    ensures ParsePairs(HexOf(bytes)) == Ok(bytes)
  {
    if bytes != [] {
      PairsRoundTrip(bytes[1..]);
      LowerPairRoundTrip(bytes[0]);
      var t := HexOf(bytes);
      assert t[0] == LowerPair(bytes[0])[0] && t[1] == LowerPair(bytes[0])[1];
      assert t[2..] == HexOf(bytes[1..]);
      assert [bytes[0]] + bytes[1..] == bytes;
    }
  }

  lemma NumberRoundTrip(fields: seq<string>, k: nat, n: u64)
    requires k < |fields| && fields[k] == Decimal(n)
    ensures NumberAt(fields, k) == Ok(n)
  {
    DecimalRoundTrip(n, U64_MODULUS);
  }

  lemma FileIdRoundTrip(id: FileId)
    ensures ParseFileId(FileIdToken(id)) == Ok(id)
  {
    hide Split, Join, NumberAt, Decimal;
    var fields := FileIdFields(id);
    FileIdFieldsArePlain(id);
    SplitOfJoin(fields, '.');
    match id
    case NtfsRef(a, b) => NumberRoundTrip(fields, 1, a); NumberRoundTrip(fields, 2, b);
    case ExtInode(a, b) => NumberRoundTrip(fields, 1, a); NumberRoundTrip(fields, 2, b);
    case ApfsOid(a, b) => NumberRoundTrip(fields, 1, a); NumberRoundTrip(fields, 2, b);
    case FatDirEntry(a, b) => NumberRoundTrip(fields, 1, a); NumberRoundTrip(fields, 2, b);
    case IsoExtent(a) => NumberRoundTrip(fields, 1, a);
    case Opaque(a) => NumberRoundTrip(fields, 1, a);
  }

  lemma StreamRoundTrip(s: StreamId)
    ensures ParseStream(StreamToken(s)) == Ok(s)
  {
    hide Split, Join, ParseUnsigned, Decimal;
    StreamFieldsArePlain(s);
    SplitOfJoin(StreamFields(s), '.');
    match s
    case Named(n) => DecimalRoundTrip(n, U32_MODULUS);
    case Xattr(n) => DecimalRoundTrip(n, U32_MODULUS);
    case _ =>
  }

  function EncodeAll(path: seq<seq<byte>>): (pieces: seq<string>)
    ensures |pieces| == |path|
  {
    if path == [] then [] else [Percent.Encode(path[0])] + EncodeAll(path[1..])
  }

  lemma {:induction false} EncodeAllIsClean(path: seq<seq<byte>>)
    ensures Clean(EncodeAll(path), '/')
  {
    if path != [] {
      EncodeAllIsClean(path[1..]);
      Percent.EncodeIsEncoded(path[0]);
    }
  }

  lemma Regroup(a: string, b: string)
    ensures "/" + a + ("/" + b) == "/" + (a + ['/'] + b)
  {
  }

  lemma {:induction false} ComponentsAreJoined(path: seq<seq<byte>>)
    requires path != []
    ensures Components(path) == "/" + Join(EncodeAll(path), '/')
  {
    if |path| == 1 {
      assert path[1..] == [];
      assert Components(path) == "/" + Percent.Encode(path[0]) + "";
    } else {
      ComponentsAreJoined(path[1..]);
      assert EncodeAll(path)[1..] == EncodeAll(path[1..]);
      Regroup(Percent.Encode(path[0]), Join(EncodeAll(path[1..]), '/'));
    }
  }

  lemma {:induction false} DecodeAllRoundTrip(path: seq<seq<byte>>)
    ensures DecodeAll(EncodeAll(path)) == Ok(path)
  {
    if path != [] {
      DecodeAllRoundTrip(path[1..]);
      Percent.RoundTrip(path[0]);
      assert EncodeAll(path)[1..] == EncodeAll(path[1..]);
      assert [path[0]] + path[1..] == path;
    }
  }

  // A non-empty path is its components joined by slashes, with one slash in front.
  lemma PathRoundTrip(path: seq<seq<byte>>)
    requires path != []
    ensures Components(path) != "" && Components(path)[0] == '/'
    ensures DecodeAll(Split(Components(path)[1..], '/')) == Ok(path)
  {
    ComponentsAreJoined(path);
    EncodeAllIsClean(path);
    SplitOfJoin(EncodeAll(path), '/');
    DecodeAllRoundTrip(path);
    assert Components(path)[1..] == Join(EncodeAll(path), '/');
  }

  lemma NodeAddrRoundTrip(a: NodeAddr)
    ensures ParseNodeAddr(NodeAddrToken(a)) == Ok(a)
  {
    hide Split, Cut, DecodeAll, FileIdToken, ParseFileId;
    var t := NodeAddrToken(a);
    match a
    case Path(path) =>
      assert t[0] == 'p' && t[1..] == Components(path);
      if path != [] {
        PathRoundTrip(path);
      }
    case File(id) =>
      FileIdRoundTrip(id);
      assert t[0] == 'f' && t[1..] == "/" + FileIdToken(id);
      SlashStrips(FileIdToken(id));
    case Both(path, id) =>
      BothRoundTrip(path, id);
  }

  lemma SlashStrips(rest: string)
    ensures StripSlash("/" + rest) == rest
  {
  }

  // The id ends at the first slash; what follows are the components.
  lemma BothCut(path: seq<seq<byte>>, id: FileId)
    ensures Cut(FileIdToken(id) + Components(path), '/')
         == (FileIdToken(id), if path == [] then None else Some(Components(path)[1..]))
  {
    hide FileIdToken, Cut;
    var token := FileIdToken(id);
    FileIdTokenIsPlain(id);
    assert '/' !in token;
    if path == [] {
      assert token + Components(path) == token;
      CutFindsNone(token, '/');
    } else {
      ComponentsStartWithSlash(path);
      hide Components;
      assert token + Components(path) == token + ['/'] + Components(path)[1..];
      CutFindsFirst(token, '/', Components(path)[1..]);
    }
  }

  lemma ComponentsStartWithSlash(path: seq<seq<byte>>)
    requires path != []
    ensures Components(path) != [] && Components(path) == ['/'] + Components(path)[1..]
  {
  }

  lemma BothRoundTrip(path: seq<seq<byte>>, id: FileId)
    ensures ParseNodeAddr(NodeAddrToken(Both(path, id))) == Ok(Both(path, id))
  {
    hide Split, Cut, DecodeAll, FileIdToken, ParseFileId, Components, StripSlash;
    var t := NodeAddrToken(Both(path, id));
    var token := FileIdToken(id);
    FileIdRoundTrip(id);
    BothCut(path, id);
    assert t[0] == 'b' && t[1..] == "/" + (token + Components(path));
    SlashStrips(token + Components(path));
    if path != [] {
      PathRoundTrip(path);
    }
  }

  // ---- layers ----

  lemma JoinOne(a: string, sep: char)
    ensures Join([a], sep) == a
  {
  }

  lemma JoinTwo(a: string, b: string, sep: char)
    ensures Join([a, b], sep) == a + [sep] + b
  {
    assert [a, b][1..] == [b];
  }

  lemma BodyRoundTrip(known: seq<FsKind>, l: Layer)
    requires ValidKinds(known) && KnownLayer(known, l)
    ensures ParseBody(known, LayerTag(l), Join(LayerFields(l), ',')) == Ok(l)
  {
    hide Join, LayerFields, ParseFileBody, ParseDirectoryBody, ParseRangeBody, ParseContainerBody, ParseVolumeBody,
         ParseEncryptionBody, ParseSnapshotBody, ParseFsBody, ParseStreamBody, ParseArchiveBody;
    match l
    case FileLayer(_) => PathsRoundTrip(l);
    case DirectoryLayer(_) => PathsRoundTrip(l);
    case RangeLayer(_, _) => RangeRoundTrip(l);
    case ContainerLayer(_) => ContainerRoundTrip(l);
    case VolumeLayer(_, _, _) => VolumeRoundTrip(known, l);
    case EncryptionLayer(_) => EncryptionRoundTrip(l);
    case SnapshotLayer(_) => SnapshotRoundTrip(l);
    case FsLayer(_, _) => FsRoundTrip(known, l);
    case StreamLayer(_) => StreamLayerRoundTrip(l);
    case ArchiveLayer(_) => ArchiveRoundTrip(l);
  }

  lemma PathsRoundTrip(l: Layer)
    requires l.FileLayer? || l.DirectoryLayer?
    ensures l.FileLayer? ==> ParseFileBody(Join(LayerFields(l), ',')) == Ok(l)
    ensures l.DirectoryLayer? ==> ParseDirectoryBody(Join(LayerFields(l), ',')) == Ok(l)
  {
    hide Percent.Decode, Percent.Encode;
    Percent.RoundTrip(l.path);
    JoinOne(Percent.Encode(l.path), ',');
  }

  lemma ContainerRoundTrip(l: Layer)
    requires l.ContainerLayer?
    ensures ParseContainerBody(Join(LayerFields(l), ',')) == Ok(l)
  {
    hide ParseContainer, ContainerToken;
    JoinOne(ContainerToken(l.format), ',');
    TokensRoundTrip(l.format, Mbr, Luks1);
  }

  lemma EncryptionRoundTrip(l: Layer)
    requires l.EncryptionLayer?
    ensures ParseEncryptionBody(Join(LayerFields(l), ',')) == Ok(l)
  {
    hide ParseEncryption, EncryptionToken;
    JoinOne(EncryptionToken(l.cipher), ',');
    TokensRoundTrip(RawImage, Mbr, l.cipher);
  }

  lemma StreamLayerRoundTrip(l: Layer)
    requires l.StreamLayer?
    ensures ParseStreamBody(Join(LayerFields(l), ',')) == Ok(l)
  {
    hide ParseStream, StreamToken;
    JoinOne(StreamToken(l.stream), ',');
    StreamRoundTrip(l.stream);
  }

  lemma RangeRoundTrip(l: Layer)
    requires l.RangeLayer?
    ensures ParseRangeBody(Join(LayerFields(l), ',')) == Ok(l)
  {
    hide Join, Cut, ParseUnsigned;
    JoinTwo(Decimal(l.start), Decimal(l.len), ',');
    CutFindsFirst(Decimal(l.start), ',', Decimal(l.len));
    DecimalRoundTrip(l.start, U64_MODULUS);
    DecimalRoundTrip(l.len, U64_MODULUS);
  }

  lemma FsRoundTrip(known: seq<FsKind>, l: Layer)
    requires ValidKinds(known) && KnownLayer(known, l) && l.FsLayer?
    ensures ParseFsBody(known, Join(LayerFields(l), ',')) == Ok(l)
  {
    hide Join, Cut, ParseNodeAddr, NodeAddrToken;
    assert IsPlain(l.kind);
    JoinTwo(l.kind, NodeAddrToken(l.at), ',');
    CutFindsFirst(l.kind, ',', NodeAddrToken(l.at));
    NodeAddrRoundTrip(l.at);
  }

  lemma ArchiveRoundTrip(l: Layer)
    requires l.ArchiveLayer?
    ensures ParseArchiveBody(Join(LayerFields(l), ',')) == Ok(l)
  {
    hide Join, ParseUnsigned;
    match l.member
    case None => JoinOne("", ',');
    case Some(i) =>
      JoinOne(Decimal(i), ',');
      DecimalRoundTrip(i, U64_MODULUS);
  }

  lemma VolumeRoundTrip(known: seq<FsKind>, l: Layer)
    requires ValidKinds(known) && l.VolumeLayer?
    ensures ParseVolumeBody(Join(LayerFields(l), ',')) == Ok(l)
  {
    hide Split, Join, NumberAt, ParseVolumeScheme, VolumeToken, ParsePairs, Decimal;
    var fields := LayerFields(l);
    LayerTokenShape(known, l);
    SplitOfJoin(fields, ',');
    TokensRoundTrip(RawImage, l.scheme, Luks1);
    NumberRoundTrip(fields, 1, l.index);
    if l.guid.Some? {
      PairsRoundTrip(l.guid.value);
    }
  }

  lemma SnapshotRoundTrip(l: Layer)
    requires l.SnapshotLayer?
    ensures ParseSnapshotBody(Join(LayerFields(l), ',')) == Ok(l)
  {
    hide Join, Cut, ParseUnsigned, Decimal;
    match l.store
    case VssStore(i) =>
      JoinTwo("vss", Decimal(i), ',');
      CutFindsFirst("vss", ',', Decimal(i));
      DecimalRoundTrip(i, U64_MODULUS);
    case ApfsXid(x) =>
      JoinTwo("apfs", Decimal(x), ',');
      CutFindsFirst("apfs", ',', Decimal(x));
      DecimalRoundTrip(x, U64_MODULUS);
  }

  lemma LayerRoundTrip(known: seq<FsKind>, l: Layer)
    requires ValidKinds(known) && KnownLayer(known, l)
    ensures ParseLayer(known, LayerToken(l)) == Ok(l)
  {
    LayerTokenShape(known, l);
    var body := Join(LayerFields(l), ',');
    assert LayerToken(l) == LayerTag(l) + [':'] + body;
    CutFindsFirst(LayerTag(l), ':', body);
    BodyRoundTrip(known, l);
  }

  // ---- locators ----

  lemma {:induction false} LayersRoundTrip(known: seq<FsKind>, layers: seq<Layer>)
    requires ValidKinds(known) && KnownKinds(known, layers)
    ensures ParseLayers(known, LayerTokens(layers)) == Ok(layers)
    ensures Clean(LayerTokens(layers), '|')
  {
    hide LayerToken, ParseLayer, KnownLayer;
    if layers != [] {
      assert layers[0] in layers && forall l :: l in layers[1..] ==> l in layers;
      LayersRoundTrip(known, layers[1..]);
      LayerRoundTrip(known, layers[0]);
      TokenHasNoBar(known, layers[0]);
      assert LayerTokens(layers)[1..] == LayerTokens(layers[1..]);
      assert [layers[0]] + layers[1..] == layers;
    }
  }

  lemma TokenHasNoBar(known: seq<FsKind>, l: Layer)
    requires ValidKinds(known) && KnownLayer(known, l)
    ensures '|' !in LayerToken(l)
  {
    LayerTokenShape(known, l);
  }

  lemma RebuildFromLayers(l: Locator)
    ensures Root(l.Layers()[0]).PushAll(l.Layers()[1..]) == l
  {
    LayersCountDepth(l);
    var layers := l.Layers();
    var rebuilt := Root(layers[0]).PushAll(layers[1..]);
    PushAllAppends(Root(layers[0]), layers[1..]);
    assert [] + [layers[0]] + layers[1..] == layers;
    LayersDetermineLocator(rebuilt, l);
  }

  lemma SchemeStrips(rest: string)
    ensures StripPrefix(SCHEME + rest, SCHEME) == Some(rest)
  {
    assert (SCHEME + rest)[|SCHEME|..] == rest;
  }

  // Lossless: for every locator over the known kinds, decoding its URI is the identity.
  lemma {:induction false} UriRoundTrips(known: seq<FsKind>, l: Locator)
    requires ValidKinds(known) && KnownKinds(known, l.Layers())
    ensures FromUri(known, ToUri(l)) == Ok(l)
  {
    LayersCountDepth(l);
    var tokens := LayerTokens(l.Layers());
    LayersRoundTrip(known, l.Layers());
    SchemeStrips(Join(tokens, '|'));
    SplitOfJoin(tokens, '|');
    RebuildFromLayers(l);
  }

  // No two locators share a URI.
  lemma UrisAreInjective(known: seq<FsKind>, a: Locator, b: Locator)
    requires ValidKinds(known) && KnownKinds(known, a.Layers()) && KnownKinds(known, b.Layers())
    requires ToUri(a) == ToUri(b)
    ensures a == b
  {
    UriRoundTrips(known, a);
    UriRoundTrips(known, b);
  }
}
