/** The canonical URI of a locator, and its lenient parser. */
module Uri {
  import opened Basics
  import opened Locators
  import opened Text
  import opened Numerals
  import Percent

  const SCHEME: string := "loc:"
  const LEGACY_SCHEME: string := "fvfs:"

  // ---- fixed vocabularies ----

  function ContainerToken(f: ContainerFormat): string {
    match f
    case Ewf => "ewf"
    case Vmdk => "vmdk"
    case Vhdx => "vhdx"
    case Vhd => "vhd"
    case Qcow2 => "qcow2"
    case Dmg => "dmg"
    case Aff4 => "aff4"
    case Ad1 => "ad1"
    case Dar => "dar"
    case RawImage => "raw"
    case Auto => "auto"
  }

  function ParseContainer(t: string): VfsResult<ContainerFormat> {
    match t
    case "ewf" => Ok(Ewf)
    case "vmdk" => Ok(Vmdk)
    case "vhdx" => Ok(Vhdx)
    case "vhd" => Ok(Vhd)
    case "qcow2" => Ok(Qcow2)
    case "dmg" => Ok(Dmg)
    case "aff4" => Ok(Aff4)
    case "ad1" => Ok(Ad1)
    case "dar" => Ok(Dar)
    case "raw" => Ok(RawImage)
    case "auto" => Ok(Auto)
    case _ => Err(Decode)
  }

  function VolumeToken(s: VolumeScheme): string {
    match s
    case Mbr => "mbr"
    case Gpt => "gpt"
    case Apm => "apm"
    case Vss => "vss"
    case ApfsContainer => "apfscontainer"
    case Lvm => "lvm"
  }

  function ParseVolumeScheme(t: string): VfsResult<VolumeScheme> {
    match t
    case "mbr" => Ok(Mbr)
    case "gpt" => Ok(Gpt)
    case "apm" => Ok(Apm)
    case "vss" => Ok(Vss)
    case "apfscontainer" => Ok(ApfsContainer)
    case "lvm" => Ok(Lvm)
    case _ => Err(Decode)
  }

  function EncryptionToken(s: EncryptionScheme): string {
    match s
    case Bitlocker => "bitlocker"
    case Luks1 => "luks1"
    case Luks2 => "luks2"
    case FileVault => "filevault"
    case ApfsEncrypted => "apfsencrypted"
    case VeraCrypt => "veracrypt"
    case IosBackup => "iosbackup"
  }

  function ParseEncryption(t: string): VfsResult<EncryptionScheme> {
    match t
    case "bitlocker" => Ok(Bitlocker)
    case "luks1" => Ok(Luks1)
    case "luks2" => Ok(Luks2)
    case "filevault" => Ok(FileVault)
    case "apfsencrypted" => Ok(ApfsEncrypted)
    case "veracrypt" => Ok(VeraCrypt)
    case "iosbackup" => Ok(IosBackup)
    case _ => Err(Decode)
  }

  // `known` lists the registered filesystem kinds.
  function ParseFsKind(known: seq<FsKind>, t: string): VfsResult<FsKind> {
    if t in known then Ok(t) else Err(Decode)
  }

  // ---- GUIDs ----

  function HexOf(bytes: seq<byte>): (t: string)
    ensures |t| == 2 * |bytes|
  {
    if bytes == [] then "" else LowerPair(bytes[0]) + HexOf(bytes[1..])
  }

  function ParsePairs(t: string): (r: VfsResult<seq<byte>>)
    ensures r.Ok? ==> 2 * |r.value| == |t|
  {
    if t == "" then Ok([])
    else if |t| < 2 then Err(Decode)
    else match HexPair(t[0], t[1])
         case None => Err(Decode)
         case Some(b) =>
           var rest :- ParsePairs(t[2..]);
           Ok([b] + rest)
  }

  function ParseGuid(t: string): VfsResult<Guid> {
    if |t| != 32 then Err(Decode)
    else
      var bytes :- ParsePairs(t);
      Ok(bytes)
  }

  // ---- file ids, streams, node addresses ----

  function FileIdFields(id: FileId): (fields: seq<string>)
    ensures fields != []
  {
    match id
    case NtfsRef(entry, sequence) => ["ntfsref", Decimal(entry), Decimal(sequence)]
    case ExtInode(ino, gen) => ["extinode", Decimal(ino), Decimal(gen)]
    case ApfsOid(oid, xid) => ["apfsoid", Decimal(oid), Decimal(xid)]
    case FatDirEntry(cluster, index) => ["fatdirentry", Decimal(cluster), Decimal(index)]
    case IsoExtent(block) => ["isoextent", Decimal(block)]
    case Opaque(n) => ["opaque", Decimal(n)]
  }

  function FileIdToken(id: FileId): string {
    Join(FileIdFields(id), '.')
  }

  function NumberAt(fields: seq<string>, k: nat): (r: VfsResult<nat>)
    ensures r.Ok? ==> r.value < U64_MODULUS
  {
    if k < |fields| then ParseUnsigned(fields[k], U64_MODULUS) else Err(Decode)
  }

  // Narrower numbers are truncated, and trailing fields are ignored.
  function ParseFileId(t: string): VfsResult<FileId> {
    var fields := Split(t, '.');
    match fields[0]
    case "ntfsref" =>
      var entry :- NumberAt(fields, 1);
      var sequence :- NumberAt(fields, 2);
      Ok(NtfsRef(entry, sequence % U16_MODULUS))
    case "extinode" =>
      var ino :- NumberAt(fields, 1);
      var gen :- NumberAt(fields, 2);
      Ok(ExtInode(ino, gen % U32_MODULUS))
    case "apfsoid" =>
      var oid :- NumberAt(fields, 1);
      var xid :- NumberAt(fields, 2);
      Ok(ApfsOid(oid, xid))
    case "fatdirentry" =>
      var cluster :- NumberAt(fields, 1);
      var index :- NumberAt(fields, 2);
      Ok(FatDirEntry(cluster % U32_MODULUS, index % U16_MODULUS))
    case "isoextent" =>
      var block :- NumberAt(fields, 1);
      Ok(IsoExtent(block % U32_MODULUS))
    case "opaque" =>
      var n :- NumberAt(fields, 1);
      Ok(Opaque(n))
    case _ => Err(Decode)
  }

  function StreamFields(s: StreamId): (fields: seq<string>)
    ensures fields != []
  {
    match s
    case Default => ["default"]
    case Named(n) => ["named", Decimal(n)]
    case ResourceFork => ["resourcefork"]
    case Xattr(n) => ["xattr", Decimal(n)]
    case Slack => ["slack"]
  }

  function StreamToken(s: StreamId): string {
    Join(StreamFields(s), '.')
  }

  function ParseStream(t: string): VfsResult<StreamId> {
    var fields := Split(t, '.');
    var second := if |fields| > 1 then fields[1] else "";
    match fields[0]
    case "default" => Ok(Default)
    case "resourcefork" => Ok(ResourceFork)
    case "slack" => Ok(Slack)
    case "named" =>
      var n :- ParseUnsigned(second, U32_MODULUS);
      Ok(Named(n % U16_MODULUS))
    case "xattr" =>
      var n :- ParseUnsigned(second, U32_MODULUS);
      Ok(Xattr(n % U16_MODULUS))
    case _ => Err(Decode)
  }

  // Each component is preceded by a slash.
  function Components(path: seq<seq<byte>>): string {
    if path == [] then "" else "/" + Percent.Encode(path[0]) + Components(path[1..])
  }

  function DecodeAll(pieces: seq<string>): VfsResult<seq<seq<byte>>> {
    if pieces == [] then Ok([])
    else
      var first :- Percent.Decode(pieces[0]);
      var rest :- DecodeAll(pieces[1..]);
      Ok([first] + rest)
  }

  function NodeAddrToken(a: NodeAddr): string {
    match a
    case Path(path) => "p" + Components(path)
    case File(id) => "f/" + FileIdToken(id)
    case Both(path, id) => "b/" + FileIdToken(id) + Components(path)
  }

  function ParseNodeAddr(t: string): VfsResult<NodeAddr> {
    if t == "" then Err(Decode)
    else if t[0] == 'p' then
      var path :- if t[1..] == "" then Ok([]) else DecodeAll(Split(StripSlash(t[1..]), '/'));
      Ok(Path(path))
    else if t[0] == 'f' then
      var id :- ParseFileId(StripSlash(t[1..]));
      Ok(File(id))
    else if t[0] == 'b' then
      var (first, rest) := Cut(StripSlash(t[1..]), '/');
      var id :- ParseFileId(first);
      var path :- match rest {
        case None => Ok([])
        case Some(p) => DecodeAll(Split(p, '/'))
      };
      Ok(Both(path, id))
    else Err(Decode)
  }

  // ---- layers ----

  function LayerTag(l: Layer): string {
    match l
    case FileLayer(_) => "file"
    case DirectoryLayer(_) => "dir"
    case RangeLayer(_, _) => "range"
    case ContainerLayer(_) => "container"
    case VolumeLayer(_, _, _) => "volume"
    case EncryptionLayer(_) => "encryption"
    case SnapshotLayer(_) => "snapshot"
    case FsLayer(_, _) => "fs"
    case StreamLayer(_) => "stream"
    case ArchiveLayer(_) => "archive"
  }

  function LayerFields(l: Layer): (fields: seq<string>)
    ensures fields != []
  {
    match l
    case FileLayer(path) => [Percent.Encode(path)]
    case DirectoryLayer(path) => [Percent.Encode(path)]
    case RangeLayer(start, len) => [Decimal(start), Decimal(len)]
    case ContainerLayer(format) => [ContainerToken(format)]
    case VolumeLayer(scheme, index, None) => [VolumeToken(scheme), Decimal(index)]
    case VolumeLayer(scheme, index, Some(g)) => [VolumeToken(scheme), Decimal(index), HexOf(g)]
    case EncryptionLayer(cipher) => [EncryptionToken(cipher)]
    case SnapshotLayer(VssStore(i)) => ["vss", Decimal(i)]
    case SnapshotLayer(ApfsXid(x)) => ["apfs", Decimal(x)]
    case FsLayer(kind, at) => [kind, NodeAddrToken(at)]
    case StreamLayer(s) => [StreamToken(s)]
    case ArchiveLayer(None) => [""]
    case ArchiveLayer(Some(i)) => [Decimal(i)]
  }

  function LayerToken(l: Layer): string {
    LayerTag(l) + ":" + Join(LayerFields(l), ',')
  }

  function ParseLayer(known: seq<FsKind>, s: string): VfsResult<Layer> {
    var (tag, rest) := Cut(s, ':');
    match rest
    case None => Err(Decode)
    case Some(body) => ParseBody(known, tag, body)
  }

  function ParseBody(known: seq<FsKind>, tag: string, body: string): VfsResult<Layer> {
    match tag
    case "file" => ParseFileBody(body)
    case "os" => ParseFileBody(body)
    case "dir" => ParseDirectoryBody(body)
    case "range" => ParseRangeBody(body)
    case "container" => ParseContainerBody(body)
    case "volume" => ParseVolumeBody(body)
    case "encryption" => ParseEncryptionBody(body)
    case "snapshot" => ParseSnapshotBody(body)
    case "fs" => ParseFsBody(known, body)
    case "stream" => ParseStreamBody(body)
    case "archive" => ParseArchiveBody(body)
    case _ => Err(Decode)
  }

  function ParseFileBody(body: string): VfsResult<Layer> {
    var path :- Percent.Decode(body);
    Ok(FileLayer(path))
  }

  function ParseDirectoryBody(body: string): VfsResult<Layer> {
    var path :- Percent.Decode(body);
    Ok(DirectoryLayer(path))
  }

  function ParseContainerBody(body: string): VfsResult<Layer> {
    var format :- ParseContainer(body);
    Ok(ContainerLayer(format))
  }

  function ParseEncryptionBody(body: string): VfsResult<Layer> {
    var cipher :- ParseEncryption(body);
    Ok(EncryptionLayer(cipher))
  }

  function ParseStreamBody(body: string): VfsResult<Layer> {
    var s :- ParseStream(body);
    Ok(StreamLayer(s))
  }

  function ParseRangeBody(body: string): VfsResult<Layer> {
    var (a, rest) := Cut(body, ',');
    match rest
    case None => Err(Decode)
    case Some(b) =>
      var start :- ParseUnsigned(a, U64_MODULUS);
      var len :- ParseUnsigned(b, U64_MODULUS);
      Ok(RangeLayer(start, len))
  }

  // Fields past the GUID are ignored.
  function ParseVolumeBody(body: string): VfsResult<Layer> {
    var fields := Split(body, ',');
    var scheme :- ParseVolumeScheme(fields[0]);
    var index :- NumberAt(fields, 1);
    if |fields| < 3 then Ok(VolumeLayer(scheme, index, None))
    else
      var guid :- ParseGuid(fields[2]);
      Ok(VolumeLayer(scheme, index, Some(guid)))
  }

  function ParseSnapshotBody(body: string): VfsResult<Layer> {
    var (kind, rest) := Cut(body, ',');
    match rest
    case None => Err(Decode)
    case Some(num) =>
      match kind
      case "vss" =>
        var i :- ParseUnsigned(num, U64_MODULUS);
        Ok(SnapshotLayer(VssStore(i)))
      case "apfs" =>
        var x :- ParseUnsigned(num, U64_MODULUS);
        Ok(SnapshotLayer(ApfsXid(x)))
      case _ => Err(Decode)
  }

  function ParseFsBody(known: seq<FsKind>, body: string): VfsResult<Layer> {
    var (kind, rest) := Cut(body, ',');
    match rest
    case None => Err(Decode)
    case Some(at) =>
      var k :- ParseFsKind(known, kind);
      var a :- ParseNodeAddr(at);
      Ok(FsLayer(k, a))
  }

  function ParseArchiveBody(body: string): VfsResult<Layer> {
    if body == "" then Ok(ArchiveLayer(None))
    else
      var i :- ParseUnsigned(body, U64_MODULUS);
      Ok(ArchiveLayer(Some(i)))
  }

  // ---- whole locators ----

  function LayerTokens(layers: seq<Layer>): (tokens: seq<string>)
    ensures |tokens| == |layers|
  {
    if layers == [] then [] else [LayerToken(layers[0])] + LayerTokens(layers[1..])
  }

  function ToUri(l: Locator): string {
    LayersCountDepth(l);
    SCHEME + Join(LayerTokens(l.Layers()), '|')
  }

  function ParseLayers(known: seq<FsKind>, pieces: seq<string>): (r: VfsResult<seq<Layer>>)
    ensures r.Ok? ==> |r.value| == |pieces|
  {
    if pieces == [] then Ok([])
    else
      var first :- ParseLayer(known, pieces[0]);
      var rest :- ParseLayers(known, pieces[1..]);
      Ok([first] + rest)
  }

  function Remainder(s: string): Option<string> {
    if StripPrefix(s, SCHEME).Some? then StripPrefix(s, SCHEME) else StripPrefix(s, LEGACY_SCHEME)
  }

  function FromUri(known: seq<FsKind>, s: string): VfsResult<Locator> {
    match Remainder(s)
    case None => Err(Decode)
    case Some(rest) =>
      var layers :- ParseLayers(known, Split(rest, '|'));
      Ok(Root(layers[0]).PushAll(layers[1..]))
  }

  // ---- the same, as the code's loops build them ----

  method RunHexOf(g: Guid) returns (s: string)
    ensures s == HexOf(g)
  {
    s := "";
    for i := 0 to |g|
      invariant s + HexOf(g[i..]) == HexOf(g)
    {
      assert g[i..][0] == g[i] && g[i..][1..] == g[i + 1..];
      ghost var before := s;
      s := s + LowerPair(g[i]);
      assert s + HexOf(g[i + 1..]) == before + (LowerPair(g[i]) + HexOf(g[i + 1..]));
    }
  }

  method RunParseGuid(t: string) returns (r: VfsResult<Guid>)
    ensures r == ParseGuid(t)
  {
    if |t| != 32 {
      return Err(Decode);
    }
    var out := new byte[16](_ => 0);
    assert t[0..] == t;
    PrependNothing(ParsePairs(t));
    for i := 0 to 16
      invariant ParsePairs(t) == Prepend(out[..i], ParsePairs(t[2 * i..]))
    {
      var rest := t[2 * i..];
      assert rest[0] == t[2 * i] && rest[1] == t[2 * i + 1] && rest[2..] == t[2 * (i + 1)..];
      var pair := HexPair(t[2 * i], t[2 * i + 1]);
      if pair.None? {
        return Err(Decode);
      }
      PrependTwice(out[..i], [pair.value], ParsePairs(rest[2..]));
      out[i] := pair.value;
      assert out[..i + 1] == out[..i] + [pair.value];
    }
    assert t[32..] == "" && out[..16] + [] == out[..16];
    return Ok(out[..16]);
  }

  method RunToUri(l: Locator) returns (s: string)
    ensures s == ToUri(l)
  {
    hide LayerToken, LayerTokens, Join;
    s := SCHEME;
    var layers := l.Layers();
    LayersCountDepth(l);
    ghost var tokens := LayerTokens(layers);
    ghost var joined := "";
    for i := 0 to |layers|
      invariant s == SCHEME + joined
      invariant joined == if i == 0 then "" else Join(tokens[..i], '|')
    {
      TokenAt(layers, i);
      JoinSnoc(tokens[..i], tokens[i], '|');
      assert tokens[..i + 1] == tokens[..i] + [tokens[i]];
      if i > 0 {
        s := s + ['|'];
        joined := joined + ['|'];
      }
      s := s + LayerToken(layers[i]);
      joined := joined + LayerToken(layers[i]);
    }
    assert tokens[..|layers|] == tokens;
  }

  method RunFromUri(known: seq<FsKind>, s: string) returns (r: VfsResult<Locator>)
    ensures r == FromUri(known, s)
  {
    var remainder := Remainder(s);
    if remainder.None? {
      return Err(Decode);
    }
    var pieces := Split(remainder.value, '|');
    var first := ParseLayer(known, pieces[0]);
    if first.Err? {
      return Err(first.error);
    }
    var spec := Root(first.value);
    ghost var parsed: seq<Layer> := [];
    PrependNothing(ParseLayers(known, pieces[1..]));
    for i := 1 to |pieces|
      invariant spec == Root(first.value).PushAll(parsed)
      invariant ParseLayers(known, pieces[1..]) == Prepend(parsed, ParseLayers(known, pieces[i..]))
    {
      assert pieces[i..][0] == pieces[i] && pieces[i..][1..] == pieces[i + 1..];
      var layer := ParseLayer(known, pieces[i]);
      if layer.Err? {
        return Err(layer.error);
      }
      PushAllSnoc(Root(first.value), parsed, layer.value);
      PrependTwice(parsed, [layer.value], ParseLayers(known, pieces[i + 1..]));
      spec := spec.Push(layer.value);
      parsed := parsed + [layer.value];
    }
    assert pieces[|pieces|..] == [] && parsed + [] == parsed;
    assert ([first.value] + parsed)[1..] == parsed;
    return Ok(spec);
  }

  lemma {:induction false} TokenAt(layers: seq<Layer>, i: nat)
    requires i < |layers|
    ensures LayerTokens(layers)[i] == LayerToken(layers[i])
  {
    if i > 0 {
      TokenAt(layers[1..], i - 1);
    }
  }

  lemma {:induction false} JoinSnoc(pieces: seq<string>, last: string, sep: char)
    ensures Join(pieces + [last], sep) == if pieces == [] then last else Join(pieces, sep) + [sep] + last
  {
    if |pieces| > 1 {
      JoinSnoc(pieces[1..], last, sep);
      assert (pieces + [last])[0] == pieces[0] && (pieces + [last])[1..] == pieces[1..] + [last];
      assert pieces[0] + [sep] + (Join(pieces[1..], sep) + [sep] + last)
          == (pieces[0] + [sep] + Join(pieces[1..], sep)) + [sep] + last;
    } else if |pieces| == 1 {
      assert (pieces + [last])[1..] == [last];
    }
  }
}
