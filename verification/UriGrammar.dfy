/**
 The language of locator URIs, written as a grammar: which texts are accepted, and
 for which locator. The decoder accepts exactly that, lenient spellings included.
 */
module UriGrammar {
  import opened Basics
  import opened Locators
  import opened Text
  import opened Numerals
  import opened Uri
  import opened UriRoundTrip
  import opened UriForms
  import opened UriCanonical
  import opened PercentRules
  import Percent

  // ---- fixed vocabularies ----

  predicate NamesContainer(t: string, f: ContainerFormat) {
    || (t == "ewf" && f.Ewf?) || (t == "vmdk" && f.Vmdk?) || (t == "vhdx" && f.Vhdx?) || (t == "vhd" && f.Vhd?)
    || (t == "qcow2" && f.Qcow2?) || (t == "dmg" && f.Dmg?) || (t == "aff4" && f.Aff4?) || (t == "ad1" && f.Ad1?)
    || (t == "dar" && f.Dar?) || (t == "raw" && f.RawImage?) || (t == "auto" && f.Auto?)
  }

  predicate NamesVolumes(t: string, v: VolumeScheme) {
    || (t == "mbr" && v.Mbr?) || (t == "gpt" && v.Gpt?) || (t == "apm" && v.Apm?) || (t == "vss" && v.Vss?)
    || (t == "apfscontainer" && v.ApfsContainer?) || (t == "lvm" && v.Lvm?)
  }

  predicate NamesCipher(t: string, e: EncryptionScheme) {
    || (t == "bitlocker" && e.Bitlocker?) || (t == "luks1" && e.Luks1?) || (t == "luks2" && e.Luks2?)
    || (t == "filevault" && e.FileVault?) || (t == "apfsencrypted" && e.ApfsEncrypted?)
    || (t == "veracrypt" && e.VeraCrypt?) || (t == "iosbackup" && e.IosBackup?)
  }

  lemma ContainerNames(t: string, f: ContainerFormat)
    ensures ParseContainer(t) == Ok(f) <==> NamesContainer(t, f)
    ensures NamesContainer(ContainerToken(f), f)
  {
  }

  lemma VolumeNames(t: string, v: VolumeScheme)
    ensures ParseVolumeScheme(t) == Ok(v) <==> NamesVolumes(t, v)
    ensures NamesVolumes(VolumeToken(v), v)
  {
  }

  lemma CipherNames(t: string, e: EncryptionScheme)
    ensures ParseEncryption(t) == Ok(e) <==> NamesCipher(t, e)
    ensures NamesCipher(EncryptionToken(e), e)
  {
  }

  // ---- numbers in their places ----

  // A 64-bit number whose low part is kept.
  ghost predicate SpellsLow(t: string, n: nat, width: nat)
    requires width > 0
  {
    exists m: nat :: m < 0x1_0000_0000_0000_0000 && SpellsNumber(t, m) && n == m % width
  }

  lemma NumberFields(fields: seq<string>, k: nat, n: nat)
    ensures NumberAt(fields, k) == Ok(n) <==>
            k < |fields| && n < 0x1_0000_0000_0000_0000 && SpellsNumber(fields[k], n)
  {
    if k < |fields| {
      NumbersAreExact(fields[k], U64_MODULUS, n);
    }
  }

  lemma LowFields(fields: seq<string>, k: nat, n: nat, width: nat)
    requires width > 0
    ensures (NumberAt(fields, k).Ok? && NumberAt(fields, k).value % width == n) <==>
            k < |fields| && SpellsLow(fields[k], n, width)
  {
    hide NumberAt, SpellsNumber;
    if NumberAt(fields, k).Ok? {
      NumberFields(fields, k, NumberAt(fields, k).value);
    }
    if k < |fields| && SpellsLow(fields[k], n, width) {
      var m: nat :| m < 0x1_0000_0000_0000_0000 && SpellsNumber(fields[k], m) && n == m % width;
      NumberFields(fields, k, m);
    }
  }

  // ---- file ids and streams: fields between dots, the ones past the last needed ignored ----

  ghost predicate SpellsFileId(t: string, id: FileId) {
    var f := Split(t, '.');
    match id
    case NtfsRef(entry, sequence) =>
      |f| > 2 && f[0] == "ntfsref" && SpellsNumber(f[1], entry) && SpellsLow(f[2], sequence, 0x1_0000)
    case ExtInode(ino, gen) =>
      |f| > 2 && f[0] == "extinode" && SpellsNumber(f[1], ino) && SpellsLow(f[2], gen, 0x1_0000_0000)
    case ApfsOid(oid, xid) =>
      |f| > 2 && f[0] == "apfsoid" && SpellsNumber(f[1], oid) && SpellsNumber(f[2], xid)
    case FatDirEntry(cluster, index) =>
      |f| > 2 && f[0] == "fatdirentry" && SpellsLow(f[1], cluster, 0x1_0000_0000) && SpellsLow(f[2], index, 0x1_0000)
    case IsoExtent(block) =>
      |f| > 1 && f[0] == "isoextent" && SpellsLow(f[1], block, 0x1_0000_0000)
    case Opaque(n) =>
      |f| > 1 && f[0] == "opaque" && SpellsNumber(f[1], n)
  }

  lemma FileIdsAreExact(t: string, id: FileId)
    ensures ParseFileId(t) == Ok(id) <==> SpellsFileId(t, id)
  {
    hide Split, NumberAt, SpellsNumber, SpellsLow;
    var f := Split(t, '.');
    match id
    case NtfsRef(entry, sequence) => NumberFields(f, 1, entry); LowFields(f, 2, sequence, 0x1_0000);
    case ExtInode(ino, gen) => NumberFields(f, 1, ino); LowFields(f, 2, gen, 0x1_0000_0000);
    case ApfsOid(oid, xid) => NumberFields(f, 1, oid); NumberFields(f, 2, xid);
    case FatDirEntry(cluster, index) => LowFields(f, 1, cluster, 0x1_0000_0000); LowFields(f, 2, index, 0x1_0000);
    case IsoExtent(block) => LowFields(f, 1, block, 0x1_0000_0000);
    case Opaque(n) => NumberFields(f, 1, n);
  }

  // A stream's number is read as 32 bits before its low 16 are kept.
  ghost predicate SpellsStreamNumber(t: string, n: nat) {
    exists m: nat :: m < 0x1_0000_0000 && SpellsNumber(t, m) && n == m % 0x1_0000
  }

  ghost predicate SpellsStream(t: string, s: StreamId) {
    var f := Split(t, '.');
    match s
    case Default => f[0] == "default"
    case ResourceFork => f[0] == "resourcefork"
    case Slack => f[0] == "slack"
    case Named(n) => |f| > 1 && f[0] == "named" && SpellsStreamNumber(f[1], n)
    case Xattr(n) => |f| > 1 && f[0] == "xattr" && SpellsStreamNumber(f[1], n)
  }

  lemma StreamNumbersAreExact(t: string, n: nat)
    ensures (ParseUnsigned(t, U32_MODULUS).Ok? && ParseUnsigned(t, U32_MODULUS).value % U16_MODULUS == n)
            <==> SpellsStreamNumber(t, n)
    ensures t == "" ==> ParseUnsigned(t, U32_MODULUS).Err?
  {
    hide SpellsNumber, DecimalValue;
    if ParseUnsigned(t, U32_MODULUS).Ok? {
      NumbersAreExact(t, U32_MODULUS, ParseUnsigned(t, U32_MODULUS).value);
    }
    if SpellsStreamNumber(t, n) {
      var m: nat :| m < 0x1_0000_0000 && SpellsNumber(t, m) && n == m % 0x1_0000;
      NumbersAreExact(t, U32_MODULUS, m);
    }
  }

  lemma StreamsAreExact(t: string, s: StreamId)
    ensures ParseStream(t) == Ok(s) <==> SpellsStream(t, s)
  {
    hide Split, ParseUnsigned, SpellsStreamNumber;
    var f := Split(t, '.');
    var second := if |f| > 1 then f[1] else "";
    match s
    case Named(n) => StreamNumbersAreExact(second, n);
    case Xattr(n) => StreamNumbersAreExact(second, n);
    case _ =>
  }

  // ---- node addresses ----

  ghost predicate SpellsPieces(pieces: seq<string>, path: seq<seq<byte>>) {
    |pieces| == |path| && forall i :: 0 <= i < |path| ==> SpellsBytes(pieces[i], path[i])
  }

  lemma {:induction false} PiecesAreExact(pieces: seq<string>, path: seq<seq<byte>>)
    ensures DecodeAll(pieces) == Ok(path) <==> SpellsPieces(pieces, path)
  {
    hide Percent.Decode, SpellsBytes;
    if pieces != [] {
      if path != [] {
        DecodesExactly(pieces[0], path[0]);
        PiecesAreExact(pieces[1..], path[1..]);
        assert path == [path[0]] + path[1..] && pieces == [pieces[0]] + pieces[1..];
        PiecesByHead(pieces, path);
      }
    }
  }

  lemma PiecesByHead(pieces: seq<string>, path: seq<seq<byte>>)
    requires pieces != [] && path != []
    ensures SpellsPieces(pieces, path) <==> SpellsBytes(pieces[0], path[0]) && SpellsPieces(pieces[1..], path[1..])
  {
    hide SpellsBytes;
    if SpellsBytes(pieces[0], path[0]) && SpellsPieces(pieces[1..], path[1..]) {
      forall i | 0 <= i < |path| ensures SpellsBytes(pieces[i], path[i]) {
        if i > 0 {
          assert pieces[i] == pieces[1..][i - 1] && path[i] == path[1..][i - 1];
        }
      }
    }
  }

  // `rest` after the letter, with or without a slash between.
  predicate After(t: string, letter: char, rest: string) {
    t == [letter, '/'] + rest || (t == [letter] + rest && (rest == "" || rest[0] != '/'))
  }

  lemma AfterIsStripped(t: string, letter: char, rest: string)
    ensures After(t, letter, rest) <==> t != "" && t[0] == letter && StripSlash(t[1..]) == rest
  {
    if t != "" {
      assert t == [t[0]] + t[1..];
      if |t| > 1 {
        assert t == [t[0], t[1]] + t[2..] && t[1..][1..] == t[2..];
      }
    }
    if After(t, letter, rest) {
      if t == [letter, '/'] + rest {
        assert t[1..] == "/" + rest && t[1..][1..] == rest;
      } else {
        assert t[1..] == rest;
      }
    }
  }

  ghost predicate SpellsNodeAddr(t: string, a: NodeAddr) {
    match a
    case Path(path) =>
      (t == "p" && path == []) || exists r :: t != "p" && After(t, 'p', r) && SpellsPieces(Split(r, '/'), path)
    case File(id) => exists r :: After(t, 'f', r) && SpellsFileId(r, id)
    case Both(path, id) => exists r :: After(t, 'b', r) && SpellsIdAndPath(r, id, path)
  }

  // The id up to the first slash; what follows are the components, if there is a slash.
  ghost predicate SpellsIdAndPath(t: string, id: FileId, path: seq<seq<byte>>) {
    || ('/' !in t && SpellsFileId(t, id) && path == [])
    || exists a, b :: CutInto(t, '/', a, b) && SpellsFileId(a, id) && SpellsPieces(Split(b, '/'), path)
  }

  // `sep` first stands between `a` and `b`.
  predicate CutInto(t: string, sep: char, a: string, b: string) {
    sep !in a && t == a + [sep] + b
  }

  lemma CutsAreExact(t: string, sep: char, a: string, b: string)
    ensures CutInto(t, sep, a, b) <==> Cut(t, sep) == (a, Some(b))
  {
    if CutInto(t, sep, a, b) {
      CutFindsFirst(a, sep, b);
    }
  }

  lemma PathsAreExact(t: string, path: seq<seq<byte>>)
    ensures ParseNodeAddr(t) == Ok(Path(path)) <==> SpellsNodeAddr(t, Path(path))
  {
    hide Split, DecodeAll, SpellsPieces, StripSlash, Cut, ParseFileId, After;
    if t != "" && t[0] == 'p' {
      var r := StripSlash(t[1..]);
      AfterIsStripped(t, 'p', r);
      PiecesAreExact(Split(r, '/'), path);
      assert t == [t[0]] + t[1..];
      assert t[1..] == "" <==> t == "p";
    }
    forall r | After(t, 'p', r) ensures t != "" && t[0] == 'p' && r == StripSlash(t[1..]) {
      AfterIsStripped(t, 'p', r);
    }
  }

  lemma FilesAreExact(t: string, id: FileId)
    ensures ParseNodeAddr(t) == Ok(File(id)) <==> SpellsNodeAddr(t, File(id))
  {
    hide Split, DecodeAll, SpellsFileId, StripSlash, Cut, ParseFileId, After;
    if t != "" && t[0] == 'f' {
      AfterIsStripped(t, 'f', StripSlash(t[1..]));
      FileIdsAreExact(StripSlash(t[1..]), id);
    }
    forall r | After(t, 'f', r) ensures t != "" && t[0] == 'f' && r == StripSlash(t[1..]) {
      AfterIsStripped(t, 'f', r);
    }
  }

  lemma BothsAreExact(t: string, path: seq<seq<byte>>, id: FileId)
    ensures ParseNodeAddr(t) == Ok(Both(path, id)) <==> SpellsNodeAddr(t, Both(path, id))
  {
    hide Split, DecodeAll, SpellsIdAndPath, StripSlash, Cut, ParseFileId, After;
    if t != "" && t[0] == 'b' {
      AfterIsStripped(t, 'b', StripSlash(t[1..]));
      IdAndPathAreExact(StripSlash(t[1..]), id, path);
    }
    forall r | After(t, 'b', r) ensures t != "" && t[0] == 'b' && r == StripSlash(t[1..]) {
      AfterIsStripped(t, 'b', r);
    }
  }

  // What the decoder makes of the text behind `b/`.
  function ParseIdAndPath(t: string): VfsResult<NodeAddr> {
    var (first, rest) := Cut(t, '/');
    var id :- ParseFileId(first);
    var path :- match rest {
      case None => Ok([])
      case Some(p) => DecodeAll(Split(p, '/'))
    };
    Ok(Both(path, id))
  }

  lemma IdAndPathAreExact(t: string, id: FileId, path: seq<seq<byte>>)
    ensures ParseIdAndPath(t) == Ok(Both(path, id)) <==> SpellsIdAndPath(t, id, path)
  {
    hide Split, DecodeAll, SpellsFileId, SpellsPieces, ParseFileId, Cut, CutInto;
    var (first, rest) := Cut(t, '/');
    FileIdsAreExact(first, id);
    if rest == None {
      assert t == first + "" == first;
    } else {
      CutsAreExact(t, '/', first, rest.value);
      PiecesAreExact(Split(rest.value, '/'), path);
    }
    forall a, b | CutInto(t, '/', a, b) ensures a == first && rest == Some(b) {
      CutsAreExact(t, '/', a, b);
    }
  }

  lemma NodeAddrsAreExact(t: string, a: NodeAddr)
    ensures ParseNodeAddr(t) == Ok(a) <==> SpellsNodeAddr(t, a)
  {
    match a
    case Path(path) => PathsAreExact(t, path);
    case File(id) => FilesAreExact(t, id);
    case Both(path, id) => BothsAreExact(t, path, id);
  }

  // ---- layers ----

  ghost predicate SpellsGuid(t: string, g: Guid) {
    |t| == 32 && forall i :: 0 <= i < 16 ==> SpellsByte(t[2 * i], t[2 * i + 1], g[i])
  }

  ghost predicate SpellsPairs(t: string, bytes: seq<byte>) {
    |t| == 2 * |bytes| && forall i :: 0 <= i < |bytes| ==> SpellsByte(t[2 * i], t[2 * i + 1], bytes[i])
  }

  lemma {:induction false} PairsAreExact(t: string, bytes: seq<byte>)
    ensures ParsePairs(t) == Ok(bytes) <==> SpellsPairs(t, bytes)
  {
    hide SpellsByte, HexPair;
    if bytes == [] || |t| < 2 {
    } else {
      HexPairsAreExact(t[0], t[1], bytes[0]);
      PairsAreExact(t[2..], bytes[1..]);
      assert bytes == [bytes[0]] + bytes[1..];
      if SpellsPairs(t, bytes) {
        forall i | 0 <= i < |bytes[1..]| ensures SpellsByte(t[2..][2 * i], t[2..][2 * i + 1], bytes[1..][i]) {
          assert SpellsByte(t[2 * (i + 1)], t[2 * (i + 1) + 1], bytes[i + 1]);
        }
        assert SpellsByte(t[2 * 0], t[2 * 0 + 1], bytes[0]);
      }
      if SpellsByte(t[0], t[1], bytes[0]) && SpellsPairs(t[2..], bytes[1..]) {
        forall i | 0 <= i < |bytes| ensures SpellsByte(t[2 * i], t[2 * i + 1], bytes[i]) {
          if i > 0 {
            assert SpellsByte(t[2..][2 * (i - 1)], t[2..][2 * (i - 1) + 1], bytes[1..][i - 1]);
          }
        }
      }
    }
  }

  lemma GuidsAreExact(t: string, g: Guid)
    ensures ParseGuid(t) == Ok(g) <==> SpellsGuid(t, g)
  {
    hide SpellsByte, ParsePairs;
    PairsAreExact(t, g);
  }

  // The tag a layer goes by. `os` is the old name of `file`.
  predicate NamesLayer(tag: string, l: Layer) {
    match l
    case FileLayer(_) => tag == "file" || tag == "os"
    case DirectoryLayer(_) => tag == "dir"
    case RangeLayer(_, _) => tag == "range"
    case ContainerLayer(_) => tag == "container"
    case VolumeLayer(_, _, _) => tag == "volume"
    case EncryptionLayer(_) => tag == "encryption"
    case SnapshotLayer(_) => tag == "snapshot"
    case FsLayer(_, _) => tag == "fs"
    case StreamLayer(_) => tag == "stream"
    case ArchiveLayer(_) => tag == "archive"
  }

  ghost predicate SpellsBody(known: seq<FsKind>, body: string, l: Layer) {
    match l
    case FileLayer(path) => SpellsBytes(body, path)
    case DirectoryLayer(path) => SpellsBytes(body, path)
    case RangeLayer(start, len) =>
      exists a, b :: CutInto(body, ',', a, b) && SpellsNumber(a, start) && SpellsNumber(b, len)
    case ContainerLayer(f) => NamesContainer(body, f)
    case VolumeLayer(scheme, index, guid) => SpellsVolume(Split(body, ','), scheme, index, guid)
    case EncryptionLayer(e) => NamesCipher(body, e)
    case SnapshotLayer(VssStore(i)) => exists b :: CutInto(body, ',', "vss", b) && SpellsNumber(b, i)
    case SnapshotLayer(ApfsXid(x)) => exists b :: CutInto(body, ',', "apfs", b) && SpellsNumber(b, x)
    case FsLayer(kind, at) => kind in known && exists b :: CutInto(body, ',', kind, b) && SpellsNodeAddr(b, at)
    case StreamLayer(s) => SpellsStream(body, s)
    case ArchiveLayer(None) => body == ""
    case ArchiveLayer(Some(i)) => SpellsNumber(body, i)
  }

  // Two fields, a GUID third if there is one, and the rest ignored.
  ghost predicate SpellsVolume(f: seq<string>, scheme: VolumeScheme, index: nat, guid: Option<Guid>) {
    && |f| >= 2 && NamesVolumes(f[0], scheme) && SpellsNumber(f[1], index)
    && match guid
       case None => |f| == 2
       case Some(g) => |f| > 2 && SpellsGuid(f[2], g)
  }

  lemma RangesAreExact(body: string, start: u64, len: u64)
    ensures ParseRangeBody(body) == Ok(RangeLayer(start, len)) <==> SpellsBody([], body, RangeLayer(start, len))
  {
    hide Cut, CutInto, ParseUnsigned, SpellsNumber;
    var (a, rest) := Cut(body, ',');
    if rest.Some? {
      CutsAreExact(body, ',', a, rest.value);
      NumbersAreExact(a, U64_MODULUS, start);
      NumbersAreExact(rest.value, U64_MODULUS, len);
    }
    forall x, y | CutInto(body, ',', x, y) ensures x == a && rest == Some(y) {
      CutsAreExact(body, ',', x, y);
    }
  }

  lemma VolumesAreExact(body: string, scheme: VolumeScheme, index: usize, guid: Option<Guid>)
    ensures ParseVolumeBody(body) == Ok(VolumeLayer(scheme, index, guid)) <==>
            SpellsBody([], body, VolumeLayer(scheme, index, guid))
  {
    hide Split, NumberAt, ParseVolumeScheme, NamesVolumes, ParseGuid, SpellsNumber, SpellsGuid;
    var f := Split(body, ',');
    VolumeNames(f[0], scheme);
    NumberFields(f, 1, index);
    if |f| > 2 && guid.Some? {
      GuidsAreExact(f[2], guid.value);
    }
  }

  lemma SnapshotsAreExact(body: string, store: SnapshotRef)
    ensures ParseSnapshotBody(body) == Ok(SnapshotLayer(store)) <==> SpellsBody([], body, SnapshotLayer(store))
  {
    hide Cut, CutInto, ParseUnsigned, SpellsNumber;
    var (a, rest) := Cut(body, ',');
    if rest.Some? {
      CutsAreExact(body, ',', a, rest.value);
      match store
      case VssStore(i) => NumbersAreExact(rest.value, U64_MODULUS, i);
      case ApfsXid(x) => NumbersAreExact(rest.value, U64_MODULUS, x);
    }
    forall x, y | CutInto(body, ',', x, y) ensures x == a && rest == Some(y) {
      CutsAreExact(body, ',', x, y);
    }
  }

  lemma FsAreExact(known: seq<FsKind>, body: string, kind: FsKind, at: NodeAddr)
    ensures ParseFsBody(known, body) == Ok(FsLayer(kind, at)) <==> SpellsBody(known, body, FsLayer(kind, at))
  {
    hide Cut, CutInto, ParseNodeAddr, SpellsNodeAddr;
    var (a, rest) := Cut(body, ',');
    if rest.Some? {
      CutsAreExact(body, ',', a, rest.value);
      NodeAddrsAreExact(rest.value, at);
    }
    forall x, y | CutInto(body, ',', x, y) ensures x == a && rest == Some(y) {
      CutsAreExact(body, ',', x, y);
    }
  }

  lemma ArchivesAreExact(body: string, member: Option<usize>)
    ensures ParseArchiveBody(body) == Ok(ArchiveLayer(member)) <==> SpellsBody([], body, ArchiveLayer(member))
  {
    hide ParseUnsigned, SpellsNumber;
    if member.Some? {
      NumbersAreExact(body, U64_MODULUS, member.value);
      EmptyIsNoNumber(member.value);
    }
  }

  lemma EmptyIsNoNumber(n: nat)
    ensures !SpellsNumber("", n)
  {
  }

  lemma PathBodiesAreExact(body: string, path: seq<byte>)
    ensures ParseFileBody(body) == Ok(FileLayer(path)) <==> SpellsBytes(body, path)
    ensures ParseDirectoryBody(body) == Ok(DirectoryLayer(path)) <==> SpellsBytes(body, path)
  {
    hide Percent.Decode, SpellsBytes;
    DecodesExactly(body, path);
  }

  // What `ParseBody` does for one tag is decided by the layer it is to yield.
  function BodyFor(known: seq<FsKind>, body: string, l: Layer): VfsResult<Layer> {
    match l
    case FileLayer(_) => ParseFileBody(body)
    case DirectoryLayer(_) => ParseDirectoryBody(body)
    case RangeLayer(_, _) => ParseRangeBody(body)
    case ContainerLayer(_) => ParseContainerBody(body)
    case VolumeLayer(_, _, _) => ParseVolumeBody(body)
    case EncryptionLayer(_) => ParseEncryptionBody(body)
    case SnapshotLayer(_) => ParseSnapshotBody(body)
    case FsLayer(_, _) => ParseFsBody(known, body)
    case StreamLayer(_) => ParseStreamBody(body)
    case ArchiveLayer(_) => ParseArchiveBody(body)
  }

  lemma BodyForIsExact(known: seq<FsKind>, body: string, l: Layer)
    ensures BodyFor(known, body, l) == Ok(l) <==> SpellsBody(known, body, l)
  {
    hide ParseContainer, ParseEncryption, ParseStream, NamesContainer, NamesCipher, SpellsStream, SpellsBytes,
         ParseFileBody, ParseDirectoryBody, ParseRangeBody, ParseVolumeBody, ParseSnapshotBody, ParseFsBody,
         ParseArchiveBody;
    match l
    case FileLayer(path) => PathBodiesAreExact(body, path);
    case DirectoryLayer(path) => PathBodiesAreExact(body, path);
    case RangeLayer(start, len) => RangesAreExact(body, start, len);
    case ContainerLayer(f) => ContainerNames(body, f);
    case VolumeLayer(scheme, index, guid) => VolumesAreExact(body, scheme, index, guid);
    case EncryptionLayer(e) => CipherNames(body, e);
    case SnapshotLayer(store) => SnapshotsAreExact(body, store);
    case FsLayer(kind, at) => FsAreExact(known, body, kind, at);
    case StreamLayer(s) => StreamsAreExact(body, s);
    case ArchiveLayer(member) => ArchivesAreExact(body, member);
  }

  lemma TagChoosesBody(known: seq<FsKind>, tag: string, body: string, l: Layer)
    requires NamesLayer(tag, l)
    ensures ParseBody(known, tag, body) == BodyFor(known, body, l)
  {
    hide ParseFileBody, ParseDirectoryBody, ParseRangeBody, ParseContainerBody, ParseVolumeBody,
         ParseEncryptionBody, ParseSnapshotBody, ParseFsBody, ParseStreamBody, ParseArchiveBody;
  }

  lemma TagIsItsName(tag: string, l: Layer)
    requires LayerTag(l) == if tag == "os" then "file" else tag
    ensures NamesLayer(tag, l)
  {
  }

  lemma BodiesAreExact(known: seq<FsKind>, tag: string, body: string, l: Layer)
    ensures ParseBody(known, tag, body) == Ok(l) <==> NamesLayer(tag, l) && SpellsBody(known, body, l)
  {
    hide ParseBody, SpellsBody, NamesLayer, BodyFor, LayerTag;
    BodyForIsExact(known, body, l);
    if ParseBody(known, tag, body) == Ok(l) {
      BodyKeepsTag(known, tag, body);
      TagIsItsName(tag, l);
    }
    if NamesLayer(tag, l) {
      TagChoosesBody(known, tag, body, l);
    }
  }

  // A layer is a tag, a colon and a body.
  ghost predicate SpellsLayer(known: seq<FsKind>, piece: string, l: Layer) {
    exists tag, body :: CutInto(piece, ':', tag, body) && NamesLayer(tag, l) && SpellsBody(known, body, l)
  }

  lemma LayersAreExact(known: seq<FsKind>, piece: string, l: Layer)
    ensures ParseLayer(known, piece) == Ok(l) <==> SpellsLayer(known, piece, l)
  {
    hide Cut, CutInto, ParseBody, NamesLayer, SpellsBody;
    var (tag, rest) := Cut(piece, ':');
    if rest.Some? {
      CutsAreExact(piece, ':', tag, rest.value);
      BodiesAreExact(known, tag, rest.value, l);
    }
    forall x, y | CutInto(piece, ':', x, y) ensures x == tag && rest == Some(y) {
      CutsAreExact(piece, ':', x, y);
    }
  }

  // ---- whole texts ----

  ghost predicate SpellsChain(known: seq<FsKind>, pieces: seq<string>, layers: seq<Layer>) {
    |pieces| == |layers| && forall i :: 0 <= i < |layers| ==> SpellsLayer(known, pieces[i], layers[i])
  }

  lemma {:induction false} ChainsAreExact(known: seq<FsKind>, pieces: seq<string>, layers: seq<Layer>)
    ensures ParseLayers(known, pieces) == Ok(layers) <==> SpellsChain(known, pieces, layers)
  {
    hide ParseLayer, SpellsLayer;
    if pieces != [] && layers != [] {
      LayersAreExact(known, pieces[0], layers[0]);
      ChainsAreExact(known, pieces[1..], layers[1..]);
      assert layers == [layers[0]] + layers[1..];
      ChainByHead(known, pieces, layers);
    }
  }

  lemma ChainByHead(known: seq<FsKind>, pieces: seq<string>, layers: seq<Layer>)
    requires pieces != [] && layers != []
    ensures SpellsChain(known, pieces, layers) <==>
            SpellsLayer(known, pieces[0], layers[0]) && SpellsChain(known, pieces[1..], layers[1..])
  {
    hide SpellsLayer;
    if SpellsLayer(known, pieces[0], layers[0]) && SpellsChain(known, pieces[1..], layers[1..]) {
      forall i | 0 <= i < |layers| ensures SpellsLayer(known, pieces[i], layers[i]) {
        if i > 0 {
          assert pieces[i] == pieces[1..][i - 1] && layers[i] == layers[1..][i - 1];
        }
      }
    }
  }

  // The scheme, new or old, then layers between bars, the root first.
  ghost predicate SpellsUri(known: seq<FsKind>, s: string, l: Locator) {
    exists rest: string ::
      (s == "loc:" + rest || s == "fvfs:" + rest) && SpellsChain(known, Split(rest, '|'), l.Layers())
  }

  lemma SchemesAreExact(s: string, rest: string)
    ensures Remainder(s) == Some(rest) <==> s == "loc:" + rest || s == "fvfs:" + rest
  {
    LegacyRemainder(rest);
    if Remainder(s) == Some(rest) {
      if StripPrefix(s, SCHEME).Some? {
        assert s == SCHEME + rest;
      } else {
        assert s == LEGACY_SCHEME + rest;
      }
    }
  }

  // The decoder accepts exactly the texts of the grammar, each for its one locator.
  lemma {:induction false} DecoderIsTheGrammar(known: seq<FsKind>, s: string, l: Locator)
    ensures FromUri(known, s) == Ok(l) <==> SpellsUri(known, s, l)
  {
    hide Remainder, ParseLayers, Split, SpellsChain, FromUri;
    if Remainder(s).Some? {
      var rest := Remainder(s).value;
      SchemesAreExact(s, rest);
      FromUriLayers(known, s, rest);
      ChainsAreExact(known, Split(rest, '|'), l.Layers());
      if FromUri(known, s).Ok? && FromUri(known, s).value.Layers() == l.Layers() {
        LayersDetermineLocator(FromUri(known, s).value, l);
      }
    } else {
      NoRemainder(known, s);
    }
    forall rest: string | s == "loc:" + rest || s == "fvfs:" + rest ensures Remainder(s) == Some(rest) {
      SchemesAreExact(s, rest);
    }
  }

  lemma NoRemainder(known: seq<FsKind>, s: string)
    requires Remainder(s).None?
    ensures FromUri(known, s) == Err(Decode)
  {
  }

  // And the printer gives, of the spellings of a locator, the canonical one: there is
  // one only.
  lemma {:induction false} PrinterIsTheCanonicalSpelling(known: seq<FsKind>, s: string, l: Locator)
    requires ValidKinds(known) && KnownKinds(known, l.Layers())
    ensures ToUri(l) == s <==> SpellsUri(known, s, l) && CanonicalUri(s)
  {
    hide ToUri, FromUri, SpellsUri, CanonicalUri, KnownKinds, ValidKinds;
    UriRoundTrips(known, l);
    DecoderIsTheGrammar(known, s, l);
    if FromUri(known, s) == Ok(l) {
      ReencodesExactlyCanonical(known, s);
    }
  }

  lemma UriBeginsWithScheme(l: Locator)
    ensures "loc:" <= ToUri(l)
  {
  }

  // The bytes of an ASCII text.
  function Ascii(s: string): seq<byte>
    requires forall i :: 0 <= i < |s| ==> s[i] as int < 0x80
  {
    if s == "" then [] else [s[0] as int] + Ascii(s[1..])
  }

  lemma {:induction false} AsciiDecodes(s: string)
    requires forall i :: 0 <= i < |s| ==> s[i] as int < 0x80 && s[i] != '%'
    ensures Percent.Decode(s) == Ok(Ascii(s))
  {
    if s != "" {
      AsciiDecodes(s[1..]);
      assert Percent.Utf8(s[0]) == [s[0] as int];
    }
  }

  const OLD_FORM: string := "fvfs:os:%2Fimg.raw"
  const NEW_FORM: string := "loc:file:/img.raw"

  // A text of the old form with an escaped slash, and one of the new form with a raw
  // one, are read as the same path.
  lemma BothSlashesAreRead(known: seq<FsKind>)
    ensures var l := Root(FileLayer(Ascii("/img.raw")));
            FromUri(known, OLD_FORM) == Ok(l) && FromUri(known, NEW_FORM) == Ok(l)
  {
    hide FromUri, SpellsUri, SpellsChain, Split, SpellsBytes, Ascii;
    var l := Root(FileLayer(Ascii("/img.raw")));
    EscapedSlash();
    RawSlash();
    OneLayerSpells(known, "os", "%2Fimg.raw", l);
    OneLayerSpells(known, "file", "/img.raw", l);
    assert OLD_FORM == "fvfs:" + ("os" + [':'] + "%2Fimg.raw");
    assert NEW_FORM == "loc:" + ("file" + [':'] + "/img.raw");
    SpelledBy(known, OLD_FORM, "os" + [':'] + "%2Fimg.raw", l);
    SpelledBy(known, NEW_FORM, "file" + [':'] + "/img.raw", l);
    DecoderIsTheGrammar(known, OLD_FORM, l);
    DecoderIsTheGrammar(known, NEW_FORM, l);
  }

  lemma SpelledBy(known: seq<FsKind>, s: string, rest: string, l: Locator)
    requires s == "loc:" + rest || s == "fvfs:" + rest
    requires SpellsChain(known, Split(rest, '|'), l.Layers())
    ensures SpellsUri(known, s, l)
  {
  }

  lemma OneLayerSpells(known: seq<FsKind>, tag: string, body: string, l: Locator)
    requires l.parent.None? && l.layer.FileLayer? && (tag == "file" || tag == "os")
    requires '|' !in body && SpellsBytes(body, l.layer.path)
    ensures SpellsChain(known, Split(tag + [':'] + body, '|'), l.Layers())
  {
    hide SpellsBytes;
    var piece := tag + [':'] + body;
    CutFindsNone(piece, '|');
    assert CutInto(piece, ':', tag, body);
    assert SpellsBody(known, body, l.layer);
    assert SpellsLayer(known, piece, l.layer);
    assert l.Layers() == [] + [l.layer] == [l.layer];
  }

  lemma RawSlash()
    ensures SpellsBytes("/img.raw", Ascii("/img.raw"))
  {
    hide SpellsBytes;
    AsciiDecodes("/img.raw");
    DecodesExactly("/img.raw", Ascii("/img.raw"));
  }

  lemma EscapedSlash()
    ensures SpellsBytes("%2Fimg.raw", Ascii("/img.raw"))
  {
    hide SpellsBytes, SpellsByte, Ascii;
    AsciiDecodes("img.raw");
    DecodesExactly("img.raw", Ascii("img.raw"));
    SlashDigits();
    EscapeThenText('2', 'F', 0x2F, "img.raw", Ascii("img.raw"));
    AsciiBegins('/', "img.raw");
    assert "%2Fimg.raw" == ['%', '2', 'F'] + "img.raw";
    assert "/img.raw" == ['/'] + "img.raw";
  }

  lemma EscapeThenText(x: char, y: char, b: byte, rest: string, bytes: seq<byte>)
    requires SpellsByte(x, y, b) && SpellsBytes(rest, bytes)
    ensures SpellsBytes(['%', x, y] + rest, [b] + bytes)
  {
    hide SpellsByte;
    var t := ['%', x, y] + rest;
    assert t[3..] == rest && ([b] + bytes)[1..] == bytes;
  }

  lemma AsciiBegins(c: char, rest: string)
    requires c as int < 0x80 && forall i :: 0 <= i < |rest| ==> rest[i] as int < 0x80
    ensures Ascii([c] + rest) == [c as int] + Ascii(rest)
  {
    assert ([c] + rest)[1..] == rest;
  }

  lemma SlashDigits()
    ensures SpellsByte('2', 'F', 0x2F)
  {
    assert SpellsHigh('2', 2) && SpellsDigit('F', 15) && 0x2F == 16 * 2 + 15;
  }

  // ---- rejections ----

  lemma {:induction false} BytesRejectAsDecode(t: string)
    ensures Percent.Decode(t).Err? ==> Percent.Decode(t).error == Decode
    decreases |t|
  {
    if t != "" {
      BytesRejectAsDecode(t[1..]);
      if |t| >= 3 {
        BytesRejectAsDecode(t[3..]);
      }
    }
  }

  lemma {:induction false} PiecesRejectAsDecode(pieces: seq<string>)
    ensures DecodeAll(pieces).Err? ==> DecodeAll(pieces).error == Decode
  {
    hide Percent.Decode;
    if pieces != [] {
      BytesRejectAsDecode(pieces[0]);
      PiecesRejectAsDecode(pieces[1..]);
    }
  }

  lemma {:induction false} PairsRejectAsDecode(t: string)
    ensures ParsePairs(t).Err? ==> ParsePairs(t).error == Decode
  {
    hide HexPair;
    if |t| >= 2 {
      PairsRejectAsDecode(t[2..]);
    }
  }

  lemma NodeAddrRejectsAsDecode(t: string)
    ensures ParseNodeAddr(t).Err? ==> ParseNodeAddr(t).error == Decode
  {
    hide Split, Cut, StripSlash, DecodeAll, ParseFileId;
    if t != "" {
      var r := StripSlash(t[1..]);
      PiecesRejectAsDecode(Split(r, '/'));
      FileIdRejectsAsDecode(r);
      FileIdRejectsAsDecode(Cut(r, '/').0);
      if Cut(r, '/').1.Some? {
        PiecesRejectAsDecode(Split(Cut(r, '/').1.value, '/'));
      }
    }
  }

  lemma FileIdRejectsAsDecode(t: string)
    ensures ParseFileId(t).Err? ==> ParseFileId(t).error == Decode
  {
    hide Split, DecimalValue;
  }

  lemma BodyRejectsAsDecode(known: seq<FsKind>, tag: string, body: string)
    ensures ParseBody(known, tag, body).Err? ==> ParseBody(known, tag, body).error == Decode
  {
    hide ParseFileBody, ParseDirectoryBody, ParseRangeBody, ParseContainerBody, ParseVolumeBody,
         ParseEncryptionBody, ParseSnapshotBody, ParseFsBody, ParseStreamBody, ParseArchiveBody;
    SimpleBodiesRejectAsDecode(body);
    CutBodiesRejectAsDecode(known, body);
    VolumesRejectAsDecode(body);
  }

  lemma SimpleBodiesRejectAsDecode(body: string)
    ensures ParseFileBody(body).Err? ==> ParseFileBody(body).error == Decode
    ensures ParseDirectoryBody(body).Err? ==> ParseDirectoryBody(body).error == Decode
    ensures ParseContainerBody(body).Err? ==> ParseContainerBody(body).error == Decode
    ensures ParseEncryptionBody(body).Err? ==> ParseEncryptionBody(body).error == Decode
    ensures ParseStreamBody(body).Err? ==> ParseStreamBody(body).error == Decode
    ensures ParseArchiveBody(body).Err? ==> ParseArchiveBody(body).error == Decode
  {
    hide Percent.Decode, DecimalValue, ParseContainer, ParseEncryption, ParseStream, ParseVolumeScheme;
    BytesRejectAsDecode(body);
    NamesRejectAsDecode(body, body);
  }

  lemma CutBodiesRejectAsDecode(known: seq<FsKind>, body: string)
    ensures ParseRangeBody(body).Err? ==> ParseRangeBody(body).error == Decode
    ensures ParseSnapshotBody(body).Err? ==> ParseSnapshotBody(body).error == Decode
    ensures ParseFsBody(known, body).Err? ==> ParseFsBody(known, body).error == Decode
  {
    hide Cut, ParseNodeAddr, DecimalValue;
    if Cut(body, ',').1.Some? {
      NodeAddrRejectsAsDecode(Cut(body, ',').1.value);
    }
  }

  lemma VolumesRejectAsDecode(body: string)
    ensures ParseVolumeBody(body).Err? ==> ParseVolumeBody(body).error == Decode
  {
    hide Split, ParsePairs, DecimalValue, ParseVolumeScheme, ParseContainer, ParseEncryption, ParseStream;
    NamesRejectAsDecode(body, Split(body, ',')[0]);
    if |Split(body, ',')| > 2 {
      PairsRejectAsDecode(Split(body, ',')[2]);
    }
  }

  lemma NamesRejectAsDecode(body: string, field: string)
    ensures ParseContainer(body).Err? ==> ParseContainer(body).error == Decode
    ensures ParseEncryption(body).Err? ==> ParseEncryption(body).error == Decode
    ensures ParseVolumeScheme(field).Err? ==> ParseVolumeScheme(field).error == Decode
    ensures ParseStream(body).Err? ==> ParseStream(body).error == Decode
  {
    hide Split, DecimalValue;
  }

  lemma {:induction false} LayersRejectAsDecode(known: seq<FsKind>, pieces: seq<string>)
    ensures ParseLayers(known, pieces).Err? ==> ParseLayers(known, pieces).error == Decode
  {
    hide ParseBody, Cut;
    if pieces != [] {
      var (tag, rest) := Cut(pieces[0], ':');
      if rest.Some? {
        BodyRejectsAsDecode(known, tag, rest.value);
      }
      LayersRejectAsDecode(known, pieces[1..]);
    }
  }

  // A text outside the grammar is rejected as malformed, never as anything else.
  lemma {:induction false} RejectsAsDecode(known: seq<FsKind>, s: string)
    ensures FromUri(known, s) == Err(Decode) <==> forall l :: !SpellsUri(known, s, l)
  {
    hide ParseLayers, SpellsUri;
    forall l ensures FromUri(known, s) == Ok(l) <==> SpellsUri(known, s, l) {
      DecoderIsTheGrammar(known, s, l);
    }
    if Remainder(s).Some? {
      LayersRejectAsDecode(known, Split(Remainder(s).value, '|'));
    }
  }
}
