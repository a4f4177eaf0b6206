/** The plugin contracts: sources, sniff windows, opener verdicts and the registry. */
module Registry {
  import opened Basics
  import opened Locators

  // What one positioned read leaves behind: the bytes it stored at the front of
  // the caller's buffer, and the count it reported. Nothing forces the two to
  // agree; `Sniff.FillsToEnd` says when they do.
  datatype Reading = Reading(bytes: seq<byte>, count: u64)

  // A positioned-read handle. `read(offset, capacity)` answers a read into a
  // buffer of `capacity` bytes; `id` separates handles that read alike.
  datatype Source = Source(id: nat, len: u64, read: (u64, nat) -> VfsResult<Reading>)

  datatype Confidence = No | Maybe | Yes(how: string) {
    predicate IsCandidate() {
      !No?
    }
  }

  // `bytes` is the head, starting at absolute offset `start`; `tail` ends at `totalLen`.
  datatype SniffWindow = SniffWindow(start: u64, bytes: seq<byte>, totalLen: u64, tail: seq<byte>) {

    function At(off: usize, n: usize): Option<seq<byte>> {
      Slice(bytes, off, n)
    }

    predicate HasMagic(off: usize, magic: seq<byte>)
      requires |magic| < U64_MODULUS
    {
      At(off, |magic|) == Some(magic)
    }

    function TailAt(fromEnd: usize, n: usize): Option<seq<byte>> {
      if fromEnd > |tail| then None
      else if |tail| - fromEnd >= U64_MODULUS then None
      else Slice(tail, |tail| - fromEnd, n)
    }

    predicate HasMagicFromEnd(fromEnd: usize, magic: seq<byte>)
      requires |magic| < U64_MODULUS
    {
      TailAt(fromEnd, |magic|) == Some(magic)
    }
  }

  // A checked addition followed by a checked slice.
  function Slice(s: seq<byte>, off: usize, n: usize): Option<seq<byte>> {
    if off + n >= U64_MODULUS then None
    else if off + n > |s| then None
    else Some(s[off..off + n])
  }

  // The mounted-filesystem handle, opaque to the resolver.
  datatype Mounted = Mounted(handle: nat)

  datatype Credential =
    | Password(text: string)
    | RecoveryKey(text: string)
    | KeyBytes(key: seq<byte>)
    | KeyFile(path: seq<byte>)

  datatype Credentials = Credentials(offer: (EncryptionScheme, string) -> seq<Credential>)

  datatype VolumeTable = VolumeTable(count: usize, openVolume: nat -> VfsResult<Source>)
  datatype CipherLayer = CipherLayer(decrypt: Credentials -> VfsResult<Source>)

  // Members are numbered by a `usize`.
  type MemberTable = s: seq<Source> | |s| < U64_MODULUS
  datatype ArchiveContents = Stream(inner: Source) | Members(members: MemberTable)

  datatype FileSystemOpen = FileSystemOpen(
    kind: FsKind, probe: SniffWindow -> Confidence, open: Source -> VfsResult<Mounted>)
  datatype VolumeSystemOpen = VolumeSystemOpen(
    scheme: VolumeScheme, probe: SniffWindow -> Confidence, open: Source -> VfsResult<VolumeTable>)
  datatype EncryptionOpen = EncryptionOpen(
    scheme: EncryptionScheme, probe: SniffWindow -> Confidence, open: Source -> VfsResult<CipherLayer>)
  datatype ContainerOpen = ContainerOpen(
    format: ContainerFormat, probe: SniffWindow -> Confidence, open: Source -> VfsResult<Source>)
  datatype ArchiveOpen = ArchiveOpen(
    probe: SniffWindow -> Confidence, open: Source -> VfsResult<ArchiveContents>)

  // Each list is in registration order.
  datatype Openers = Openers(
    filesystems: seq<FileSystemOpen>,
    volumeSystems: seq<VolumeSystemOpen>,
    encryption: seq<EncryptionOpen>,
    containers: seq<ContainerOpen>,
    archives: seq<ArchiveOpen>)
}
