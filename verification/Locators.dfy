/** The locator: a chain of layers, each naming how its bytes were reached. */
module Locators {
  import opened Basics

  datatype ContainerFormat =
    Ewf | Vmdk | Vhdx | Vhd | Qcow2 | Dmg | Aff4 | Ad1 | Dar | RawImage | Auto

  datatype VolumeScheme =
    Mbr | Gpt | Apm | Vss | ApfsContainer | Lvm

  datatype EncryptionScheme =
    Bitlocker | Luks1 | Luks2 | FileVault | ApfsEncrypted | VeraCrypt | IosBackup

  // A string-backed kind: two kinds are equal exactly when their tokens are.
  type FsKind = string

  // Sixteen raw bytes.
  type Guid = g: seq<byte> | |g| == 16 witness [0, 0, 0, 0, 0, 0, 0, 0, 0, 0, 0, 0, 0, 0, 0, 0]

  datatype FileId =
    | NtfsRef(entry: u64, sequence: u16)
    | ExtInode(ino: u64, gen: u32)
    | ApfsOid(oid: u64, xid: u64)
    | FatDirEntry(cluster: u32, index: u16)
    | IsoExtent(block: u32)
    | Opaque(n: u64)

  datatype StreamId =
    | Default
    | Named(id: u16)
    | ResourceFork
    | Xattr(id: u16)
    | Slack

  datatype SnapshotRef = VssStore(store: usize) | ApfsXid(transaction: u64)

  datatype NodeAddr =
    | Path(path: seq<seq<byte>>)
    | File(id: FileId)
    | Both(path: seq<seq<byte>>, id: FileId)

  // `File` and `Directory` carry the raw bytes of a Unix path.
  datatype Layer =
    | FileLayer(path: seq<byte>)
    | DirectoryLayer(path: seq<byte>)
    | RangeLayer(start: u64, len: u64)
    | ContainerLayer(format: ContainerFormat)
    | VolumeLayer(scheme: VolumeScheme, index: usize, guid: Option<Guid>)
    | EncryptionLayer(cipher: EncryptionScheme)
    | SnapshotLayer(store: SnapshotRef)
    | FsLayer(kind: FsKind, at: NodeAddr)
    | StreamLayer(stream: StreamId)
    | ArchiveLayer(member: Option<usize>)

  datatype Locator = Locator(layer: Layer, parent: Option<Locator>) {

    function Push(next: Layer): Locator {
      Locator(next, Some(this))
    }

    function Depth(): nat {
      1 + match parent { case Some(p) => p.Depth() case None => 0 }
    }

    function Base(): Locator {
      match parent
      case Some(p) => p.Base()
      case None => this
    }

    // Root first.
    function Layers(): seq<Layer> {
      (match parent { case Some(p) => p.Layers() case None => [] }) + [layer]
    }

    // This locator with `more` pushed on top, in order.
    function PushAll(more: seq<Layer>): Locator
      decreases more
    {
      if more == [] then this else Push(more[0]).PushAll(more[1..])
    }
  }

  function Root(layer: Layer): Locator {
    Locator(layer, None)
  }

  lemma {:induction false} LayersCountDepth(l: Locator)
    ensures |l.Layers()| == l.Depth()
    ensures l.Base() == Root(l.Layers()[0])
  {
    match l.parent
    case Some(p) => LayersCountDepth(p);
    case None =>
  }

  lemma {:induction false} PushAllAppends(l: Locator, more: seq<Layer>)
    ensures l.PushAll(more).Layers() == l.Layers() + more
    ensures l.PushAll(more).Base() == l.Base()
    decreases more
  {
    if more == [] {
    } else {
      PushAllAppends(l.Push(more[0]), more[1..]);
      assert more == [more[0]] + more[1..];
    }
  }

  lemma {:induction false} PushAllSnoc(l: Locator, more: seq<Layer>, last: Layer)
    ensures l.PushAll(more + [last]) == l.PushAll(more).Push(last)
    decreases more
  {
    if more == [] {
      assert [last][1..] == [];
    } else {
      assert (more + [last])[1..] == more[1..] + [last];
      PushAllSnoc(l.Push(more[0]), more[1..], last);
    }
  }

  // A chain is determined by its list of layers.
  lemma {:induction false} LayersDetermineLocator(a: Locator, b: Locator)
    requires a.Layers() == b.Layers()
    ensures a == b
  {
    LayersCountDepth(a);
    LayersCountDepth(b);
    assert a.layer == a.Layers()[|a.Layers()| - 1] == b.layer;
    match (a.parent, b.parent)
    case (Some(p), Some(q)) =>
      assert p.Layers() == a.Layers()[..|a.Layers()| - 1] == q.Layers();
      LayersDetermineLocator(p, q);
    case _ =>
  }
}
