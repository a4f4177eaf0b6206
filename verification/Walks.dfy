/** The directory walk: a worklist loop with a visited set and a depth cap. */
module Walks {
  import opened Basics
  import opened Locators

  const WALK_MAX_DEPTH: nat := 256

  datatype NodeKind =
    RegularFile | Dir | Symlink | Device | CharDevice | BlockDevice | Fifo | Socket | OtherKind

  datatype FsMeta = FsMeta(ino: u64, kind: NodeKind, size: u64)

  datatype DirEntry = DirEntry(name: seq<byte>, id: FileId, kind: NodeKind)

  // A listing is a stream of entries, any of which may fail.
  datatype FileSystem = FileSystem(
    root: FileId,
    readDir: FileId -> VfsResult<seq<VfsResult<DirEntry>>>,
    meta: FileId -> VfsResult<FsMeta>)

  datatype WalkEntry = WalkEntry(path: seq<seq<byte>>, id: FileId, meta: FsMeta)

  // A directory waiting to be expanded.
  datatype Pending = Pending(path: seq<seq<byte>>, id: FileId, depth: nat)

  const DOT: byte := 46

  predicate IsDot(name: seq<byte>) {
    name == [DOT] || name == [DOT, DOT]
  }

  // ---- file ids are finitely many ----

  const IDS: nat := 6 * U64_MODULUS * U64_MODULUS

  function IdCode(id: FileId): (code: nat)
    ensures code < IDS
  {
    match id
    case NtfsRef(entry, sequence) => entry * U64_MODULUS + sequence
    case ExtInode(ino, gen) => (U64_MODULUS + ino) * U64_MODULUS + gen
    case ApfsOid(oid, xid) => (2 * U64_MODULUS + oid) * U64_MODULUS + xid
    case FatDirEntry(cluster, index) => (3 * U64_MODULUS + cluster) * U64_MODULUS + index
    case IsoExtent(block) => (4 * U64_MODULUS + block) * U64_MODULUS
    case Opaque(n) => (5 * U64_MODULUS + n) * U64_MODULUS
  }

  lemma IdCodeInjective(a: FileId, b: FileId)
    ensures IdCode(a) == IdCode(b) ==> a == b
  {
  }

  lemma {:induction false} IdsBelow(ids: set<FileId>, n: nat)
    requires forall id :: id in ids ==> IdCode(id) < n
    ensures |ids| <= n
  {
    if n == 0 {
      assert ids == {};
    } else {
      var lower := set id | id in ids && IdCode(id) < n - 1;
      IdsBelow(lower, n - 1);
      if id :| id in ids && IdCode(id) == n - 1 {
        forall other | other in ids && other != id ensures other in lower {
          IdCodeInjective(id, other);
        }
        assert ids == lower + {id};
      } else {
        assert ids == lower;
      }
    }
  }

  lemma VisitedIsBounded(ids: set<FileId>)
    ensures |ids| <= IDS
  {
    IdsBelow(ids, IDS);
  }

  // ---- what one expansion emits and pushes ----

  // The non-dot entries of a listing, in order; the first failure aborts.
  function ListEntries(fs: FileSystem, prefix: seq<seq<byte>>, listing: seq<VfsResult<DirEntry>>)
    : VfsResult<seq<WalkEntry>>
  {
    if listing == [] then Ok([])
    else
      var entry :- listing[0];
      if IsDot(entry.name) then ListEntries(fs, prefix, listing[1..])
      else
        var meta :- fs.meta(entry.id);
        var rest :- ListEntries(fs, prefix, listing[1..]);
        Ok([WalkEntry(prefix + [entry.name], entry.id, meta)] + rest)
  }

  function Expansion(fs: FileSystem, prefix: seq<seq<byte>>, dir: FileId): VfsResult<seq<WalkEntry>> {
    var listing :- fs.readDir(dir);
    ListEntries(fs, prefix, listing)
  }

  function Subdirectories(entries: seq<WalkEntry>, depth: nat): seq<Pending> {
    if entries == [] then []
    else if entries[0].meta.kind.Dir? then
      [Pending(entries[0].path, entries[0].id, depth)] + Subdirectories(entries[1..], depth)
    else Subdirectories(entries[1..], depth)
  }

  // ---- the run ----

  // The directories a run expands from this state on, in order.
  function WalkLog(fs: FileSystem, stack: seq<Pending>, visited: set<FileId>): VfsResult<seq<Pending>>
    decreases (VisitedIsBounded(visited); IDS - |visited|), |stack|
  {
    if stack == [] then Ok([])
    else
      var top := stack[|stack| - 1];
      var below := stack[..|stack| - 1];
      if top.depth > WALK_MAX_DEPTH || top.id in visited then WalkLog(fs, below, visited)
      else
        var entries :- Expansion(fs, top.path, top.id);
        VisitedIsBounded(visited + {top.id});
        var rest :- WalkLog(fs, below + Subdirectories(entries, top.depth + 1), visited + {top.id});
        Ok([top] + rest)
  }

  function Start(fs: FileSystem): seq<Pending> {
    [Pending([], fs.root, 0)]
  }

  // What a sequence of expansions emits.
  function Emitted(fs: FileSystem, log: seq<Pending>): VfsResult<seq<WalkEntry>> {
    if log == [] then Ok([])
    else
      var entries :- Expansion(fs, log[0].path, log[0].id);
      var rest :- Emitted(fs, log[1..]);
      Ok(entries + rest)
  }

  // The answer of a run: everything its expansions emit, or the first failure.
  function WalkResult(fs: FileSystem, stack: seq<Pending>, visited: set<FileId>): VfsResult<seq<WalkEntry>> {
    var log :- WalkLog(fs, stack, visited);
    Emitted(fs, log)
  }

  lemma {:induction false} SubdirectoriesAppend(a: seq<WalkEntry>, b: seq<WalkEntry>, depth: nat)
    ensures Subdirectories(a + b, depth) == Subdirectories(a, depth) + Subdirectories(b, depth)
  {
    if a == [] {
      assert a + b == b;
    } else {
      SubdirectoriesAppend(a[1..], b, depth);
      assert (a + b)[0] == a[0] && (a + b)[1..] == a[1..] + b;
    }
  }

  lemma NoSubdirectories(depth: nat)
    ensures Subdirectories([], depth) == []
  {
  }

  lemma SubdirectoriesOne(entry: WalkEntry, depth: nat)
    ensures Subdirectories([entry], depth)
         == if entry.meta.kind.Dir? then [Pending(entry.path, entry.id, depth)] else []
  {
    assert [entry][1..] == [];
  }

  // One step of the run, as an equation on results.
  lemma ExpandStep(fs: FileSystem, stack: seq<Pending>, visited: set<FileId>)
    requires stack != []
    ensures var top := stack[|stack| - 1];
            var below := stack[..|stack| - 1];
            var entries := Expansion(fs, top.path, top.id);
            WalkResult(fs, stack, visited) ==
              if top.depth > WALK_MAX_DEPTH || top.id in visited then WalkResult(fs, below, visited)
              else if entries.Err? then Err(entries.error)
              else Prepend(entries.value,
                           WalkResult(fs, below + Subdirectories(entries.value, top.depth + 1), visited + {top.id}))
  {
  }

  lemma WalkIsDone(fs: FileSystem, out: seq<WalkEntry>, visited: set<FileId>)
    ensures Prepend(out, WalkResult(fs, [], visited)) == Ok(out)
  {
    assert out + [] == out;
  }

  method Walk(fs: FileSystem) returns (r: VfsResult<seq<WalkEntry>>)
    ensures r == WalkResult(fs, Start(fs), {})
  {
    hide WalkResult, Subdirectories;
    var out: seq<WalkEntry> := [];
    var visited: set<FileId> := {};
    var stack := [Pending([], fs.root, 0)];
    PrependNothing(WalkResult(fs, stack, visited));
    while |stack| > 0
      invariant WalkResult(fs, Start(fs), {}) == Prepend(out, WalkResult(fs, stack, visited))
      decreases (VisitedIsBounded(visited); IDS - |visited|), |stack|
    {
      ExpandStep(fs, stack, visited);
      ghost var whole := WalkResult(fs, stack, visited);
      var top := stack[|stack| - 1];
      stack := stack[..|stack| - 1];
      if top.depth > WALK_MAX_DEPTH || top.id in visited {
        continue;
      }
      VisitedIsBounded(visited + {top.id});
      visited := visited + {top.id};
      var answer := fs.readDir(top.id);
      if answer.Err? {
        return Err(answer.error);
      }
      var listing := answer.value;
      ghost var emitted: seq<WalkEntry> := [];
      NoSubdirectories(top.depth + 1);
      ghost var out0, below := out, stack;
      PrependNothing(ListEntries(fs, top.path, listing));
      assert listing[0..] == listing;
      for k := 0 to |listing|
        invariant out == out0 + emitted
        invariant stack == below + Subdirectories(emitted, top.depth + 1)
        invariant ListEntries(fs, top.path, listing) == Prepend(emitted, ListEntries(fs, top.path, listing[k..]))
      {
        assert listing[k..][0] == listing[k] && listing[k..][1..] == listing[k + 1..];
        var entry := listing[k];
        if entry.Err? {
          return Err(entry.error);
        }
        if IsDot(entry.value.name) {
          continue;
        }
        var path := top.path + [entry.value.name];
        var meta := fs.meta(entry.value.id);
        if meta.Err? {
          return Err(meta.error);
        }
        var isDir := meta.value.kind.Dir?;
        var found := WalkEntry(path, entry.value.id, meta.value);
        PrependTwice(emitted, [found], ListEntries(fs, top.path, listing[k + 1..]));
        SubdirectoriesAppend(emitted, [found], top.depth + 1);
        SubdirectoriesOne(found, top.depth + 1);
        out := out + [found];
        emitted := emitted + [found];
        if isDir {
          stack := stack + [Pending(path, entry.value.id, top.depth + 1)];
        }
      }
      assert listing[|listing|..] == [] && emitted + [] == emitted;
      assert Expansion(fs, top.path, top.id) == Ok(emitted);
      PrependTwice(out0, emitted, WalkResult(fs, stack, visited));
    }
    assert stack == [];
    WalkIsDone(fs, out, visited);
    return Ok(out);
  }
}
