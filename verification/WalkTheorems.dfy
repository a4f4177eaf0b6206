/** What a walk visits and emits, over every run: loops, shared directories and the cap included. */
module WalkTheorems {
  import opened Basics
  import opened Locators
  import opened Walks

  // ---- the tree, declaratively ----

  // `dir` lists `name` for `id`. Only `.` and `..` themselves are skipped; a dot-file
  // is an entry like any other.
  ghost predicate Holds(fs: FileSystem, dir: FileId, name: seq<byte>, id: FileId) {
    && name != [46] && name != [46, 46]
    && fs.readDir(dir).Ok?
    && exists kind :: Ok(DirEntry(name, id, kind)) in fs.readDir(dir).value
  }

  ghost predicate IsDir(fs: FileSystem, id: FileId) {
    fs.meta(id).Ok? && fs.meta(id).value.kind.Dir?
  }

  function Up(path: seq<seq<byte>>): seq<seq<byte>>
    requires path != []
  {
    path[..|path| - 1]
  }

  function Last(path: seq<seq<byte>>): seq<byte>
    requires path != []
  {
    path[|path| - 1]
  }

  // `path` leads from the root, directory by directory, to the directory `id`.
  ghost predicate DirAt(fs: FileSystem, path: seq<seq<byte>>, id: FileId)
    decreases |path|
  {
    if path == [] then id == fs.root
    else
      && IsDir(fs, id)
      && exists parent :: DirAt(fs, Up(path), parent) && Holds(fs, parent, Last(path), id)
  }

  ghost predicate ReachableDir(fs: FileSystem, id: FileId) {
    exists path :: DirAt(fs, path, id)
  }

  // Some path to the directory is within the cap, 256.
  ghost predicate NearDir(fs: FileSystem, id: FileId) {
    exists path :: DirAt(fs, path, id) && |path| <= 256
  }

  // ---- one expansion ----

  // An emitted entry names a held, non-dot entry of the expanded directory.
  ghost predicate EntryOf(fs: FileSystem, prefix: seq<seq<byte>>, dir: FileId, e: WalkEntry) {
    && e.path != [] && Up(e.path) == prefix
    && Holds(fs, dir, Last(e.path), e.id)
    && fs.meta(e.id) == Ok(e.meta)
  }

  lemma {:induction false} ListedEntries(fs: FileSystem, prefix: seq<seq<byte>>,
                                         listing: seq<VfsResult<DirEntry>>, e: WalkEntry)
    requires ListEntries(fs, prefix, listing).Ok?
    ensures e in ListEntries(fs, prefix, listing).value <==>
            exists name, id, kind :: Ok(DirEntry(name, id, kind)) in listing && name != [46] && name != [46, 46]
              && fs.meta(id).Ok? && e == WalkEntry(prefix + [name], id, fs.meta(id).value)
  {
    if listing != [] {
      ListedEntries(fs, prefix, listing[1..], e);
      var head := listing[0].value;
      assert head == DirEntry(head.name, head.id, head.kind);
      assert listing == [listing[0]] + listing[1..];
    }
  }

  // What an expansion emits is exactly the directory's held entries.
  lemma ExpansionIsExact(fs: FileSystem, prefix: seq<seq<byte>>, dir: FileId, e: WalkEntry)
    requires Expansion(fs, prefix, dir).Ok?
    ensures e in Expansion(fs, prefix, dir).value <==> EntryOf(fs, prefix, dir, e)
  {
    ListedEntries(fs, prefix, fs.readDir(dir).value, e);
    if EntryOf(fs, prefix, dir, e) {
      assert e.path == prefix + [Last(e.path)];
    }
  }

  lemma {:induction false} SubdirectoryMember(entries: seq<WalkEntry>, depth: nat, p: Pending)
    ensures p in Subdirectories(entries, depth) <==>
            exists e :: e in entries && e.meta.kind.Dir? && p == Pending(e.path, e.id, depth)
  {
    if entries != [] {
      SubdirectoryMember(entries[1..], depth, p);
      assert entries == [entries[0]] + entries[1..];
    }
  }

  // ---- the invariant of a run ----

  // `p` is the root, or was pushed by one of the first `n` expansions.
  ghost predicate Justified(fs: FileSystem, log: seq<Pending>, n: nat, p: Pending) {
    || p == Pending([], fs.root, 0)
    || exists j :: 0 <= j < n && j < |log| && PushedBy(fs, log[j], p)
  }

  ghost predicate PushedBy(fs: FileSystem, parent: Pending, p: Pending) {
    && p.depth == parent.depth + 1
    && p.path != [] && Up(p.path) == parent.path
    && Holds(fs, parent.id, Last(p.path), p.id)
    && IsDir(fs, p.id)
  }

  ghost predicate GoodLog(fs: FileSystem, log: seq<Pending>) {
    && (forall i, j :: 0 <= i < j < |log| ==> log[i].id != log[j].id)
    && (forall i :: 0 <= i < |log| ==> log[i].depth <= 256 && log[i].depth <= i)
    && (forall i :: 0 <= i < |log| ==> Justified(fs, log, i, log[i]))
    && AllExpand(fs, log)
  }

  ghost predicate AllExpand(fs: FileSystem, log: seq<Pending>) {
    forall i :: 0 <= i < |log| ==> Expansion(fs, log[i].path, log[i].id).Ok?
  }

  ghost function Ids(log: seq<Pending>): set<FileId> {
    set p | p in log :: p.id
  }

  // `done` was expanded so far; `stack` and `visited` are the loop's variables.
  ghost predicate GoodState(fs: FileSystem, done: seq<Pending>, stack: seq<Pending>, visited: set<FileId>) {
    && GoodLog(fs, done)
    && visited == Ids(done)
    && (forall p :: p in stack ==> Justified(fs, done, |done|, p) && p.depth <= |done|)
  }

  lemma PushedFromExpansion(fs: FileSystem, top: Pending, p: Pending)
    requires Expansion(fs, top.path, top.id).Ok?
    ensures p in Subdirectories(Expansion(fs, top.path, top.id).value, top.depth + 1) <==> PushedBy(fs, top, p)
  {
    var entries := Expansion(fs, top.path, top.id).value;
    SubdirectoryMember(entries, top.depth + 1, p);
    forall e ensures e in entries <==> EntryOf(fs, top.path, top.id, e) {
      ExpansionIsExact(fs, top.path, top.id, e);
    }
    if PushedBy(fs, top, p) {
      var e := WalkEntry(p.path, p.id, fs.meta(p.id).value);
      assert EntryOf(fs, top.path, top.id, e);
    }
  }

  lemma GoodLogExtends(fs: FileSystem, done: seq<Pending>, top: Pending)
    requires GoodLog(fs, done) && Justified(fs, done, |done|, top)
    requires top.id !in Ids(done) && top.depth <= |done| && top.depth <= 256
    requires Expansion(fs, top.path, top.id).Ok?
    ensures GoodLog(fs, done + [top])
    ensures Ids(done + [top]) == Ids(done) + {top.id}
  {
    hide Justified, Expansion;
    var log := done + [top];
    forall i | 0 <= i < |done| ensures log[i] == done[i] && log[i].id != top.id {
      assert done[i] in done;
    }
    forall i | 0 <= i < |log| ensures Justified(fs, log, i, log[i]) {
      JustifiedLonger(fs, done, top, i, log[i]);
    }
  }

  lemma PushedAreJustified(fs: FileSystem, done: seq<Pending>, top: Pending, below: seq<Pending>)
    requires Expansion(fs, top.path, top.id).Ok? && top.depth <= |done|
    requires forall p :: p in below ==> Justified(fs, done, |done|, p) && p.depth <= |done|
    ensures var log := done + [top];
            forall p :: p in below + Subdirectories(Expansion(fs, top.path, top.id).value, top.depth + 1) ==>
              Justified(fs, log, |log|, p) && p.depth <= |log|
  {
    var log := done + [top];
    var pushed := Subdirectories(Expansion(fs, top.path, top.id).value, top.depth + 1);
    forall p | p in below + pushed
      ensures Justified(fs, log, |log|, p) && p.depth <= |log|
    {
      if p in pushed {
        PushedFromExpansion(fs, top, p);
        assert PushedBy(fs, log[|done|], p);
      } else {
        JustifiedLonger(fs, done, top, |done|, p);
      }
    }
  }

  lemma ExpandKeepsGood(fs: FileSystem, done: seq<Pending>, below: seq<Pending>, top: Pending, visited: set<FileId>)
    requires GoodState(fs, done, below + [top], visited)
    requires top.depth <= 256 && top.id !in visited && Expansion(fs, top.path, top.id).Ok?
    ensures GoodLog(fs, done + [top])
    ensures GoodState(fs, done + [top],
                      below + Subdirectories(Expansion(fs, top.path, top.id).value, top.depth + 1),
                      visited + {top.id})
  {
    hide Justified, Expansion;
    assert forall p :: p in below ==> p in below + [top];
    assert top in below + [top];
    GoodLogExtends(fs, done, top);
    PushedAreJustified(fs, done, top, below);
  }

  lemma JustifiedLonger(fs: FileSystem, done: seq<Pending>, top: Pending, n: nat, p: Pending)
    requires n <= |done| && Justified(fs, done, n, p)
    ensures Justified(fs, done + [top], n, p) && Justified(fs, done + [top], |done| + 1, p)
  {
    if p != Pending([], fs.root, 0) {
      var j :| 0 <= j < n && j < |done| && PushedBy(fs, done[j], p);
      assert PushedBy(fs, (done + [top])[j], p);
    }
  }

  lemma SkipKeepsGood(fs: FileSystem, done: seq<Pending>, below: seq<Pending>, top: Pending, visited: set<FileId>)
    requires GoodState(fs, done, below + [top], visited)
    ensures GoodState(fs, done, below, visited) && GoodLog(fs, done)
  {
    hide Justified, GoodLog;
    assert forall p :: p in below ==> p in below + [top];
  }

  // Every finished run has a good log.
  lemma {:induction false} RunKeepsGood(fs: FileSystem, done: seq<Pending>, stack: seq<Pending>, visited: set<FileId>)
    requires GoodLog(fs, done) && GoodState(fs, done, stack, visited) && WalkLog(fs, stack, visited).Ok?
    ensures GoodLog(fs, done + WalkLog(fs, stack, visited).value)
    decreases (VisitedIsBounded(visited); IDS - |visited|), |stack|
  {
    hide Expansion, GoodLog, GoodState;
    if stack == [] {
      assert done + [] == done;
    } else {
      var top := stack[|stack| - 1];
      var below := stack[..|stack| - 1];
      assert stack == below + [top];
      if top.depth > 256 || top.id in visited {
        SkipKeepsGood(fs, done, below, top, visited);
        RunKeepsGood(fs, done, below, visited);
      } else {
        ExpandKeepsGood(fs, done, below, top, visited);
        VisitedIsBounded(visited + {top.id});
        var entries := Expansion(fs, top.path, top.id).value;
        var stack' := below + Subdirectories(entries, top.depth + 1);
        RunKeepsGood(fs, done + [top], stack', visited + {top.id});
        var rest := WalkLog(fs, stack', visited + {top.id}).value;
        assert done + ([top] + rest) == (done + [top]) + rest;
      }
    }
  }

  lemma LogIsGood(fs: FileSystem)
    requires WalkLog(fs, Start(fs), {}).Ok?
    ensures GoodLog(fs, WalkLog(fs, Start(fs), {}).value)
  {
    RunKeepsGood(fs, [], Start(fs), {});
    var log := WalkLog(fs, Start(fs), {}).value;
    assert [] + log == log;
  }

  // Logged directories sit where their paths say.
  lemma {:induction false} LoggedAreReachable(fs: FileSystem, log: seq<Pending>, i: nat)
    requires GoodLog(fs, log) && i < |log|
    ensures DirAt(fs, log[i].path, log[i].id) && |log[i].path| == log[i].depth
    decreases i
  {
    if log[i] != Pending([], fs.root, 0) {
      var j :| 0 <= j < i && PushedBy(fs, log[j], log[i]);
      LoggedAreReachable(fs, log, j);
    }
  }

  // ---- what a finished run emits ----

  ghost function EmittedBy(fs: FileSystem, log: seq<Pending>): seq<WalkEntry>
    requires Emitted(fs, log).Ok?
  {
    Emitted(fs, log).value
  }

  lemma {:induction false} EmittedSnoc(fs: FileSystem, log: seq<Pending>, top: Pending)
    requires Emitted(fs, log).Ok? && Expansion(fs, top.path, top.id).Ok?
    ensures Emitted(fs, log + [top]) == Ok(EmittedBy(fs, log) + Expansion(fs, top.path, top.id).value)
  {
    hide Expansion;
    if log == [] {
      assert [top][1..] == [] && ([] + [top]) == [top];
      assert Expansion(fs, top.path, top.id).value + [] == [] + Expansion(fs, top.path, top.id).value;
    } else {
      EmittedSnoc(fs, log[1..], top);
      assert (log + [top])[0] == log[0] && (log + [top])[1..] == log[1..] + [top];
      var head := Expansion(fs, log[0].path, log[0].id).value;
      var last := Expansion(fs, top.path, top.id).value;
      assert head + (EmittedBy(fs, log[1..]) + last) == (head + EmittedBy(fs, log[1..])) + last;
    }
  }

  lemma ChunkIsExact(fs: FileSystem, p: Pending)
    requires Expansion(fs, p.path, p.id).Ok?
    ensures forall e :: e in Expansion(fs, p.path, p.id).value <==> EntryOf(fs, p.path, p.id, e)
  {
    forall e ensures e in Expansion(fs, p.path, p.id).value <==> EntryOf(fs, p.path, p.id, e) {
      ExpansionIsExact(fs, p.path, p.id, e);
    }
  }

  // What the first `n` expansions emit: exactly the entries of those directories.
  lemma {:induction false} PrefixEmits(fs: FileSystem, log: seq<Pending>, n: nat)
    requires AllExpand(fs, log) && n <= |log|
    ensures Emitted(fs, log[..n]).Ok?
    ensures forall e :: e in EmittedBy(fs, log[..n]) <==>
              exists i :: 0 <= i < n && EntryOf(fs, log[i].path, log[i].id, e)
  {
    hide Expansion, EntryOf;
    if n > 0 {
      PrefixEmits(fs, log, n - 1);
      var top := log[n - 1];
      assert log[..n] == log[..n - 1] + [top];
      EmittedSnoc(fs, log[..n - 1], top);
      ChunkIsExact(fs, top);
    }
  }

  // An entry that hangs, under its own name, off a directory its path reaches.
  ghost predicate RealEntry(fs: FileSystem, e: WalkEntry) {
    && 1 <= |e.path| <= 257
    && fs.meta(e.id) == Ok(e.meta)
    && exists dir :: DirAt(fs, Up(e.path), dir) && Holds(fs, dir, Last(e.path), e.id)
  }

  lemma LoggedEntryIsReal(fs: FileSystem, log: seq<Pending>, i: nat, e: WalkEntry)
    requires GoodLog(fs, log) && i < |log| && EntryOf(fs, log[i].path, log[i].id, e)
    ensures RealEntry(fs, e)
  {
    LoggedAreReachable(fs, log, i);
  }

  // Soundness: every emitted entry is real, and no path is longer than the cap plus one.
  lemma EntriesAreReal(fs: FileSystem, out: seq<WalkEntry>)
    requires WalkResult(fs, Start(fs), {}) == Ok(out)
    ensures forall e :: e in out ==> RealEntry(fs, e)
  {
    hide GoodLog, EntryOf, RealEntry;
    LogIsGood(fs);
    var log := WalkLog(fs, Start(fs), {}).value;
    GoodLogExpands(fs, log);
    PrefixEmits(fs, log, |log|);
    assert log[..|log|] == log && EmittedBy(fs, log) == out;
    forall e | e in out ensures RealEntry(fs, e) {
      var i :| 0 <= i < |log| && EntryOf(fs, log[i].path, log[i].id, e);
      LoggedEntryIsReal(fs, log, i, e);
    }
  }

  lemma GoodLogExpands(fs: FileSystem, log: seq<Pending>)
    requires GoodLog(fs, log)
    ensures AllExpand(fs, log)
  {
  }

  // ---- parents come first ----

  ghost predicate ParentsFirst(fs: FileSystem, out: seq<WalkEntry>) {
    forall b :: 0 <= b < |out| && |out[b].path| > 1 ==> HasEarlierParent(fs, out, b)
  }

  ghost predicate HasEarlierParent(fs: FileSystem, out: seq<WalkEntry>, b: nat)
    requires b < |out| && |out[b].path| > 1
  {
    exists a :: 0 <= a < b && out[a].path == Up(out[b].path) && out[a].meta.kind.Dir?
                && Holds(fs, out[a].id, Last(out[b].path), out[b].id)
  }

  lemma {:induction false} PrefixParentsFirst(fs: FileSystem, log: seq<Pending>, n: nat)
    requires GoodLog(fs, log) && n <= |log|
    ensures Emitted(fs, log[..n]).Ok? && ParentsFirst(fs, EmittedBy(fs, log[..n]))
  {
    hide GoodLog, Expansion, EntryOf, HasEarlierParent;
    GoodLogExpands(fs, log);
    PrefixEmits(fs, log, n);
    if n > 0 {
      PrefixParentsFirst(fs, log, n - 1);
      var top := log[n - 1];
      assert log[..n] == log[..n - 1] + [top];
      EmittedSnoc(fs, log[..n - 1], top);
      var before, chunk := EmittedBy(fs, log[..n - 1]), Expansion(fs, top.path, top.id).value;
      var out := before + chunk;
      forall b | 0 <= b < |out| && |out[b].path| > 1 ensures HasEarlierParent(fs, out, b) {
        if b < |before| {
          EarlierParentStays(fs, before, chunk, b);
        } else {
          ChunkHasEarlierParent(fs, log, n - 1, before, chunk, b);
        }
      }
    }
  }

  lemma EarlierParentStays(fs: FileSystem, before: seq<WalkEntry>, chunk: seq<WalkEntry>, b: nat)
    requires b < |before| && |before[b].path| > 1 && HasEarlierParent(fs, before, b)
    ensures HasEarlierParent(fs, before + chunk, b)
  {
    var out := before + chunk;
    assert out[b] == before[b];
    var a :| 0 <= a < b && before[a].path == Up(before[b].path) && before[a].meta.kind.Dir?
             && Holds(fs, before[a].id, Last(before[b].path), before[b].id);
    assert out[a] == before[a];
  }

  lemma ChunkHasEarlierParent(fs: FileSystem, log: seq<Pending>, i: nat, before: seq<WalkEntry>,
                              chunk: seq<WalkEntry>, b: nat)
    requires GoodLog(fs, log) && i < |log| && Emitted(fs, log[..i]) == Ok(before)
    requires Expansion(fs, log[i].path, log[i].id) == Ok(chunk)
    requires |before| <= b < |before + chunk| && |(before + chunk)[b].path| > 1
    ensures HasEarlierParent(fs, before + chunk, b)
  {
    var out := before + chunk;
    assert out[b] == chunk[b - |before|];
    ExpansionIsExact(fs, log[i].path, log[i].id, out[b]);
    var e := ParentEntry(fs, log, i);
    var a :| 0 <= a < |before| && before[a] == e;
    assert out[a] == e;
  }

  // A logged directory below the root was itself emitted by an earlier expansion.
  lemma ParentEntry(fs: FileSystem, log: seq<Pending>, i: nat) returns (e: WalkEntry)
    requires GoodLog(fs, log) && i < |log| && log[i].path != []
    requires Emitted(fs, log[..i]).Ok?
    ensures e.path == log[i].path && e.id == log[i].id && e.meta.kind.Dir?
    ensures e in EmittedBy(fs, log[..i])
  {
    PrefixEmits(fs, log, i);
    var j :| 0 <= j < i && PushedBy(fs, log[j], log[i]);
    e := WalkEntry(log[i].path, log[i].id, fs.meta(log[i].id).value);
    assert EntryOf(fs, log[j].path, log[j].id, e);
  }

  // Every entry of length above one follows the entry for its parent path.
  lemma ParentsComeFirst(fs: FileSystem, out: seq<WalkEntry>)
    requires WalkResult(fs, Start(fs), {}) == Ok(out)
    ensures ParentsFirst(fs, out)
  {
    LogIsGood(fs);
    var log := WalkLog(fs, Start(fs), {}).value;
    assert log[..|log|] == log;
    PrefixParentsFirst(fs, log, |log|);
  }

  // ---- distinct paths ----

  // No listing repeats a name.
  ghost predicate NamesDistinct(fs: FileSystem) {
    forall d :: fs.readDir(d).Ok? ==> DistinctNames(fs.readDir(d).value)
  }

  ghost predicate DistinctNames(listing: seq<VfsResult<DirEntry>>) {
    forall i, j :: 0 <= i < j < |listing| && listing[i].Ok? && listing[j].Ok? ==>
      listing[i].value.name != listing[j].value.name
  }

  ghost predicate DistinctPaths(out: seq<WalkEntry>) {
    forall a, b :: 0 <= a < b < |out| ==> out[a].path != out[b].path
  }

  lemma {:induction false} ListedAreDistinct(fs: FileSystem, prefix: seq<seq<byte>>, listing: seq<VfsResult<DirEntry>>)
    requires DistinctNames(listing) && ListEntries(fs, prefix, listing).Ok?
    ensures DistinctPaths(ListEntries(fs, prefix, listing).value)
  {
    if listing != [] {
      var tail := listing[1..];
      assert forall i :: 0 <= i < |tail| ==> tail[i] == listing[i + 1];
      ListedAreDistinct(fs, prefix, tail);
      var later := ListEntries(fs, prefix, tail).value;
      var head := listing[0].value;
      forall e | e in later ensures e.path != prefix + [head.name] {
        ListedEntries(fs, prefix, tail, e);
        var name, id, kind :| Ok(DirEntry(name, id, kind)) in tail && e.path == prefix + [name];
        assert (prefix + [name])[|prefix|] == name && (prefix + [head.name])[|prefix|] == head.name;
      }
    }
  }

  // With distinct names a path leads to at most one id.
  lemma {:induction false} PathsAreDeterministic(fs: FileSystem, path: seq<seq<byte>>, a: FileId, b: FileId)
    requires NamesDistinct(fs) && DirAt(fs, path, a) && DirAt(fs, path, b)
    ensures a == b
    decreases |path|
  {
    if path != [] {
      var p :| DirAt(fs, Up(path), p) && Holds(fs, p, Last(path), a);
      var q :| DirAt(fs, Up(path), q) && Holds(fs, q, Last(path), b);
      PathsAreDeterministic(fs, Up(path), p, q);
    }
  }

  lemma DistinctTogether(before: seq<WalkEntry>, chunk: seq<WalkEntry>)
    requires DistinctPaths(before) && DistinctPaths(chunk)
    requires forall e, f :: e in before && f in chunk ==> e.path != f.path
    ensures DistinctPaths(before + chunk)
  {
    var out := before + chunk;
    forall a, b | 0 <= a < b < |out| ensures out[a].path != out[b].path {
      if b < |before| {
      } else if a >= |before| {
        assert out[a] == chunk[a - |before|] && out[b] == chunk[b - |before|];
      } else {
        assert out[a] in before && out[b] in chunk;
      }
    }
  }

  lemma {:induction false} PrefixDistinct(fs: FileSystem, log: seq<Pending>, n: nat)
    requires NamesDistinct(fs) && GoodLog(fs, log) && n <= |log|
    ensures Emitted(fs, log[..n]).Ok? && DistinctPaths(EmittedBy(fs, log[..n]))
  {
    hide GoodLog, EntryOf, NamesDistinct, DistinctPaths;
    GoodLogExpands(fs, log);
    PrefixEmits(fs, log, n);
    if n == 0 {
      NothingIsDistinct();
    } else {
      PrefixDistinct(fs, log, n - 1);
      var top := log[n - 1];
      assert log[..n] == log[..n - 1] + [top];
      EmittedSnoc(fs, log[..n - 1], top);
      ExpansionIsDistinct(fs, top);
      var before, chunk := EmittedBy(fs, log[..n - 1]), Expansion(fs, top.path, top.id).value;
      forall e, f | e in before && f in chunk ensures e.path != f.path {
        ChunksDoNotMeet(fs, log, n - 1, e, f);
      }
      DistinctTogether(before, chunk);
    }
  }

  lemma NothingIsDistinct()
    ensures DistinctPaths([])
  {
  }

  lemma ExpansionIsDistinct(fs: FileSystem, top: Pending)
    requires NamesDistinct(fs) && Expansion(fs, top.path, top.id).Ok?
    ensures DistinctPaths(Expansion(fs, top.path, top.id).value)
  {
    ListedAreDistinct(fs, top.path, fs.readDir(top.id).value);
  }

  // Different expansions emit under different directories.
  lemma ChunksDoNotMeet(fs: FileSystem, log: seq<Pending>, n: nat, e: WalkEntry, f: WalkEntry)
    requires NamesDistinct(fs) && GoodLog(fs, log) && n < |log|
    requires Emitted(fs, log[..n]).Ok? && e in EmittedBy(fs, log[..n])
    requires f in Expansion(fs, log[n].path, log[n].id).value
    ensures e.path != f.path
  {
    PrefixEmits(fs, log, n);
    ExpansionIsExact(fs, log[n].path, log[n].id, f);
    var i :| 0 <= i < n && EntryOf(fs, log[i].path, log[i].id, e);
    if e.path == f.path {
      LoggedAreReachable(fs, log, i);
      LoggedAreReachable(fs, log, n);
      PathsAreDeterministic(fs, log[i].path, log[i].id, log[n].id);
    }
  }

  // Paths are pairwise distinct whenever each listing's names are.
  lemma PathsAreDistinct(fs: FileSystem, out: seq<WalkEntry>)
    requires NamesDistinct(fs) && WalkResult(fs, Start(fs), {}) == Ok(out)
    ensures DistinctPaths(out)
  {
    LogIsGood(fs);
    var log := WalkLog(fs, Start(fs), {}).value;
    assert log[..|log|] == log && EmittedBy(fs, log) == out;
    PrefixDistinct(fs, log, |log|);
  }

  // ---- failures ----

  // Reading `dir` fails with `e`: its listing, an entry of it, or the metadata of
  // an entry that is not a dot.
  ghost predicate ListingRaises(fs: FileSystem, dir: FileId, e: Error) {
    match fs.readDir(dir)
    case Err(raised) => raised == e
    case Ok(listing) =>
      || Err(e) in listing
      || exists name, id, kind :: Ok(DirEntry(name, id, kind)) in listing && name != [46] && name != [46, 46]
                                  && fs.meta(id) == Err(e)
  }

  lemma {:induction false} FailedListing(fs: FileSystem, prefix: seq<seq<byte>>, listing: seq<VfsResult<DirEntry>>)
    ensures match ListEntries(fs, prefix, listing)
            case Err(e) =>
              || Err(e) in listing
              || exists name, id, kind :: Ok(DirEntry(name, id, kind)) in listing && name != [46] && name != [46, 46]
                                          && fs.meta(id) == Err(e)
            case Ok(_) =>
              && (forall x :: x in listing ==> x.Ok?)
              && forall name, id, kind :: Ok(DirEntry(name, id, kind)) in listing ==>
                   name == [46] || name == [46, 46] || fs.meta(id).Ok?
  {
    if listing != [] {
      FailedListing(fs, prefix, listing[1..]);
      assert listing == [listing[0]] + listing[1..];
      if listing[0].Ok? {
        var head := listing[0].value;
        assert head == DirEntry(head.name, head.id, head.kind);
      }
    }
  }

  lemma ExpansionFailsExactly(fs: FileSystem, prefix: seq<seq<byte>>, dir: FileId)
    ensures Expansion(fs, prefix, dir).Err? ==> ListingRaises(fs, dir, Expansion(fs, prefix, dir).error)
    ensures Expansion(fs, prefix, dir).Ok? ==> forall e :: !ListingRaises(fs, dir, e)
  {
    if fs.readDir(dir).Ok? {
      FailedListing(fs, prefix, fs.readDir(dir).value);
    }
  }

  lemma JustifiedIsReachable(fs: FileSystem, done: seq<Pending>, p: Pending)
    requires GoodLog(fs, done) && Justified(fs, done, |done|, p)
    ensures DirAt(fs, p.path, p.id) && |p.path| == p.depth
  {
    if p != Pending([], fs.root, 0) {
      var j :| 0 <= j < |done| && PushedBy(fs, done[j], p);
      LoggedAreReachable(fs, done, j);
    }
  }

  lemma {:induction false} FailedRun(fs: FileSystem, done: seq<Pending>, stack: seq<Pending>, visited: set<FileId>)
    returns (dir: FileId)
    requires GoodLog(fs, done) && GoodState(fs, done, stack, visited) && WalkLog(fs, stack, visited).Err?
    ensures NearDir(fs, dir) && ListingRaises(fs, dir, WalkLog(fs, stack, visited).error)
    decreases (VisitedIsBounded(visited); IDS - |visited|), |stack|
  {
    hide Expansion, GoodLog, GoodState, ListingRaises, NearDir;
    var top := stack[|stack| - 1];
    var below := stack[..|stack| - 1];
    assert stack == below + [top];
    if top.depth > 256 || top.id in visited {
      SkipKeepsGood(fs, done, below, top, visited);
      dir := FailedRun(fs, done, below, visited);
    } else if Expansion(fs, top.path, top.id).Err? {
      dir := top.id;
      ExpansionFailsExactly(fs, top.path, top.id);
      WaitingIsNear(fs, done, stack, visited, top);
    } else {
      ExpandKeepsGood(fs, done, below, top, visited);
      VisitedIsBounded(visited + {top.id});
      var stack' := below + Subdirectories(Expansion(fs, top.path, top.id).value, top.depth + 1);
      dir := FailedRun(fs, done + [top], stack', visited + {top.id});
    }
  }

  lemma WaitingIsNear(fs: FileSystem, done: seq<Pending>, stack: seq<Pending>, visited: set<FileId>, p: Pending)
    requires GoodState(fs, done, stack, visited) && p in stack && p.depth <= 256
    ensures NearDir(fs, p.id)
  {
    hide GoodLog, Justified;
    JustifiedIsReachable(fs, done, p);
  }

  // An error is never invented: a directory that some path within the cap leads to
  // raised it.
  lemma FailuresAreReal(fs: FileSystem, e: Error)
    returns (dir: FileId)
    requires WalkResult(fs, Start(fs), {}) == Err(e)
    ensures NearDir(fs, dir) && ListingRaises(fs, dir, e)
  {
    hide GoodLog, NearDir, ListingRaises;
    FinishedRunsEmit(fs);
    NothingIsGood(fs);
    dir := FailedRun(fs, [], Start(fs), {});
  }

  lemma FinishedRunsEmit(fs: FileSystem)
    ensures WalkLog(fs, Start(fs), {}).Ok? ==> WalkResult(fs, Start(fs), {}).Ok?
  {
    if WalkLog(fs, Start(fs), {}).Ok? {
      LogIsGood(fs);
      var log := WalkLog(fs, Start(fs), {}).value;
      GoodLogExpands(fs, log);
      PrefixEmits(fs, log, |log|);
      assert log[..|log|] == log;
    }
  }

  lemma NothingIsGood(fs: FileSystem)
    ensures GoodLog(fs, []) && GoodState(fs, [], Start(fs), {})
  {
    assert Ids([]) == {};
  }

  // ---- order ----

  // How many entries of a listing are not dots.
  function Kept(listing: seq<VfsResult<DirEntry>>): nat {
    if listing == [] then 0
    else (if listing[0].Ok? && (listing[0].value.name == [46] || listing[0].value.name == [46, 46]) then 0 else 1)
         + Kept(listing[1..])
  }

  // `out[a]` is what entry `i` of the listing is emitted as.
  ghost predicate EmittedAt(fs: FileSystem, prefix: seq<seq<byte>>, listing: seq<VfsResult<DirEntry>>,
                            out: seq<WalkEntry>, i: nat, a: nat)
  {
    && i < |listing| && a < |out| && listing[i].Ok?
    && out[a].path == prefix + [listing[i].value.name] && out[a].id == listing[i].value.id
    && fs.meta(out[a].id) == Ok(out[a].meta)
  }

  // Nothing but dots is left out, nothing is emitted twice, and of two entries of one
  // listing the earlier is emitted earlier.
  lemma {:induction false} ListingOrder(fs: FileSystem, prefix: seq<seq<byte>>, listing: seq<VfsResult<DirEntry>>,
                                        i: nat, j: nat)
    returns (a: nat, b: nat)
    requires ListEntries(fs, prefix, listing).Ok? && i <= j < |listing|
    requires listing[i].Ok? && listing[i].value.name != [46] && listing[i].value.name != [46, 46]
    requires listing[j].Ok? && listing[j].value.name != [46] && listing[j].value.name != [46, 46]
    ensures var out := ListEntries(fs, prefix, listing).value;
            && |out| == Kept(listing)
            && EmittedAt(fs, prefix, listing, out, i, a) && EmittedAt(fs, prefix, listing, out, j, b)
            && (i < j ==> a < b)
  {
    ListingCount(fs, prefix, listing);
    if j == 0 {
      a, b := 0, 0;
    } else {
      var x, y := ListingOrder(fs, prefix, listing[1..], if i == 0 then j - 1 else i - 1, j - 1);
      var skip := if IsDot(listing[0].value.name) then 0 else 1;
      a, b := if i == 0 then 0 else x + skip, y + skip;
    }
  }

  lemma {:induction false} ListingCount(fs: FileSystem, prefix: seq<seq<byte>>, listing: seq<VfsResult<DirEntry>>)
    requires ListEntries(fs, prefix, listing).Ok?
    ensures |ListEntries(fs, prefix, listing).value| == Kept(listing)
  {
    if listing != [] {
      ListingCount(fs, prefix, listing[1..]);
    }
  }

  // Entry `i` is the last directory among the entries that has not been expanded.
  ghost predicate LastFresh(entries: seq<WalkEntry>, visited: set<FileId>, i: nat) {
    && i < |entries| && entries[i].meta.kind.Dir? && entries[i].id !in visited
    && forall j :: i < j < |entries| && entries[j].meta.kind.Dir? ==> entries[j].id in visited
  }

  lemma {:induction false} LastFreshIsNext(fs: FileSystem, below: seq<Pending>, entries: seq<WalkEntry>, depth: nat,
                                           visited: set<FileId>, i: nat)
    requires LastFresh(entries, visited, i) && depth <= 256
    requires WalkLog(fs, below + Subdirectories(entries, depth), visited).Ok?
    ensures var log := WalkLog(fs, below + Subdirectories(entries, depth), visited).value;
            log != [] && log[0] == Pending(entries[i].path, entries[i].id, depth)
    decreases |entries|
  {
    hide Expansion, Subdirectories;
    var front, last := entries[..|entries| - 1], entries[|entries| - 1];
    assert entries == front + [last];
    SubdirectoriesAppend(front, [last], depth);
    SubdirectoriesOne(last, depth);
    var stack := below + Subdirectories(entries, depth);
    if last.meta.kind.Dir? {
      var top := Pending(last.path, last.id, depth);
      assert stack == (below + Subdirectories(front, depth)) + [top];
      assert stack[..|stack| - 1] == below + Subdirectories(front, depth);
    } else {
      assert stack == below + Subdirectories(front, depth);
    }
    if i < |front| {
      assert LastFresh(front, visited, i);
      LastFreshIsNext(fs, below, front, depth, visited, i);
    }
  }

  // After the k-th directory the walk expands the last of the subdirectories it lists
  // that has not been expanded yet, if there is one within the cap.
  ghost predicate GoesDown(fs: FileSystem, log: seq<Pending>, k: nat)
    requires k < |log|
  {
    var entries := Expansion(fs, log[k].path, log[k].id);
    entries.Ok? && log[k].depth < 256 ==>
      forall i: nat :: LastFresh(entries.value, Ids(log[..k + 1]), i) ==>
        k + 1 < |log| && log[k + 1] == Pending(entries.value[i].path, entries.value[i].id, log[k].depth + 1)
  }

  lemma {:induction false} RunGoesDown(fs: FileSystem, done: seq<Pending>, stack: seq<Pending>, k: nat)
    requires WalkLog(fs, stack, Ids(done)).Ok?
    requires |done| <= k < |done| + |WalkLog(fs, stack, Ids(done)).value|
    ensures GoesDown(fs, done + WalkLog(fs, stack, Ids(done)).value, k)
    decreases (VisitedIsBounded(Ids(done)); IDS - |Ids(done)|), |stack|
  {
    hide Expansion, Ids, GoesDown, Subdirectories;
    var top := stack[|stack| - 1];
    var below := stack[..|stack| - 1];
    if top.depth > 256 || top.id in Ids(done) {
      RunGoesDown(fs, done, below, k);
    } else {
      var entries := Expansion(fs, top.path, top.id).value;
      var stack' := below + Subdirectories(entries, top.depth + 1);
      IdsGrow(done, top);
      VisitedIsBounded(Ids(done) + {top.id});
      var rest := WalkLog(fs, stack', Ids(done + [top])).value;
      var log := done + ([top] + rest);
      assert log == (done + [top]) + rest;
      if k == |done| {
        TopGoesDown(fs, done, top, below, rest);
      } else {
        RunGoesDown(fs, done + [top], stack', k);
      }
    }
  }

  lemma IdsGrow(done: seq<Pending>, top: Pending)
    ensures Ids(done + [top]) == Ids(done) + {top.id}
  {
    assert forall p :: p in done + [top] <==> p in done || p == top;
  }

  lemma TopGoesDown(fs: FileSystem, done: seq<Pending>, top: Pending, below: seq<Pending>, rest: seq<Pending>)
    requires Expansion(fs, top.path, top.id).Ok?
    requires WalkLog(fs, below + Subdirectories(Expansion(fs, top.path, top.id).value, top.depth + 1),
                     Ids(done + [top])) == Ok(rest)
    ensures GoesDown(fs, (done + [top]) + rest, |done|)
  {
    hide Expansion, Ids, Subdirectories, WalkLog;
    var log := (done + [top]) + rest;
    var entries := Expansion(fs, top.path, top.id).value;
    assert log[..|done| + 1] == done + [top] && log[|done|] == top;
    forall i: nat | top.depth < 256 && LastFresh(entries, Ids(log[..|done| + 1]), i)
      ensures |done| + 1 < |log| && log[|done| + 1] == Pending(entries[i].path, entries[i].id, top.depth + 1)
    {
      LastFreshIsNext(fs, below, entries, top.depth + 1, Ids(done + [top]), i);
    }
  }

  // The order of a finished walk: depth first, the last subdirectory of a listing first.
  lemma WalkGoesDown(fs: FileSystem, k: nat)
    requires WalkLog(fs, Start(fs), {}).Ok? && k < |WalkLog(fs, Start(fs), {}).value|
    ensures GoesDown(fs, WalkLog(fs, Start(fs), {}).value, k)
  {
    hide GoesDown, WalkLog;
    assert Ids([]) == {};
    RunGoesDown(fs, [], Start(fs), k);
    var log := WalkLog(fs, Start(fs), {}).value;
    assert [] + log == log;
  }
}
