/**
 What the walk reaches in spite of its depth cap: how to tell a complete answer,
 which filesystems always get one, and why the bounds are tight.
 */
module WalkCompleteness {
  import opened Basics
  import opened Locators
  import opened Walks
  import opened WalkTheorems

  // ---- what every finished run leaves ----

  // The waiting items that are within the cap.
  ghost function NearIds(stack: seq<Pending>): set<FileId> {
    set p | p in stack && p.depth <= 256 :: p.id
  }

  // Whatever an expanded directory pushed within the cap was expanded or waits.
  ghost predicate Covered(fs: FileSystem, done: seq<Pending>, waiting: set<FileId>) {
    && (fs.root in Ids(done) || fs.root in waiting)
    && forall i, p :: 0 <= i < |done| && PushedBy(fs, done[i], p) && p.depth <= 256
                      ==> p.id in Ids(done) || p.id in waiting
  }

  lemma IdsMember(log: seq<Pending>, id: FileId)
    ensures id in Ids(log) <==> exists i :: 0 <= i < |log| && log[i].id == id
  {
    if id in Ids(log) {
      var p :| p in log && p.id == id;
      var i :| 0 <= i < |log| && log[i] == p;
    }
  }

  lemma IdsSnoc(done: seq<Pending>, top: Pending)
    ensures Ids(done + [top]) == Ids(done) + {top.id}
  {
    assert forall p :: p in done + [top] <==> p in done || p == top;
  }

  lemma NearIdsAppend(a: seq<Pending>, b: seq<Pending>)
    ensures NearIds(a + b) == NearIds(a) + NearIds(b)
  {
    assert forall p :: p in a + b <==> p in a || p in b;
  }

  lemma SkipKeepsCovered(fs: FileSystem, done: seq<Pending>, below: seq<Pending>, top: Pending)
    requires Covered(fs, done, NearIds(below + [top]))
    requires top.depth > 256 || top.id in Ids(done)
    ensures Covered(fs, done, NearIds(below))
  {
    hide PushedBy;
    NearIdsAppend(below, [top]);
    assert NearIds([top]) <= {top.id};
    assert top.depth > 256 ==> NearIds([top]) == {};
  }

  lemma ExpandKeepsCovered(fs: FileSystem, done: seq<Pending>, below: seq<Pending>, top: Pending)
    requires Covered(fs, done, NearIds(below + [top])) && Expansion(fs, top.path, top.id).Ok?
    ensures Covered(fs, done + [top],
                    NearIds(below + Subdirectories(Expansion(fs, top.path, top.id).value, top.depth + 1)))
  {
    var pushed := Subdirectories(Expansion(fs, top.path, top.id).value, top.depth + 1);
    var log := done + [top];
    IdsSnoc(done, top);
    NearIdsAppend(below, [top]);
    NearIdsAppend(below, pushed);
    assert NearIds([top]) <= {top.id};
    forall i, p | 0 <= i < |log| && PushedBy(fs, log[i], p) && p.depth <= 256
      ensures p.id in Ids(log) || p.id in NearIds(below + pushed)
    {
      if i < |done| {
        assert PushedBy(fs, done[i], p);
      } else {
        PushedFromExpansion(fs, top, p);
        assert p in pushed;
      }
    }
  }

  lemma {:induction false} RunKeepsCovered(fs: FileSystem, done: seq<Pending>, stack: seq<Pending>)
    requires Covered(fs, done, NearIds(stack)) && WalkLog(fs, stack, Ids(done)).Ok?
    ensures Covered(fs, done + WalkLog(fs, stack, Ids(done)).value, {})
    decreases (VisitedIsBounded(Ids(done)); IDS - |Ids(done)|), |stack|
  {
    hide Expansion, Ids, Covered, Subdirectories;
    if stack == [] {
      assert done + [] == done && NearIds(stack) == {};
    } else {
      var top := stack[|stack| - 1];
      var below := stack[..|stack| - 1];
      assert stack == below + [top];
      if top.depth > 256 || top.id in Ids(done) {
        SkipKeepsCovered(fs, done, below, top);
        RunKeepsCovered(fs, done, below);
      } else {
        ExpandKeepsCovered(fs, done, below, top);
        IdsSnoc(done, top);
        VisitedIsBounded(Ids(done) + {top.id});
        var stack' := below + Subdirectories(Expansion(fs, top.path, top.id).value, top.depth + 1);
        RunKeepsCovered(fs, done + [top], stack');
        var rest := WalkLog(fs, stack', Ids(done + [top])).value;
        assert done + ([top] + rest) == (done + [top]) + rest;
      }
    }
  }

  lemma LogIsCovered(fs: FileSystem)
    requires WalkLog(fs, Start(fs), {}).Ok?
    ensures Covered(fs, WalkLog(fs, Start(fs), {}).value, {})
  {
    assert Ids([]) == {} && NearIds(Start(fs)) == {fs.root};
    RunKeepsCovered(fs, [], Start(fs));
    var log := WalkLog(fs, Start(fs), {}).value;
    assert [] + log == log;
  }

  // ---- completeness ----

  // The log names every directory that is reachable from the root, each once.
  ghost predicate OncePerReachableDir(fs: FileSystem, log: seq<Pending>) {
    && (forall i, j :: 0 <= i < j < |log| ==> log[i].id != log[j].id)
    && forall id :: id in Ids(log) <==> ReachableDir(fs, id)
  }

  lemma GoodLogIsDistinct(fs: FileSystem, log: seq<Pending>)
    requires GoodLog(fs, log)
    ensures forall i, j :: 0 <= i < j < |log| ==> log[i].id != log[j].id
  {
  }

  lemma LoggedIsNear(fs: FileSystem, log: seq<Pending>, id: FileId)
    requires GoodLog(fs, log) && id in Ids(log)
    ensures NearDir(fs, id)
  {
    IdsMember(log, id);
    var i :| 0 <= i < |log| && log[i].id == id;
    LoggedAreReachable(fs, log, i);
  }

  // On any graph, every expanded directory has a path within the cap.
  lemma ExpandedAreNear(fs: FileSystem)
    requires WalkLog(fs, Start(fs), {}).Ok?
    ensures forall id :: id in Ids(WalkLog(fs, Start(fs), {}).value) ==> NearDir(fs, id)
  {
    hide GoodLog, NearDir;
    LogIsGood(fs);
    forall id | id in Ids(WalkLog(fs, Start(fs), {}).value) ensures NearDir(fs, id) {
      LoggedIsNear(fs, WalkLog(fs, Start(fs), {}).value, id);
    }
  }

  // Nothing the log's directories hold is missing from it.
  ghost predicate ClosedLog(fs: FileSystem, log: seq<Pending>) {
    forall i, p :: 0 <= i < |log| && PushedBy(fs, log[i], p) ==> p.id in Ids(log)
  }

  lemma {:induction false} ReachableIsLogged(fs: FileSystem, log: seq<Pending>, path: seq<seq<byte>>, id: FileId)
    requires fs.root in Ids(log) && ClosedLog(fs, log) && DirAt(fs, path, id)
    ensures id in Ids(log)
    decreases |path|
  {
    if path != [] {
      var parent :| DirAt(fs, Up(path), parent) && Holds(fs, parent, Last(path), id);
      ReachableIsLogged(fs, log, Up(path), parent);
      var i, p := HeldIsPushed(fs, log, parent, Last(path), id);
    }
  }

  // A directory held by an expanded one was pushed by it.
  lemma HeldIsPushed(fs: FileSystem, log: seq<Pending>, parent: FileId, name: seq<byte>, id: FileId)
    returns (i: nat, p: Pending)
    requires parent in Ids(log) && Holds(fs, parent, name, id) && IsDir(fs, id)
    ensures i < |log| && log[i].id == parent && PushedBy(fs, log[i], p) && p.id == id
  {
    IdsMember(log, parent);
    i :| 0 <= i < |log| && log[i].id == parent;
    p := Pending(log[i].path + [name], id, log[i].depth + 1);
    assert Up(p.path) == log[i].path && Last(p.path) == name;
  }

  lemma ClosedIsComplete(fs: FileSystem, log: seq<Pending>)
    requires GoodLog(fs, log) && Covered(fs, log, {}) && ClosedLog(fs, log)
    ensures OncePerReachableDir(fs, log)
  {
    hide GoodLog, ClosedLog, DirAt, Ids;
    GoodLogIsDistinct(fs, log);
    forall id | id in Ids(log) ensures ReachableDir(fs, id) {
      LoggedIsNear(fs, log, id);
    }
    forall id, path | DirAt(fs, path, id) ensures id in Ids(log) {
      ReachableIsLogged(fs, log, path, id);
    }
  }

  lemma CompleteIsClosed(fs: FileSystem, log: seq<Pending>)
    requires GoodLog(fs, log) && OncePerReachableDir(fs, log)
    ensures ClosedLog(fs, log)
  {
    hide GoodLog, Ids;
    forall i, p | 0 <= i < |log| && PushedBy(fs, log[i], p) ensures p.id in Ids(log) {
      LoggedAreReachable(fs, log, i);
      assert DirAt(fs, p.path, p.id);
      assert ReachableDir(fs, p.id);
    }
  }

  // A finished run is complete exactly when its log is closed.
  lemma CompleteExactlyWhenClosed(fs: FileSystem, log: seq<Pending>)
    requires GoodLog(fs, log) && Covered(fs, log, {})
    ensures OncePerReachableDir(fs, log) <==> ClosedLog(fs, log)
  {
    hide GoodLog, Covered, OncePerReachableDir, ClosedLog;
    if ClosedLog(fs, log) {
      ClosedIsComplete(fs, log);
    }
    if OncePerReachableDir(fs, log) {
      CompleteIsClosed(fs, log);
    }
  }

  // ---- telling a complete answer ----

  // The directory is the root, or emitted at a path within the cap.
  ghost predicate SeenWithinCap(fs: FileSystem, out: seq<WalkEntry>, id: FileId) {
    id == fs.root || exists e :: e in out && e.id == id && e.meta.kind.Dir? && |e.path| <= 256
  }

  // Every directory emitted at a path beyond the cap is also seen within it.
  ghost predicate CapHidesNothing(fs: FileSystem, out: seq<WalkEntry>) {
    forall e :: e in out && e.meta.kind.Dir? && |e.path| > 256 ==> SeenWithinCap(fs, out, e.id)
  }

  // `out` is exactly what the directories of `log` hold.
  ghost predicate Emits(fs: FileSystem, log: seq<Pending>, out: seq<WalkEntry>) {
    forall e :: e in out <==> exists i :: 0 <= i < |log| && EntryOf(fs, log[i].path, log[i].id, e)
  }

  // The directories the output shows within the cap are exactly the expanded ones.
  lemma SeenIsLogged(fs: FileSystem, log: seq<Pending>, out: seq<WalkEntry>, id: FileId)
    requires GoodLog(fs, log) && Covered(fs, log, {})
    requires Emits(fs, log, out)
    ensures SeenWithinCap(fs, out, id) <==> id in Ids(log)
  {
    hide Emits, GoodLog, PushedBy;
    if id in Ids(log) {
      LoggedIsSeen(fs, log, out, id);
    }
    if id != fs.root && SeenWithinCap(fs, out, id) {
      var e :| e in out && e.id == id && e.meta.kind.Dir? && |e.path| <= 256;
      var p := EmittedIsPushed(fs, log, out, e);
    }
  }

  lemma LoggedIsSeen(fs: FileSystem, log: seq<Pending>, out: seq<WalkEntry>, id: FileId)
    requires GoodLog(fs, log) && Emits(fs, log, out) && id in Ids(log)
    ensures SeenWithinCap(fs, out, id)
  {
    hide GoodLog, EntryOf;
    IdsMember(log, id);
    var i :| 0 <= i < |log| && log[i].id == id;
    if id != fs.root {
      var j, e := LoggedWasEmitted(fs, log, i);
      assert e in out;
    }
  }

  lemma LoggedWasEmitted(fs: FileSystem, log: seq<Pending>, i: nat) returns (j: nat, e: WalkEntry)
    requires GoodLog(fs, log) && i < |log| && log[i].id != fs.root
    ensures j < i && EntryOf(fs, log[j].path, log[j].id, e)
    ensures e.id == log[i].id && e.meta.kind.Dir? && |e.path| <= 256
  {
    hide DirAt;
    LoggedAreReachable(fs, log, i);
    j :| 0 <= j < i && PushedBy(fs, log[j], log[i]);
    e := WalkEntry(log[i].path, log[i].id, fs.meta(log[i].id).value);
  }

  lemma EmittedIsPushed(fs: FileSystem, log: seq<Pending>, out: seq<WalkEntry>, e: WalkEntry) returns (p: Pending)
    requires GoodLog(fs, log) && e in out && e.meta.kind.Dir?
    requires Emits(fs, log, out)
    ensures p.id == e.id && p.depth == |e.path| && exists i :: 0 <= i < |log| && PushedBy(fs, log[i], p)
  {
    var i :| 0 <= i < |log| && EntryOf(fs, log[i].path, log[i].id, e);
    LoggedAreReachable(fs, log, i);
    p := Pending(e.path, e.id, log[i].depth + 1);
    assert PushedBy(fs, log[i], p);
  }

  lemma ClosedIsCapHidesNothing(fs: FileSystem, log: seq<Pending>, out: seq<WalkEntry>)
    requires GoodLog(fs, log) && Covered(fs, log, {})
    requires Emits(fs, log, out)
    ensures ClosedLog(fs, log) <==> CapHidesNothing(fs, out)
  {
    hide GoodLog, SeenWithinCap, Covered;
    if ClosedLog(fs, log) {
      forall e | e in out && e.meta.kind.Dir? ensures SeenWithinCap(fs, out, e.id) {
        var p := EmittedIsPushed(fs, log, out, e);
        SeenIsLogged(fs, log, out, e.id);
      }
    }
    if CapHidesNothing(fs, out) {
      forall i, p | 0 <= i < |log| && PushedBy(fs, log[i], p) ensures p.id in Ids(log) {
        PushedIsSeen(fs, log, out, i, p);
        SeenIsLogged(fs, log, out, p.id);
      }
    }
  }

  lemma PushedIsSeen(fs: FileSystem, log: seq<Pending>, out: seq<WalkEntry>, i: nat, p: Pending)
    requires i < |log| && PushedBy(fs, log[i], p) && CapHidesNothing(fs, out)
    requires Emits(fs, log, out)
    ensures SeenWithinCap(fs, out, p.id)
  {
    var e := WalkEntry(p.path, p.id, fs.meta(p.id).value);
    assert EntryOf(fs, log[i].path, log[i].id, e);
    assert e in out;
  }

  // What a finished run returns is exactly what its log's directories hold.
  lemma OutputIsExact(fs: FileSystem, out: seq<WalkEntry>) returns (log: seq<Pending>)
    requires WalkResult(fs, Start(fs), {}) == Ok(out)
    ensures WalkLog(fs, Start(fs), {}) == Ok(log) && GoodLog(fs, log) && Covered(fs, log, {})
    ensures Emits(fs, log, out)
  {
    hide GoodLog, Covered, EntryOf, Expansion, Emitted;
    log := WalkLog(fs, Start(fs), {}).value;
    LogIsGood(fs);
    LogIsCovered(fs);
    GoodLogExpands(fs, log);
    PrefixEmits(fs, log, |log|);
    assert log[..|log|] == log && EmittedBy(fs, log) == out;
  }

  // On any graph, a finished walk has expanded every reachable directory exactly
  // when each directory it emitted beyond the cap it also emitted within it. A
  // caller can read that off the answer.
  lemma CompleteExactlyWhen(fs: FileSystem, out: seq<WalkEntry>)
    requires WalkResult(fs, Start(fs), {}) == Ok(out)
    ensures WalkLog(fs, Start(fs), {}).Ok?
    ensures OncePerReachableDir(fs, WalkLog(fs, Start(fs), {}).value) <==> CapHidesNothing(fs, out)
  {
    hide GoodLog, Covered, EntryOf, ClosedLog, CapHidesNothing, OncePerReachableDir;
    var log := OutputIsExact(fs, out);
    CompleteExactlyWhenClosed(fs, log);
    ClosedIsCapHidesNothing(fs, log, out);
  }

  // ---- graphs without long chains ----

  ghost predicate Subdirectory(fs: FileSystem, dir: FileId, id: FileId) {
    IsDir(fs, id) && exists name :: Holds(fs, dir, name, id)
  }

  // Directories that lead down from the root, each holding the next.
  ghost predicate Chain(fs: FileSystem, dirs: seq<FileId>)
    decreases |dirs|
  {
    && dirs != []
    && if |dirs| == 1 then dirs[0] == fs.root
       else Chain(fs, dirs[..|dirs| - 1]) && Subdirectory(fs, dirs[|dirs| - 2], dirs[|dirs| - 1])
  }

  ghost predicate NoRepeats(dirs: seq<FileId>) {
    forall i, j :: 0 <= i < j < |dirs| ==> dirs[i] != dirs[j]
  }

  // No chain of more than 257 directories is free of repetitions. Loops and shared
  // directories are allowed.
  ghost predicate ShortChains(fs: FileSystem) {
    forall dirs :: Chain(fs, dirs) && NoRepeats(dirs) ==> |dirs| <= 257
  }

  // The directories above a logged one were all expanded before it.
  lemma {:induction false} LoggedChain(fs: FileSystem, log: seq<Pending>, i: nat) returns (dirs: seq<FileId>)
    requires GoodLog(fs, log) && i < |log|
    ensures Chain(fs, dirs) && NoRepeats(dirs)
    ensures |dirs| == log[i].depth + 1 && dirs[|dirs| - 1] == log[i].id
    ensures forall d :: d in dirs ==> exists k :: 0 <= k <= i && log[k].id == d
    decreases i
  {
    hide Chain, NoRepeats, GoodLog, Holds, IsDir, Subdirectory;
    GoodLogIsDistinct(fs, log);
    if log[i] == Pending([], fs.root, 0) {
      dirs := [fs.root];
      RootChain(fs);
      assert log[i].id == fs.root;
    } else {
      var j := LoggedParent(fs, log, i);
      var above := LoggedChain(fs, log, j);
      dirs := above + [log[i].id];
      LongerChain(fs, above, log[i].id);
    }
  }

  lemma LoggedParent(fs: FileSystem, log: seq<Pending>, i: nat) returns (j: nat)
    requires GoodLog(fs, log) && i < |log| && log[i] != Pending([], fs.root, 0)
    ensures j < i && log[i].depth == log[j].depth + 1 && Subdirectory(fs, log[j].id, log[i].id)
  {
    j :| 0 <= j < i && PushedBy(fs, log[j], log[i]);
  }

  lemma RootChain(fs: FileSystem)
    ensures Chain(fs, [fs.root]) && NoRepeats([fs.root])
  {
  }

  lemma LongerChain(fs: FileSystem, above: seq<FileId>, id: FileId)
    requires Chain(fs, above) && NoRepeats(above)
    ensures Subdirectory(fs, above[|above| - 1], id) ==> Chain(fs, above + [id])
    ensures id !in above ==> NoRepeats(above + [id])
  {
    var dirs := above + [id];
    assert dirs[..|dirs| - 1] == above;
  }

  // The pigeonhole: whatever the cap could drop closes a loop, so it was expanded.
  lemma BeyondCapIsVisited(fs: FileSystem, log: seq<Pending>, i: nat, p: Pending)
    requires ShortChains(fs) && GoodLog(fs, log)
    requires i < |log| && PushedBy(fs, log[i], p) && p.depth > 256
    ensures p.id in Ids(log)
  {
    var above := LoggedChain(fs, log, i);
    assert Subdirectory(fs, log[i].id, p.id);
    FullChainCloses(fs, above, p.id);
    var k :| 0 <= k <= i && log[k].id == p.id;
    IdsMember(log, p.id);
  }

  // What hangs below a chain of full length is already on it.
  lemma FullChainCloses(fs: FileSystem, above: seq<FileId>, id: FileId)
    requires ShortChains(fs) && Chain(fs, above) && NoRepeats(above)
    requires |above| > 256 && Subdirectory(fs, above[|above| - 1], id)
    ensures id in above
  {
    LongerChain(fs, above, id);
  }

  lemma ShortChainsClose(fs: FileSystem, log: seq<Pending>)
    requires ShortChains(fs) && GoodLog(fs, log) && Covered(fs, log, {})
    ensures ClosedLog(fs, log)
  {
    hide GoodLog, PushedBy, ShortChains, Ids;
    forall i, p | 0 <= i < |log| && PushedBy(fs, log[i], p) ensures p.id in Ids(log) {
      if p.depth > 256 {
        BeyondCapIsVisited(fs, log, i, p);
      }
    }
  }

  // No call the walk could make on a reachable directory fails.
  ghost predicate AllReadable(fs: FileSystem) {
    forall dir, e :: ReachableDir(fs, dir) ==> !ListingRaises(fs, dir, e)
  }

  lemma ReadableFinishes(fs: FileSystem)
    requires AllReadable(fs)
    ensures WalkResult(fs, Start(fs), {}).Ok?
  {
    hide ListingRaises, NearDir, ReachableDir;
    NearIsReachable(fs);
    if WalkResult(fs, Start(fs), {}).Err? {
      var dir := FailuresAreReal(fs, WalkResult(fs, Start(fs), {}).error);
    }
  }

  // Completeness: where no repetition-free chain is longer than 257 directories and
  // no call fails, the walk expands every reachable directory exactly once, and
  // what it returns is exactly what those directories hold, in spite of the cap.
  lemma WalkIsComplete(fs: FileSystem)
    requires ShortChains(fs)
    requires AllReadable(fs) || WalkResult(fs, Start(fs), {}).Ok?
    ensures WalkLog(fs, Start(fs), {}).Ok? && WalkResult(fs, Start(fs), {}).Ok?
    ensures OncePerReachableDir(fs, WalkLog(fs, Start(fs), {}).value)
    ensures forall e :: e in WalkResult(fs, Start(fs), {}).value <==>
              exists p :: p in WalkLog(fs, Start(fs), {}).value && EntryOf(fs, p.path, p.id, e)
  {
    hide GoodLog, Covered, EntryOf, ShortChains, ClosedLog, OncePerReachableDir, AllReadable;
    if AllReadable(fs) {
      ReadableFinishes(fs);
    }
    var log := OutputIsExact(fs, WalkResult(fs, Start(fs), {}).value);
    ShortChainsClose(fs, log);
    ClosedIsComplete(fs, log);
  }

  // Under the same bound the walk fails exactly when reading a reachable directory does.
  lemma FailsExactlyWhenReadingFails(fs: FileSystem)
    requires ShortChains(fs)
    ensures WalkResult(fs, Start(fs), {}).Err? <==>
            exists dir, e :: ReachableDir(fs, dir) && ListingRaises(fs, dir, e)
  {
    hide ListingRaises, GoodLog, Covered, ShortChains, ClosedLog, ReachableDir, NearDir;
    NearIsReachable(fs);
    if WalkResult(fs, Start(fs), {}).Err? {
      var dir := FailuresAreReal(fs, WalkResult(fs, Start(fs), {}).error);
    } else {
      var log := OutputIsExact(fs, WalkResult(fs, Start(fs), {}).value);
      ShortChainsClose(fs, log);
      ClosedIsComplete(fs, log);
      forall dir, e | ReachableDir(fs, dir) ensures !ListingRaises(fs, dir, e) {
        LoggedDoNotRaise(fs, log, dir, e);
      }
    }
  }

  lemma NearIsReachable(fs: FileSystem)
    ensures forall dir :: NearDir(fs, dir) ==> ReachableDir(fs, dir)
  {
  }

  lemma LoggedDoNotRaise(fs: FileSystem, log: seq<Pending>, dir: FileId, e: Error)
    requires GoodLog(fs, log) && dir in Ids(log)
    ensures !ListingRaises(fs, dir, e)
  {
    hide ListingRaises, Expansion;
    GoodLogExpands(fs, log);
    IdsMember(log, dir);
    var i :| 0 <= i < |log| && log[i].id == dir;
    ExpansionFailsExactly(fs, log[i].path, dir);
  }

  // ---- few directories ----

  // `dirs` holds the root and every directory any of its members lists.
  ghost predicate Closed(fs: FileSystem, dirs: set<FileId>) {
    && fs.root in dirs
    && forall d, name, id :: d in dirs && Holds(fs, d, name, id) && IsDir(fs, id) ==> id in dirs
  }

  lemma ChainStaysInside(fs: FileSystem, chain: seq<FileId>, dirs: set<FileId>)
    requires Closed(fs, dirs) && Chain(fs, chain) && NoRepeats(chain)
    ensures |chain| <= |dirs|
  {
    ChainInside(fs, chain, dirs);
    NoRepeatsCount(chain, dirs);
  }

  lemma {:induction false} ChainInside(fs: FileSystem, chain: seq<FileId>, dirs: set<FileId>)
    requires Closed(fs, dirs) && Chain(fs, chain)
    ensures forall d :: d in chain ==> d in dirs
    decreases |chain|
  {
    if |chain| > 1 {
      var front := chain[..|chain| - 1];
      ChainInside(fs, front, dirs);
      assert chain == front + [chain[|chain| - 1]];
      assert front[|front| - 1] == chain[|chain| - 2];
      assert chain[|chain| - 2] in front;
    }
  }

  lemma {:induction false} NoRepeatsCount(chain: seq<FileId>, dirs: set<FileId>)
    requires NoRepeats(chain) && forall d :: d in chain ==> d in dirs
    ensures |chain| <= |dirs|
    decreases |chain|
  {
    if chain != [] {
      var front, last := chain[..|chain| - 1], chain[|chain| - 1];
      assert chain == front + [last];
      assert last in chain;
      forall d | d in front ensures d in dirs - {last} {
        assert d in chain;
      }
      NoRepeatsCount(front, dirs - {last});
    }
  }

  // Among at most 257 directories there is no longer chain, whatever their shape.
  lemma FewDirectoriesMakeShortChains(fs: FileSystem, dirs: set<FileId>)
    requires Closed(fs, dirs) && |dirs| <= 257
    ensures ShortChains(fs)
  {
    forall chain | Chain(fs, chain) && NoRepeats(chain) ensures |chain| <= 257 {
      ChainStaysInside(fs, chain, dirs);
    }
  }

  // ---- shallow directories ----

  // No directory lies deeper than the cap.
  ghost predicate Shallow(fs: FileSystem) {
    forall id, path :: DirAt(fs, path, id) ==> |path| <= 256
  }

  lemma {:induction false} ChainHasPath(fs: FileSystem, chain: seq<FileId>) returns (path: seq<seq<byte>>)
    requires Chain(fs, chain)
    ensures DirAt(fs, path, chain[|chain| - 1]) && |path| == |chain| - 1
    decreases |chain|
  {
    if |chain| == 1 {
      path := [];
    } else {
      var above, last := chain[..|chain| - 1], chain[|chain| - 1];
      var up := ChainHasPath(fs, above);
      var name :| Holds(fs, above[|above| - 1], name, last);
      path := up + [name];
      assert Up(path) == up && Last(path) == name;
    }
  }

  // Where no path to a directory is beyond the cap, no chain is either.
  lemma ShallowDirectoriesMakeShortChains(fs: FileSystem)
    requires Shallow(fs)
    ensures ShortChains(fs)
  {
    hide NoRepeats;
    forall chain | Chain(fs, chain) && NoRepeats(chain) ensures |chain| <= 257 {
      var path := ChainHasPath(fs, chain);
    }
  }

  lemma ShallowWalkIsComplete(fs: FileSystem)
    requires WalkLog(fs, Start(fs), {}).Ok?
    requires Shallow(fs)
    ensures OncePerReachableDir(fs, WalkLog(fs, Start(fs), {}).value)
  {
    hide GoodLog, Covered, ShortChains, ClosedLog, OncePerReachableDir;
    var log := WalkLog(fs, Start(fs), {}).value;
    LogIsGood(fs);
    LogIsCovered(fs);
    ShallowDirectoriesMakeShortChains(fs);
    ShortChainsClose(fs, log);
    ClosedIsComplete(fs, log);
  }

  // ---- ordinary disks ----

  // Each directory is met along one path only.
  ghost predicate OnePathEach(fs: FileSystem) {
    forall p, q, id :: DirAt(fs, p, id) && DirAt(fs, q, id) ==> p == q
  }

  lemma {:induction false} NearIsLoggedOnTrees(fs: FileSystem, log: seq<Pending>, path: seq<seq<byte>>, id: FileId)
    requires OnePathEach(fs) && GoodLog(fs, log) && Covered(fs, log, {})
    requires DirAt(fs, path, id) && |path| <= 256
    ensures id in Ids(log)
    decreases |path|
  {
    if path != [] {
      var parent :| DirAt(fs, Up(path), parent) && Holds(fs, parent, Last(path), id);
      NearIsLoggedOnTrees(fs, log, Up(path), parent);
      var i, p := HeldIsPushed(fs, log, parent, Last(path), id);
      LoggedAreReachable(fs, log, i);
      assert log[i].path == Up(path);
    }
  }

  // On an ordinary disk a finished walk has expanded exactly the directories whose
  // path is within the cap.
  lemma TreeWalkExpands(fs: FileSystem, id: FileId)
    requires OnePathEach(fs) && WalkLog(fs, Start(fs), {}).Ok?
    ensures id in Ids(WalkLog(fs, Start(fs), {}).value) <==> NearDir(fs, id)
  {
    hide GoodLog, Covered, OnePathEach, Ids;
    var log := WalkLog(fs, Start(fs), {}).value;
    LogIsGood(fs);
    LogIsCovered(fs);
    if id in Ids(log) {
      LoggedIsNear(fs, log, id);
    }
    if path :| DirAt(fs, path, id) && |path| <= 256 {
      NearIsLoggedOnTrees(fs, log, path, id);
    }
  }

  lemma CompleteTreesAreShallow(fs: FileSystem)
    requires OnePathEach(fs) && WalkLog(fs, Start(fs), {}).Ok?
    requires OncePerReachableDir(fs, WalkLog(fs, Start(fs), {}).value)
    ensures Shallow(fs)
  {
    hide Ids, WalkLog;
    forall id, path | DirAt(fs, path, id) ensures |path| <= 256 {
      assert ReachableDir(fs, id);
      TreeWalkExpands(fs, id);
      var near :| DirAt(fs, near, id) && |near| <= 256;
      assert near == path;
    }
  }

  // So there the walk is complete exactly when no directory lies deeper than the
  // cap, however many directories there are.
  lemma TreeWalkIsCompleteExactlyWhen(fs: FileSystem)
    requires OnePathEach(fs) && WalkLog(fs, Start(fs), {}).Ok?
    ensures OncePerReachableDir(fs, WalkLog(fs, Start(fs), {}).value) <==> Shallow(fs)
  {
    hide OncePerReachableDir, Shallow, OnePathEach, WalkLog;
    if Shallow(fs) {
      ShallowWalkIsComplete(fs);
    }
    if OncePerReachableDir(fs, WalkLog(fs, Start(fs), {}).value) {
      CompleteTreesAreShallow(fs);
    }
  }

  // And it fails exactly when reading a directory within the cap does.
  lemma TreeWalkFailsExactlyWhen(fs: FileSystem)
    requires OnePathEach(fs)
    ensures WalkResult(fs, Start(fs), {}).Err? <==>
            exists dir, e :: NearDir(fs, dir) && ListingRaises(fs, dir, e)
  {
    hide ListingRaises, GoodLog, NearDir, OnePathEach, Ids;
    if WalkResult(fs, Start(fs), {}).Err? {
      var dir := FailuresAreReal(fs, WalkResult(fs, Start(fs), {}).error);
    } else {
      LogIsGood(fs);
      forall dir, e | NearDir(fs, dir) ensures !ListingRaises(fs, dir, e) {
        TreeWalkExpands(fs, dir);
        LoggedDoNotRaise(fs, WalkLog(fs, Start(fs), {}).value, dir, e);
      }
    }
  }

  // ---- the bound is tight ----

  const CHAIN_DIRS: nat := 258

  // Directory k holds directory k + 1; the last one holds a single file.
  function ChainListing(id: FileId): VfsResult<seq<VfsResult<DirEntry>>> {
    if id.Opaque? && id.n < CHAIN_DIRS then Ok([Ok(DirEntry([97], Opaque(id.n + 1), Dir))]) else Ok([])
  }

  function ChainMeta(id: FileId): VfsResult<FsMeta> {
    Ok(FsMeta(0, if id.Opaque? && id.n < CHAIN_DIRS then Dir else RegularFile, 0))
  }

  function ChainFs(): FileSystem {
    FileSystem(Opaque(0), ChainListing, ChainMeta)
  }

  function ChainPath(k: nat): seq<seq<byte>> {
    seq(k, _ => [97])
  }

  lemma {:induction false} ChainReaches(k: nat)
    requires k < CHAIN_DIRS
    ensures DirAt(ChainFs(), ChainPath(k), Opaque(k))
  {
    if k > 0 {
      ChainReaches(k - 1);
      assert Up(ChainPath(k)) == ChainPath(k - 1) && Last(ChainPath(k)) == [97];
      assert ChainFs().readDir(Opaque(k - 1)) == ChainListing(Opaque(k - 1));
      assert Ok(DirEntry([97], Opaque(k), Dir)) in ChainFs().readDir(Opaque(k - 1)).value;
      assert Holds(ChainFs(), Opaque(k - 1), [97], Opaque(k));
    }
  }

  lemma ChainExpansion(path: seq<seq<byte>>, k: nat)
    requires k < CHAIN_DIRS - 1
    ensures Expansion(ChainFs(), path, Opaque(k))
         == Ok([WalkEntry(path + [[97]], Opaque(k + 1), FsMeta(0, Dir, 0))])
  {
    var listing := [Ok(DirEntry([97], Opaque(k + 1), Dir))];
    assert listing[1..] == [];
    assert ChainFs().readDir(Opaque(k)) == ChainListing(Opaque(k)) == Ok(listing);
    assert ChainFs().meta(Opaque(k + 1)) == ChainMeta(Opaque(k + 1));
    assert ListEntries(ChainFs(), path, listing[1..]) == Ok([]);
    var name: seq<byte> := [97];
    assert name[0] != DOT && !IsDot(name);
    var found := WalkEntry(path + [name], Opaque(k + 1), FsMeta(0, Dir, 0));
    assert ListEntries(ChainFs(), path, listing) == Ok([found] + []);
    assert [found] + [] == [found];
  }

  lemma ChainStep(path: seq<seq<byte>>, k: nat, visited: set<FileId>)
    requires k < CHAIN_DIRS && Opaque(k) !in visited
    ensures var log := WalkLog(ChainFs(), [Pending(path, Opaque(k), k)], visited);
            if k > 256 then log == Ok([])
            else log == Prepend([Pending(path, Opaque(k), k)],
                                WalkLog(ChainFs(), [Pending(path + [[97]], Opaque(k + 1), k + 1)],
                                        visited + {Opaque(k)}))
  {
    hide WalkLog, Expansion, Subdirectories, ChainFs;
    OneItemStep(ChainFs(), Pending(path, Opaque(k), k), visited);
    if k <= 256 {
      ChainExpansion(path, k);
      SubdirectoriesOne(WalkEntry(path + [[97]], Opaque(k + 1), FsMeta(0, Dir, 0)), k + 1);
    }
  }

  lemma OneItemStep(fs: FileSystem, top: Pending, visited: set<FileId>)
    ensures WalkLog(fs, [top], visited) ==
            if top.depth > 256 || top.id in visited then Ok([])
            else match Expansion(fs, top.path, top.id)
                 case Err(e) => Err(e)
                 case Ok(entries) =>
                   Prepend([top], WalkLog(fs, Subdirectories(entries, top.depth + 1), visited + {top.id}))
  {
    hide Expansion, Subdirectories;
    assert [top][..0] == [];
    if Expansion(fs, top.path, top.id).Ok? {
      var pushed := Subdirectories(Expansion(fs, top.path, top.id).value, top.depth + 1);
      assert [top][..0] + pushed == pushed;
    }
  }

  lemma {:induction false} ChainRun(path: seq<seq<byte>>, k: nat, visited: set<FileId>)
    requires k < CHAIN_DIRS && forall j :: k <= j < CHAIN_DIRS ==> Opaque(j) !in visited
    ensures var log := WalkLog(ChainFs(), [Pending(path, Opaque(k), k)], visited);
            log.Ok? && Opaque(CHAIN_DIRS - 1) !in Ids(log.value)
    decreases CHAIN_DIRS - k
  {
    hide WalkLog;
    ChainStep(path, k, visited);
    if k <= 256 {
      ChainRun(path + [[97]], k + 1, visited + {Opaque(k)});
    }
  }

  // One directory more than the bound and the walk, without any failure, leaves
  // a reachable directory unexpanded.
  lemma OneDirectoryMoreIsMissed()
    ensures var log := WalkLog(ChainFs(), Start(ChainFs()), {});
            && log.Ok?
            && ReachableDir(ChainFs(), Opaque(CHAIN_DIRS - 1))
            && Opaque(CHAIN_DIRS - 1) !in Ids(log.value)
    ensures exists dirs :: Closed(ChainFs(), dirs) && |dirs| == 258
  {
    ChainReaches(CHAIN_DIRS - 1);
    ChainRun([], 0, {});
    var dirs := ChainDirs(CHAIN_DIRS);
    assert Closed(ChainFs(), dirs);
  }

  ghost function ChainDirs(n: nat): (dirs: set<FileId>)
    requires n <= CHAIN_DIRS
    ensures |dirs| == n && forall id :: id in dirs <==> id.Opaque? && id.n < n
  {
    if n == 0 then {} else ChainDirs(n - 1) + {Opaque(n - 1)}
  }
}
