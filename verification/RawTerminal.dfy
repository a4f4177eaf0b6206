/** `resolve_to_source` never misses: within the cap it is a greedy, single-path peel. */
module RawTerminal {
  import opened Basics
  import opened Locators
  import opened Registry
  import opened Sniff
  import opened Resolver
  import opened CleanUnknowns

  // ---- the greedy reading ----

  // The peel by the first container whose probe accepts the source.
  ghost function FirstContainerPeel(containers: seq<ContainerOpen>, w: SniffWindow, source: Source)
    : Option<VfsResult<Hop>>
  {
    if containers == [] then None
    else if !containers[0].probe(w).No? then
      Some(match containers[0].open(source)
           case Err(e) => Err(e)
           case Ok(decoded) => Ok(Hop(ContainerLayer(containers[0].format), decoded)))
    else FirstContainerPeel(containers[1..], w, source)
  }

  // The peel by the first accepting archive that is not empty; only ever member 0.
  ghost function FirstArchivePeel(archives: seq<ArchiveOpen>, w: SniffWindow, source: Source)
    : Option<VfsResult<Hop>>
  {
    if archives == [] then None
    else if !archives[0].probe(w).No? then
      match archives[0].open(source)
      case Err(e) => Some(Err(e))
      case Ok(Stream(inner)) => Some(Ok(Hop(ArchiveLayer(None), inner)))
      case Ok(Members(members)) =>
        if members == [] then FirstArchivePeel(archives[1..], w, source)
        else Some(Ok(Hop(ArchiveLayer(Some(0)), members[0])))
    else FirstArchivePeel(archives[1..], w, source)
  }

  ghost function FirstPeel(reg: Openers, w: SniffWindow, source: Source): Option<VfsResult<Hop>> {
    var decoded := FirstContainerPeel(reg.containers, w, source);
    if decoded.Some? then decoded else FirstArchivePeel(reg.archives, w, source)
  }

  // At the cap nothing is entered, but everything that claims the source is
  // still opened, and the first failure is the answer.
  ghost function FirstContainerFailure(containers: seq<ContainerOpen>, w: SniffWindow, source: Source): Option<Error> {
    if containers == [] then None
    else if !containers[0].probe(w).No? && containers[0].open(source).Err? then
      Some(containers[0].open(source).error)
    else FirstContainerFailure(containers[1..], w, source)
  }

  ghost function FirstArchiveFailure(archives: seq<ArchiveOpen>, w: SniffWindow, source: Source): Option<Error> {
    if archives == [] then None
    else if !archives[0].probe(w).No? && archives[0].open(source).Err? then
      Some(archives[0].open(source).error)
    else FirstArchiveFailure(archives[1..], w, source)
  }

  ghost function FirstFailure(reg: Openers, w: SniffWindow, source: Source): Option<Error> {
    var failed := FirstContainerFailure(reg.containers, w, source);
    if failed.Some? then failed else FirstArchiveFailure(reg.archives, w, source)
  }

  // Peel the first thing that claims the source, at most `budget` times.
  ghost function Greedy(reg: Openers, source: Source, spec: Locator, budget: nat): VfsResult<ResolvedSource>
    decreases budget
  {
    var w :- SniffSource(source);
    if budget == 0 then
      match FirstFailure(reg, w, source)
      case Some(e) => Err(e)
      case None => Ok(ResolvedSource(source, spec))
    else
      match FirstPeel(reg, w, source)
      case None => Ok(ResolvedSource(source, spec))
      case Some(Err(e)) => Err(e)
      case Some(Ok(hop)) => Greedy(reg, hop.child, spec.Push(hop.layer), budget - 1)
  }

  ghost function Lift(r: VfsResult<ResolvedSource>): VfsResult<Option<ResolvedSource>> {
    match r
    case Err(e) => Err(e)
    case Ok(found) => Ok(Some(found))
  }

  // ---- the code's descent, when children never miss ----

  ghost predicate NeverMisses(reg: Openers, depth: nat) {
    forall s: Source, l: Locator :: ResolveToSource(reg, s, l, depth) != Ok(None)
  }

  ghost function Enter(reg: Openers, peel: Option<VfsResult<Hop>>, spec: Locator, depth: nat)
    : VfsResult<Option<ResolvedSource>>
  {
    match peel
    case None => Ok(None)
    case Some(Err(e)) => Err(e)
    case Some(Ok(hop)) => ResolveToSource(reg, hop.child, spec.Push(hop.layer), depth + 1)
  }

  lemma {:induction false} ContainersPeelFirst(reg: Openers, containers: seq<ContainerOpen>, w: SniffWindow,
                                               source: Source, spec: Locator, depth: nat)
    requires depth <= 8 && NeverMisses(reg, depth + 1)
    ensures DescendContainers(containers, w, source, spec, depth, PackagingOnly(reg, depth))
         == Enter(reg, FirstContainerPeel(containers, w, source), spec, depth)
  {
    if containers != [] {
      ContainersPeelFirst(reg, containers[1..], w, source, spec, depth);
    }
  }

  lemma {:induction false} ArchivesPeelFirst(reg: Openers, archives: seq<ArchiveOpen>, w: SniffWindow,
                                             source: Source, spec: Locator, depth: nat)
    requires depth <= 8 && NeverMisses(reg, depth + 1)
    ensures DescendArchives(archives, w, source, spec, depth, PackagingOnly(reg, depth))
         == Enter(reg, FirstArchivePeel(archives, w, source), spec, depth)
  {
    if archives != [] {
      ArchivesPeelFirst(reg, archives[1..], w, source, spec, depth);
    }
  }

  // ---- the code's descent at the cap, where children always miss ----

  ghost function Failing(failure: Option<Error>): VfsResult<Option<ResolvedSource>> {
    match failure
    case None => Ok(None)
    case Some(e) => Err(e)
  }

  lemma {:induction false} ContainersAtCap(reg: Openers, containers: seq<ContainerOpen>, w: SniffWindow,
                                           source: Source, spec: Locator)
    ensures DescendContainers(containers, w, source, spec, 8, PackagingOnly(reg, 8))
         == Failing(FirstContainerFailure(containers, w, source))
  {
    if containers != [] {
      ContainersAtCap(reg, containers[1..], w, source, spec);
    }
  }

  lemma {:induction false} MembersAtCap(reg: Openers, members: MemberTable, spec: Locator, index: nat)
    ensures DescendMembers(members, spec, 8, PackagingOnly(reg, 8), index) == Ok(None)
    decreases |members| - index
  {
    if index < |members| {
      MembersAtCap(reg, members, spec, index + 1);
    }
  }

  lemma {:induction false} ArchivesAtCap(reg: Openers, archives: seq<ArchiveOpen>, w: SniffWindow,
                                         source: Source, spec: Locator)
    ensures DescendArchives(archives, w, source, spec, 8, PackagingOnly(reg, 8))
         == Failing(FirstArchiveFailure(archives, w, source))
  {
    if archives != [] {
      ArchivesAtCap(reg, archives[1..], w, source, spec);
      if archives[0].open(source).Ok? && archives[0].open(source).value.Members? {
        MembersAtCap(reg, archives[0].open(source).value.members, spec, 0);
      }
    }
  }

  // From any depth within the cap the terminal is the greedy peel of the
  // remaining budget; in particular it is never a miss.
  lemma {:induction false} ResolveIsGreedy(reg: Openers, source: Source, spec: Locator, depth: nat)
    requires depth <= 8
    ensures ResolveToSource(reg, source, spec, depth) == Lift(Greedy(reg, source, spec, 8 - depth))
    ensures ResolveToSource(reg, source, spec, depth) != Ok(None)
    decreases 8 - depth
  {
    if SniffSource(source).Ok? {
      var w := SniffSource(source).value;
      if depth == 8 {
        ContainersAtCap(reg, reg.containers, w, source, spec);
        ArchivesAtCap(reg, reg.archives, w, source, spec);
      } else {
        var deeper := depth + 1;
        forall s: Source, l: Locator ensures ResolveToSource(reg, s, l, deeper) != Ok(None) {
          ResolveIsGreedy(reg, s, l, deeper);
        }
        ContainersPeelFirst(reg, reg.containers, w, source, spec, depth);
        ArchivesPeelFirst(reg, reg.archives, w, source, spec, depth);
        var peel := FirstPeel(reg, w, source);
        if peel.Some? && peel.value.Ok? {
          ResolveIsGreedy(reg, peel.value.value.child, spec.Push(peel.value.value.layer), deeper);
        }
      }
    }
  }

  // ---- where it stops ----

  // No container claims the source, and whatever archives claim it are empty.
  ghost predicate Unclaimed(reg: Openers, source: Source) {
    && SniffSource(source).Ok?
    && var w := SniffSource(source).value;
       && (forall o :: o in reg.containers ==> o.probe(w).No?)
       && (forall o :: o in reg.archives && !o.probe(w).No? ==> o.open(source) == Ok(Members([])))
  }

  lemma {:induction false} NoContainerPeel(containers: seq<ContainerOpen>, w: SniffWindow, source: Source)
    ensures FirstContainerPeel(containers, w, source) == None <==>
            forall o :: o in containers ==> o.probe(w).No?
  {
    if containers != [] {
      NoContainerPeel(containers[1..], w, source);
      assert containers[0] in containers;
      assert containers == [containers[0]] + containers[1..];
    }
  }

  lemma {:induction false} NoArchivePeel(archives: seq<ArchiveOpen>, w: SniffWindow, source: Source)
    ensures FirstArchivePeel(archives, w, source) == None <==>
            forall o :: o in archives && !o.probe(w).No? ==> o.open(source) == Ok(Members([]))
  {
    if archives != [] {
      NoArchivePeel(archives[1..], w, source);
      assert archives[0] in archives;
      assert archives == [archives[0]] + archives[1..];
    }
  }

  lemma UnclaimedIsNoPeel(reg: Openers, source: Source)
    requires SniffSource(source).Ok?
    ensures Unclaimed(reg, source) <==> FirstPeel(reg, SniffSource(source).value, source) == None
  {
    NoContainerPeel(reg.containers, SniffSource(source).value, source);
    NoArchivePeel(reg.archives, SniffSource(source).value, source);
  }

  // Every hop is the first peel its node offers.
  ghost predicate PeelsFirst(reg: Openers, source: Source, hops: seq<Hop>)
    decreases |hops|
  {
    hops == [] ||
    (&& SniffSource(source).Ok?
     && FirstPeel(reg, SniffSource(source).value, source) == Some(Ok(hops[0]))
     && PeelsFirst(reg, hops[0].child, hops[1..]))
  }

  // A container layer, a bare stream, or the first member: never a later one.
  predicate IsPackaging(layer: Layer) {
    layer.ContainerLayer? || layer == ArchiveLayer(None) || layer == ArchiveLayer(Some(0))
  }

  // On success the chain of first peels is replayed by the locator, and it ends
  // at an unclaimed source or at the cap.
  lemma {:induction false} TerminalReplays(reg: Openers, source: Source, spec: Locator,
                                           budget: nat, found: ResolvedSource)
    returns (hops: seq<Hop>)
    requires Greedy(reg, source, spec, budget) == Ok(found)
    ensures |hops| <= budget && PeelsFirst(reg, source, hops)
    ensures found == ResolvedSource(End(source, hops), spec.PushAll(HopLayers(hops)))
    ensures forall i :: 0 <= i < |hops| ==> IsPackaging(hops[i].layer)
    ensures |hops| == budget || Unclaimed(reg, found.source)
    decreases budget
  {
    var w := SniffSource(source).value;
    var peel := FirstPeel(reg, w, source);
    if budget == 0 || peel == None {
      hops := [];
      UnclaimedIsNoPeel(reg, source);
    } else {
      var hop := peel.value.value;
      var rest := TerminalReplays(reg, hop.child, spec.Push(hop.layer), budget - 1, found);
      hops := [hop] + rest;
      FirstPeelIsPackaging(reg, w, source);
      assert hops[1..] == rest;
      assert HopLayers(hops) == [hop.layer] + HopLayers(rest);
    }
  }

  // The same, of the code's own answer.
  lemma ResolveReplays(reg: Openers, source: Source, spec: Locator, depth: nat, found: ResolvedSource)
    returns (hops: seq<Hop>)
    requires ResolveToSource(reg, source, spec, depth) == Ok(Some(found))
    ensures |hops| + depth <= 8 && PeelsFirst(reg, source, hops)
    ensures found == ResolvedSource(End(source, hops), spec.PushAll(HopLayers(hops)))
    ensures forall i :: 0 <= i < |hops| ==> IsPackaging(hops[i].layer)
    ensures |hops| + depth == 8 || Unclaimed(reg, found.source)
  {
    ResolveIsGreedy(reg, source, spec, depth);
    hops := TerminalReplays(reg, source, spec, 8 - depth, found);
  }

  lemma FirstPeelIsPackaging(reg: Openers, w: SniffWindow, source: Source)
    requires FirstPeel(reg, w, source).Some? && FirstPeel(reg, w, source).value.Ok?
    ensures IsPackaging(FirstPeel(reg, w, source).value.value.layer)
  {
    ContainerPeelIsPackaging(reg.containers, w, source);
    ArchivePeelIsPackaging(reg.archives, w, source);
  }

  lemma {:induction false} ContainerPeelIsPackaging(containers: seq<ContainerOpen>, w: SniffWindow, source: Source)
    ensures var peel := FirstContainerPeel(containers, w, source);
            peel.Some? && peel.value.Ok? ==> IsPackaging(peel.value.value.layer)
  {
    if containers != [] {
      ContainerPeelIsPackaging(containers[1..], w, source);
    }
  }

  lemma {:induction false} ArchivePeelIsPackaging(archives: seq<ArchiveOpen>, w: SniffWindow, source: Source)
    ensures var peel := FirstArchivePeel(archives, w, source);
            peel.Some? && peel.value.Ok? ==> IsPackaging(peel.value.value.layer)
  {
    if archives != [] {
      ArchivePeelIsPackaging(archives[1..], w, source);
    }
  }
}
