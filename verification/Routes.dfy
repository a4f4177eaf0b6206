/** Every success of the enumeration is a mount at the end of a justified route, and conversely. */
module Routes {
  import opened Basics
  import opened Locators
  import opened Registry
  import opened Sniff
  import opened Resolver
  import opened Enumeration
  import opened CleanUnknowns
  import opened Replay

  // ---- outcomes are mounts at the end of routes ----

  // Some candidate filesystem mounts at the found source.
  ghost predicate MountsHere(reg: Openers, found: Resolved) {
    && SniffSource(found.source).Ok?
    && exists o :: o in reg.filesystems && MountedWith(o, SniffSource(found.source).value, found)
  }

  ghost predicate MountedWith(o: FileSystemOpen, w: SniffWindow, found: Resolved) {
    && !o.probe(w).No?
    && o.open(found.source) == Ok(found.fs)
    && found.spec == found.sourceSpec.Push(FsLayer(o.kind, Path([])))
  }

  // `hops` lead from the source to where `found` mounts, as its locator records.
  ghost predicate Route(reg: Openers, creds: Credentials, source: Source, spec: Locator, depth: nat,
                        hops: seq<Hop>, found: Resolved)
  {
    && Follows(reg, creds, source, hops) && |hops| + depth <= 8
    && found.source == End(source, hops)
    && found.sourceSpec == spec.PushAll(HopLayers(hops))
    && MountsHere(reg, found)
  }

  ghost predicate HasVerdict(outcomes: seq<Outcome>, found: Resolved) {
    exists o :: o in outcomes && o.verdict == Ok(found)
  }

  lemma HasVerdictAppend(a: seq<Outcome>, b: seq<Outcome>, found: Resolved)
    ensures HasVerdict(a + b, found) <==> HasVerdict(a, found) || HasVerdict(b, found)
  {
    assert forall o :: o in a + b <==> o in a || o in b;
  }

  lemma HasVerdictGuessed(outcomes: seq<Outcome>, found: Resolved)
    ensures HasVerdict(Guessed(outcomes), found) <==> HasVerdict(outcomes, found)
  {
    if o :| o in outcomes && o.verdict == Ok(found) {
      var i :| 0 <= i < |outcomes| && outcomes[i] == o;
      assert Guessed(outcomes)[i].verdict == Ok(found);
    }
    if o :| o in Guessed(outcomes) && o.verdict == Ok(found) {
      var i :| 0 <= i < |outcomes| && Guessed(outcomes)[i] == o;
      assert outcomes[i] in outcomes;
    }
  }

  // Some action of the list leads to the verdict.
  ghost predicate LeadsTo(reg: Openers, creds: Credentials, actions: seq<Action>, source: Source, spec: Locator,
                          depth: nat, found: Resolved)
    requires depth <= 8
  {
    exists a :: a in actions && HasVerdict(ExpandOne(reg, creds, a, source, spec, depth), found)
  }

  lemma {:induction false} ExpandLeads(reg: Openers, creds: Credentials, actions: seq<Action>, source: Source,
                                       spec: Locator, depth: nat, found: Resolved)
    requires depth <= 8
    ensures HasVerdict(Expand(reg, creds, actions, source, spec, depth), found)
            <==> LeadsTo(reg, creds, actions, source, spec, depth, found)
    decreases |actions|
  {
    hide HasVerdict, ExpandOne;
    if actions == [] {
      NoVerdict(found);
    } else {
      ExpandLeads(reg, creds, actions[1..], source, spec, depth, found);
      HasVerdictAppend(ExpandOne(reg, creds, actions[0], source, spec, depth),
                       Expand(reg, creds, actions[1..], source, spec, depth), found);
      assert actions == [actions[0]] + actions[1..];
    }
  }

  lemma NoVerdict(found: Resolved)
    ensures !HasVerdict([], found)
  {
  }

  lemma EnumerateLeads(reg: Openers, creds: Credentials, source: Source, spec: Locator, depth: nat, found: Resolved)
    requires depth <= 8
    ensures HasVerdict(Enumerate(reg, creds, source, spec, depth), found)
            <==> LeadsTo(reg, creds, Plan(reg, creds, source), source, spec, depth, found)
  {
    hide HasVerdict, ExpandOne, FirmPlan, LastPlan;
    var firm := Expand(reg, creds, FirmPlan(reg, creds, source), source, spec, depth);
    var last := Expand(reg, creds, LastPlan(reg, creds, source), source, spec, depth);
    HasVerdictAppend(firm, Guessed(last), found);
    HasVerdictGuessed(last, found);
    ExpandLeads(reg, creds, FirmPlan(reg, creds, source), source, spec, depth, found);
    ExpandLeads(reg, creds, LastPlan(reg, creds, source), source, spec, depth, found);
  }

  ghost predicate MountsAs(o: FileSystemOpen, w: SniffWindow, source: Source, fs: Mounted, kind: FsKind) {
    !o.probe(w).No? && o.open(source) == Ok(fs) && o.kind == kind
  }

  lemma PlannedMount(reg: Openers, creds: Credentials, source: Source, fs: Mounted, kind: FsKind)
    returns (o: FileSystemOpen)
    requires Mount(fs, kind) in Plan(reg, creds, source)
    ensures SniffSource(source).Ok?
    ensures o in reg.filesystems && MountsAs(o, SniffSource(source).value, source, fs, kind)
  {
    SniffedPlan(reg, creds, source, Mount(fs, kind));
    var w := SniffSource(source).value;
    MountIsFsOffer(reg, creds, w, source, Mount(fs, kind));
    hide Plan, Gather;
    GatherMember(reg.filesystems, FsOffers(w, source), Mount(fs, kind));
    o :| o in reg.filesystems && Mount(fs, kind) in FsOffers(w, source)(o);
    assert Mount(fs, kind) == MountAction(o, source);
  }

  lemma MountIsPlanned(reg: Openers, creds: Credentials, source: Source, o: FileSystemOpen, fs: Mounted)
    requires SniffSource(source).Ok? && o in reg.filesystems
    requires MountsAs(o, SniffSource(source).value, source, fs, o.kind)
    ensures Mount(fs, o.kind) in Plan(reg, creds, source)
  {
    var w := SniffSource(source).value;
    GatherMember(reg.filesystems, FsOffers(w, source), Mount(fs, o.kind));
    hide Gather;
    assert Mount(fs, o.kind) in FsOffers(w, source)(o);
  }

  lemma MountGivesRoute(reg: Openers, creds: Credentials, source: Source, spec: Locator, depth: nat,
                        action: Action, found: Resolved)
    requires depth <= 8 && action in Plan(reg, creds, source) && action.Mount?
    requires HasVerdict(ExpandOne(reg, creds, action, source, spec, depth), found)
    ensures Route(reg, creds, source, spec, depth, [], found)
  {
    hide Plan;
    var o := PlannedMount(reg, creds, source, action.fs, action.kind);
    assert MountedWith(o, SniffSource(source).value, found);
    assert HopLayers([]) == [];
  }

  lemma LongerRoute(reg: Openers, creds: Credentials, source: Source, spec: Locator, depth: nat, hop: Hop,
                    rest: seq<Hop>, found: Resolved)
    requires SniffSource(source).Ok? && Descend(hop.child, hop.layer) in Plan(reg, creds, source)
    requires Route(reg, creds, hop.child, spec.Push(hop.layer), depth + 1, rest, found)
    ensures Route(reg, creds, source, spec, depth, [hop] + rest, found)
  {
    hide Plan, MountsHere;
    var hops := [hop] + rest;
    FollowsOneMore(reg, creds, source, hop, rest);
    assert HopLayers(hops) == [hop.layer] + HopLayers(rest);
    assert End(source, hops) == End(hop.child, rest);
  }

  lemma SniffedPlan(reg: Openers, creds: Credentials, source: Source, action: Action)
    requires action in Plan(reg, creds, source) && !action.Fail?
    ensures SniffSource(source).Ok?
  {
  }

  lemma FailHasNoVerdict(reg: Openers, creds: Credentials, e: Error, source: Source, spec: Locator, depth: nat,
                         found: Resolved)
    requires depth <= 8
    ensures !HasVerdict(ExpandOne(reg, creds, Fail(e), source, spec, depth), found)
  {
  }

  // Every success in the enumeration, not only the first, has a route.
  lemma {:induction false} OutcomesHaveRoutes(reg: Openers, creds: Credentials, source: Source, spec: Locator,
                                              depth: nat, found: Resolved)
    returns (hops: seq<Hop>)
    requires HasVerdict(Enumerate(reg, creds, source, spec, depth), found)
    ensures Route(reg, creds, source, spec, depth, hops, found)
    decreases 9 - depth
  {
    hide Plan, Route, HasVerdict;
    DepthOfVerdict(reg, creds, source, spec, depth, found);
    EnumerateLeads(reg, creds, source, spec, depth, found);
    var a :| a in Plan(reg, creds, source) && HasVerdict(ExpandOne(reg, creds, a, source, spec, depth), found);
    match a
    case Mount(_, _) =>
      hops := [];
      MountGivesRoute(reg, creds, source, spec, depth, a, found);
    case Descend(child, layer) =>
      var rest := OutcomesHaveRoutes(reg, creds, child, spec.Push(layer), depth + 1, found);
      hops := [Hop(layer, child)] + rest;
      SniffedPlan(reg, creds, source, a);
      LongerRoute(reg, creds, source, spec, depth, Hop(layer, child), rest, found);
    case Fail(e) =>
      FailHasNoVerdict(reg, creds, e, source, spec, depth, found);
  }

  lemma DepthOfVerdict(reg: Openers, creds: Credentials, source: Source, spec: Locator, depth: nat, found: Resolved)
    requires HasVerdict(Enumerate(reg, creds, source, spec, depth), found)
    ensures depth <= 8
  {
  }

  // And every route ends in a success of the enumeration.
  lemma {:induction false} RoutesAreOutcomes(reg: Openers, creds: Credentials, source: Source, spec: Locator,
                                             depth: nat, hops: seq<Hop>, found: Resolved)
    requires Route(reg, creds, source, spec, depth, hops, found)
    ensures HasVerdict(Enumerate(reg, creds, source, spec, depth), found)
    decreases |hops|
  {
    hide Plan, HasVerdict, MountsHere, Enumerate;
    EnumerateLeads(reg, creds, source, spec, depth, found);
    if hops == [] {
      RouteEndsHere(reg, creds, source, spec, depth, found);
    } else {
      var hop, rest := hops[0], hops[1..];
      assert hops == [hop] + rest;
      assert HopLayers(hops) == [hop.layer] + HopLayers(rest);
      assert End(source, hops) == End(hop.child, rest);
      assert SniffSource(source).Ok?;
      DescentsArePeels(reg, creds, source, hop);
      RoutesAreOutcomes(reg, creds, hop.child, spec.Push(hop.layer), depth + 1, rest, found);
      var a := Descend(hop.child, hop.layer);
      assert ExpandOne(reg, creds, a, source, spec, depth)
          == Enumerate(reg, creds, hop.child, spec.Push(hop.layer), depth + 1);
    }
  }

  lemma RouteEndsHere(reg: Openers, creds: Credentials, source: Source, spec: Locator, depth: nat, found: Resolved)
    requires Route(reg, creds, source, spec, depth, [], found)
    ensures LeadsTo(reg, creds, Plan(reg, creds, source), source, spec, depth, found)
  {
    var w := SniffSource(source).value;
    assert HopLayers([]) == [];
    var o :| o in reg.filesystems && MountedWith(o, w, found);
    var a := Mount(found.fs, o.kind);
    MountIsPlanned(reg, creds, source, o, found.fs);
    assert ExpandOne(reg, creds, a, source, spec, depth) == [Outcome(false, Ok(found))];
    assert Outcome(false, Ok(found)) in ExpandOne(reg, creds, a, source, spec, depth);
  }
}
