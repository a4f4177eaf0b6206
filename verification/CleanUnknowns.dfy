/** What a node offers in terms of its registered openers, and what `Ok(None)` therefore means. */
module CleanUnknowns {
  import opened Basics
  import opened Locators
  import opened Registry
  import opened Sniff
  import opened Resolver
  import opened Enumeration
  import opened ResolverRefinement

  // One recorded step: the layer that was pushed and the source it led to.
  datatype Hop = Hop(layer: Layer, child: Source)

  ghost predicate VolumePeel(o: VolumeSystemOpen, index: nat, w: SniffWindow, source: Source, hop: Hop) {
    && !o.probe(w).No? && o.open(source).Ok?
    && index < o.open(source).value.count
    && o.open(source).value.openVolume(index) == Ok(hop.child)
    && hop.layer == VolumeLayer(o.scheme, index, None)
  }

  ghost predicate CipherPeel(o: EncryptionOpen, creds: Credentials, w: SniffWindow, source: Source, hop: Hop) {
    && !o.probe(w).No? && o.open(source).Ok?
    && o.open(source).value.decrypt(creds) == Ok(hop.child)
    && hop.layer == EncryptionLayer(o.scheme)
  }

  ghost predicate ContainerPeel(o: ContainerOpen, w: SniffWindow, source: Source, hop: Hop) {
    && !o.probe(w).No?
    && o.open(source) == Ok(hop.child)
    && hop.layer == ContainerLayer(o.format)
  }

  ghost predicate ArchivePeel(o: ArchiveOpen, w: SniffWindow, source: Source, hop: Hop) {
    && !o.probe(w).No? && o.open(source).Ok?
    && match o.open(source).value
       case Stream(inner) => hop == Hop(ArchiveLayer(None), inner)
       case Members(members) =>
         && hop.layer.ArchiveLayer? && hop.layer.member.Some?
         && hop.layer.member.value < |members|
         && hop.child == members[hop.layer.member.value]
  }

  // Some registered opener claims `source` and yields the hop.
  ghost predicate Peels(reg: Openers, creds: Credentials, source: Source, hop: Hop) {
    && SniffSource(source).Ok?
    && var w := SniffSource(source).value;
       || (exists o, index :: o in reg.volumeSystems && VolumePeel(o, index, w, source, hop))
       || (exists o :: o in reg.encryption && CipherPeel(o, creds, w, source, hop))
       || (exists o :: o in reg.containers && ContainerPeel(o, w, source, hop))
       || (exists o :: o in reg.archives && ArchivePeel(o, w, source, hop))
  }

  ghost predicate Follows(reg: Openers, creds: Credentials, source: Source, hops: seq<Hop>)
    decreases |hops|
  {
    hops == [] || (Peels(reg, creds, source, hops[0]) && Follows(reg, creds, hops[0].child, hops[1..]))
  }

  function End(source: Source, hops: seq<Hop>): Source {
    if hops == [] then source else hops[|hops| - 1].child
  }

  function HopLayers(hops: seq<Hop>): seq<Layer> {
    seq(|hops|, i requires 0 <= i < |hops| => hops[i].layer)
  }

  // Nothing mounts here, and every open the node calls for succeeds, save the
  // decrypts of signature-less schemes.
  ghost predicate Quiet(reg: Openers, creds: Credentials, source: Source) {
    && SniffSource(source).Ok?
    && var w := SniffSource(source).value;
       && (forall o :: o in reg.filesystems ==> o.probe(w).No?)
       && (forall o :: o in reg.volumeSystems && !o.probe(w).No? ==>
             o.open(source).Ok? && AllVolumesOpen(o.open(source).value))
       && (forall o :: o in reg.encryption && !o.probe(w).No? ==>
             o.open(source).Ok? && (o.probe(w).Yes? ==> o.open(source).value.decrypt(creds).Ok?))
       && (forall o :: o in reg.containers && !o.probe(w).No? ==> o.open(source).Ok?)
       && (forall o :: o in reg.archives && !o.probe(w).No? ==> o.open(source).Ok?)
  }

  ghost predicate AllVolumesOpen(table: VolumeTable) {
    forall index: nat :: index < table.count ==> table.openVolume(index).Ok?
  }

  // ---- what the plan of a node contains ----

  lemma {:induction false} TableMember(scheme: VolumeScheme, table: VolumeTable, from: nat, action: Action)
    ensures action in TableActions(scheme, table, from) <==>
            exists index :: from <= index < table.count && action == VolumeAction(scheme, table, index)
    decreases table.count - from
  {
    if from < table.count {
      TableMember(scheme, table, from + 1, action);
    }
  }

  lemma {:induction false} MembersMember(members: MemberTable, from: nat, action: Action)
    ensures action in MemberActions(members, from) <==>
            exists index :: from <= index < |members|
              && action == Descend(members[index], ArchiveLayer(Some(index)))
    decreases |members| - from
  {
    if from < |members| {
      MembersMember(members, from + 1, action);
    }
  }

  // Membership in a plan, family by family.
  ghost predicate Offered(reg: Openers, creds: Credentials, w: SniffWindow, source: Source, action: Action) {
    || (exists o :: o in reg.filesystems && action in FsOffers(w, source)(o))
    || (exists o :: o in reg.volumeSystems && action in VolumeOffers(w, source)(o))
    || (exists o :: o in reg.encryption && action in SignatureOffers(w, source, creds)(o))
    || (exists o :: o in reg.containers && action in ContainerOffers(w, source)(o))
    || (exists o :: o in reg.archives && action in ArchiveOffers(w, source)(o))
    || (exists o :: o in reg.encryption && action in GuessOffers(w, source, creds)(o))
  }

  lemma PlanMember(reg: Openers, creds: Credentials, source: Source, action: Action)
    requires SniffSource(source).Ok?
    ensures action in Plan(reg, creds, source) <==>
            Offered(reg, creds, SniffSource(source).value, source, action)
  {
    var w := SniffSource(source).value;
    GatherMember(reg.filesystems, FsOffers(w, source), action);
    GatherMember(reg.volumeSystems, VolumeOffers(w, source), action);
    GatherMember(reg.encryption, SignatureOffers(w, source, creds), action);
    GatherMember(reg.containers, ContainerOffers(w, source), action);
    GatherMember(reg.archives, ArchiveOffers(w, source), action);
    GatherMember(reg.encryption, GuessOffers(w, source, creds), action);
  }

  // A node's descents are exactly the peels its registered openers justify.
  lemma DescentsArePeels(reg: Openers, creds: Credentials, source: Source, hop: Hop)
    requires SniffSource(source).Ok?
    ensures Peels(reg, creds, source, hop) <==>
            Descend(hop.child, hop.layer) in Plan(reg, creds, source)
  {
    var w := SniffSource(source).value;
    var action := Descend(hop.child, hop.layer);
    PlanMember(reg, creds, source, action);
    if Offered(reg, creds, w, source, action) {
      OfferedIsPeel(reg, creds, w, source, action);
    }
    if Peels(reg, creds, source, hop) {
      PeelIsOffered(reg, creds, w, source, hop);
    }
  }

  lemma OfferedIsPeel(reg: Openers, creds: Credentials, w: SniffWindow, source: Source, action: Action)
    requires SniffSource(source) == Ok(w) && Offered(reg, creds, w, source, action) && action.Descend?
    ensures Peels(reg, creds, source, Hop(action.layer, action.child))
  {
    var hop := Hop(action.layer, action.child);
    assert forall o :: action in FsOffers(w, source)(o) ==> action == MountAction(o, source);
    if o :| o in reg.volumeSystems && action in VolumeOffers(w, source)(o) {
      TableMember(o.scheme, o.open(source).value, 0, action);
      var index :| 0 <= index < o.open(source).value.count
                   && action == VolumeAction(o.scheme, o.open(source).value, index);
      assert VolumePeel(o, index, w, source, hop);
    } else if o :| o in reg.encryption && action in SignatureOffers(w, source, creds)(o) {
      assert CipherPeel(o, creds, w, source, hop);
    } else if o :| o in reg.containers && action in ContainerOffers(w, source)(o) {
      assert ContainerPeel(o, w, source, hop);
    } else if o :| o in reg.archives && action in ArchiveOffers(w, source)(o) {
      if o.open(source).value.Members? {
        MembersMember(o.open(source).value.members, 0, action);
      }
      assert ArchivePeel(o, w, source, hop);
    } else if o :| o in reg.encryption && action in GuessOffers(w, source, creds)(o) {
      assert CipherPeel(o, creds, w, source, hop);
    }
  }

  lemma PeelIsOffered(reg: Openers, creds: Credentials, w: SniffWindow, source: Source, hop: Hop)
    requires SniffSource(source) == Ok(w) && Peels(reg, creds, source, hop)
    ensures Offered(reg, creds, w, source, Descend(hop.child, hop.layer))
  {
    var action := Descend(hop.child, hop.layer);
    if o, index :| o in reg.volumeSystems && VolumePeel(o, index, w, source, hop) {
      TableMember(o.scheme, o.open(source).value, 0, action);
      assert action == VolumeAction(o.scheme, o.open(source).value, index);
      assert action in VolumeOffers(w, source)(o);
    } else if o :| o in reg.encryption && CipherPeel(o, creds, w, source, hop) {
      if o.probe(w).Yes? {
        assert action in SignatureOffers(w, source, creds)(o);
      } else {
        assert action in GuessOffers(w, source, creds)(o);
      }
    } else if o :| o in reg.containers && ContainerPeel(o, w, source, hop) {
      assert action in ContainerOffers(w, source)(o);
    } else if o :| o in reg.archives && ArchivePeel(o, w, source, hop) {
      if o.open(source).value.Members? {
        MembersMember(o.open(source).value.members, 0, action);
      }
      assert action in ArchiveOffers(w, source)(o);
    }
  }

  ghost predicate AllDescend(actions: seq<Action>) {
    forall a :: a in actions ==> a.Descend?
  }

  // A plan with no failure and no mount is exactly a quiet node.
  lemma {:induction false} QuietIsAllDescents(reg: Openers, creds: Credentials, source: Source)
    ensures Quiet(reg, creds, source) <==> AllDescend(Plan(reg, creds, source))
  {
    if SniffSource(source).Err? {
      assert Fail(SniffSource(source).error) in Plan(reg, creds, source);
    } else {
      var w := SniffSource(source).value;
      if Quiet(reg, creds, source) {
        forall a | a in Plan(reg, creds, source) ensures a.Descend? {
          PlanMember(reg, creds, source, a);
          QuietOffers(reg, creds, w, source, a);
        }
      }
      if AllDescend(Plan(reg, creds, source)) {
        forall a | Offered(reg, creds, w, source, a) ensures a.Descend? {
          PlanMember(reg, creds, source, a);
        }
        DescentsAreQuiet(reg, creds, w, source);
      }
    }
  }

  lemma QuietOffers(reg: Openers, creds: Credentials, w: SniffWindow, source: Source, action: Action)
    requires SniffSource(source) == Ok(w) && Quiet(reg, creds, source)
    requires Offered(reg, creds, w, source, action)
    ensures action.Descend?
  {
    if o :| o in reg.volumeSystems && action in VolumeOffers(w, source)(o) {
      TableMember(o.scheme, o.open(source).value, 0, action);
    } else if o :| o in reg.archives && action in ArchiveOffers(w, source)(o) {
      if o.open(source).value.Members? {
        MembersMember(o.open(source).value.members, 0, action);
      }
    }
  }

  lemma DescentsAreQuiet(reg: Openers, creds: Credentials, w: SniffWindow, source: Source)
    requires SniffSource(source) == Ok(w)
    requires forall a :: Offered(reg, creds, w, source, a) ==> a.Descend?
    ensures Quiet(reg, creds, source)
  {
    forall o | o in reg.filesystems ensures o.probe(w).No? {
      if !o.probe(w).No? {
        assert MountAction(o, source) in FsOffers(w, source)(o);
        assert Offered(reg, creds, w, source, MountAction(o, source));
      }
    }
    forall o | o in reg.volumeSystems && !o.probe(w).No?
      ensures o.open(source).Ok? && AllVolumesOpen(o.open(source).value)
    {
      if o.open(source).Err? {
        assert Fail(o.open(source).error) in VolumeOffers(w, source)(o);
        assert Offered(reg, creds, w, source, Fail(o.open(source).error));
      } else {
        var table := o.open(source).value;
        forall index: nat | index < table.count ensures table.openVolume(index).Ok? {
          TableMember(o.scheme, table, 0, VolumeAction(o.scheme, table, index));
          assert VolumeAction(o.scheme, table, index) in VolumeOffers(w, source)(o);
          assert Offered(reg, creds, w, source, VolumeAction(o.scheme, table, index));
        }
      }
    }
    forall o | o in reg.encryption && !o.probe(w).No?
      ensures o.open(source).Ok? && (o.probe(w).Yes? ==> o.open(source).value.decrypt(creds).Ok?)
    {
      if o.probe(w).Yes? {
        assert SignatureAction(o, source, creds) in SignatureOffers(w, source, creds)(o);
        assert Offered(reg, creds, w, source, SignatureAction(o, source, creds));
      } else if o.open(source).Err? {
        assert Fail(o.open(source).error) in GuessOffers(w, source, creds)(o);
        assert Offered(reg, creds, w, source, Fail(o.open(source).error));
      }
    }
    forall o | o in reg.containers && !o.probe(w).No? ensures o.open(source).Ok? {
      assert DecodeAction(o, source) in ContainerOffers(w, source)(o);
      assert Offered(reg, creds, w, source, DecodeAction(o, source));
    }
    forall o | o in reg.archives && !o.probe(w).No? ensures o.open(source).Ok? {
      if o.open(source).Err? {
        assert Fail(o.open(source).error) in ArchiveOffers(w, source)(o);
        assert Offered(reg, creds, w, source, Fail(o.open(source).error));
      }
    }
  }

  // ---- the clean unknown ----

  // Every node reached within the remaining budget is quiet.
  ghost predicate QuietWithin(reg: Openers, creds: Credentials, source: Source, depth: nat) {
    forall hops :: Follows(reg, creds, source, hops) && |hops| + depth <= 8
                   ==> Quiet(reg, creds, End(source, hops))
  }

  lemma {:induction false} ExpandEmpty(reg: Openers, creds: Credentials, actions: seq<Action>,
                                       source: Source, spec: Locator, depth: nat)
    requires depth <= 8
    ensures Expand(reg, creds, actions, source, spec, depth) == [] <==>
            forall a :: a in actions ==> ExpandOne(reg, creds, a, source, spec, depth) == []
    decreases |actions|
  {
    if actions == [] {
    } else {
      ExpandEmpty(reg, creds, actions[1..], source, spec, depth);
      var head := ExpandOne(reg, creds, actions[0], source, spec, depth);
      var tail := Expand(reg, creds, actions[1..], source, spec, depth);
      assert Expand(reg, creds, actions, source, spec, depth) == head + tail;
      assert |head + tail| == |head| + |tail|;
      forall a | a in actions && head + tail == []
        ensures ExpandOne(reg, creds, a, source, spec, depth) == []
      {
        assert a == actions[0] || a in actions[1..];
      }
      assert actions[0] in actions;
      assert forall a :: a in actions[1..] ==> a in actions;
    }
  }

  // The action descends, and its whole subtree offers nothing.
  ghost predicate EmptyBelow(reg: Openers, creds: Credentials, action: Action, spec: Locator, depth: nat) {
    action.Descend? && Enumerate(reg, creds, action.child, spec.Push(action.layer), depth + 1) == []
  }

  lemma EmptyIsAllDescents(reg: Openers, creds: Credentials, source: Source, spec: Locator, depth: nat)
    requires depth <= 8
    ensures Enumerate(reg, creds, source, spec, depth) == [] <==>
            forall a :: a in Plan(reg, creds, source) ==> EmptyBelow(reg, creds, a, spec, depth)
  {
    var plan := Plan(reg, creds, source);
    forall a | a in plan
      ensures ExpandOne(reg, creds, a, source, spec, depth) == [] <==> EmptyBelow(reg, creds, a, spec, depth)
    {
      ExpandOneEmpty(reg, creds, a, source, spec, depth);
    }
    ExpandEmpty(reg, creds, plan, source, spec, depth);
    EnumerateIsPlan(reg, creds, source, spec, depth);
  }

  lemma ExpandOneEmpty(reg: Openers, creds: Credentials, action: Action, source: Source, spec: Locator, depth: nat)
    requires depth <= 8
    ensures ExpandOne(reg, creds, action, source, spec, depth) == [] <==> EmptyBelow(reg, creds, action, spec, depth)
  {
  }

  // `Ok(None)` means exactly this: no reachable node mounts, fails to sniff, or
  // fails to open anything but a last-resort decrypt. Both directions, any depth.
  lemma CleanUnknown(reg: Openers, source: Source, spec: Locator, depth: nat, creds: Credentials)
    ensures OpenWithCredentials(reg, source, spec, depth, creds) == Ok(None)
            <==> QuietWithin(reg, creds, source, depth)
  {
    OpenIsFirstOutcome(reg, source, spec, depth, creds);
    if Enumerate(reg, creds, source, spec, depth) == [] {
      forall hops: seq<Hop> | Follows(reg, creds, source, hops) && |hops| + depth <= 8
        ensures Quiet(reg, creds, End(source, hops))
      {
        var end := End(source, hops);
        EmptyReaches(reg, creds, source, spec, depth, hops, end);
        QuietIsAllDescents(reg, creds, end);
      }
    }
    if QuietWithin(reg, creds, source, depth) {
      forall hops: seq<Hop> | Follows(reg, creds, source, hops) && |hops| + depth <= 8
        ensures AllDescend(Plan(reg, creds, End(source, hops)))
      {
        QuietIsAllDescents(reg, creds, End(source, hops));
      }
      DescentsOnlyIsEmpty(reg, creds, source, spec, depth);
    }
  }

  ghost predicate DescentsOnly(reg: Openers, creds: Credentials, source: Source, depth: nat) {
    forall hops :: Follows(reg, creds, source, hops) && |hops| + depth <= 8
                   ==> AllDescend(Plan(reg, creds, End(source, hops)))
  }

  lemma EmptyHere(reg: Openers, creds: Credentials, source: Source, spec: Locator, depth: nat)
    requires depth <= 8 && Enumerate(reg, creds, source, spec, depth) == []
    ensures AllDescend(Plan(reg, creds, source))
  {
    EmptyIsAllDescents(reg, creds, source, spec, depth);
  }

  lemma {:induction false} EmptyReaches(reg: Openers, creds: Credentials, source: Source, spec: Locator,
                                        depth: nat, hops: seq<Hop>, end: Source)
    requires Enumerate(reg, creds, source, spec, depth) == []
    requires Follows(reg, creds, source, hops) && |hops| + depth <= 8
    requires end == End(source, hops)
    ensures AllDescend(Plan(reg, creds, end))
    decreases |hops|
  {
    hide Plan, AllDescend, Peels, Enumerate;
    if hops == [] {
      EmptyHere(reg, creds, source, spec, depth);
    } else {
      EmptyReachesHop(reg, creds, source, spec, depth, hops[0]);
      EmptyReaches(reg, creds, hops[0].child, spec.Push(hops[0].layer), depth + 1, hops[1..], end);
    }
  }

  lemma DescentsOnlyHere(reg: Openers, creds: Credentials, source: Source, depth: nat)
    requires depth <= 8 && DescentsOnly(reg, creds, source, depth)
    ensures AllDescend(Plan(reg, creds, source))
  {
    hide Plan, AllDescend;
    assert Follows(reg, creds, source, []) && End(source, []) == source;
  }

  lemma {:induction false} DescentsOnlyIsEmpty(reg: Openers, creds: Credentials, source: Source,
                                               spec: Locator, depth: nat)
    requires DescentsOnly(reg, creds, source, depth)
    ensures Enumerate(reg, creds, source, spec, depth) == []
    decreases 9 - depth
  {
    if depth > 8 {
    } else {
      hide Plan, Peels, SniffSource, DescentsOnly, Enumerate;
      DescentsOnlyHere(reg, creds, source, depth);
      PlanSniffs(reg, creds, source);
      forall a | a in Plan(reg, creds, source) ensures EmptyBelow(reg, creds, a, spec, depth) {
        DescentsOnlyBelow(reg, creds, source, depth, a);
        DescentsOnlyIsEmpty(reg, creds, a.child, spec.Push(a.layer), depth + 1);
      }
      EmptyIsAllDescents(reg, creds, source, spec, depth);
    }
  }

  lemma PlanSniffs(reg: Openers, creds: Credentials, source: Source)
    requires AllDescend(Plan(reg, creds, source))
    ensures SniffSource(source).Ok?
  {
    SniffFailureShows(reg, creds, source);
  }

  lemma SniffFailureShows(reg: Openers, creds: Credentials, source: Source)
    ensures SniffSource(source).Err? ==> exists a :: a in Plan(reg, creds, source) && a.Fail?
  {
    if SniffSource(source).Err? {
      assert Fail(SniffSource(source).error) in Plan(reg, creds, source);
    }
  }

  lemma EmptyReachesHop(reg: Openers, creds: Credentials, source: Source, spec: Locator, depth: nat, hop: Hop)
    requires depth <= 8 && Enumerate(reg, creds, source, spec, depth) == []
    requires Peels(reg, creds, source, hop)
    ensures Enumerate(reg, creds, hop.child, spec.Push(hop.layer), depth + 1) == []
  {
    EmptyIsAllDescents(reg, creds, source, spec, depth);
    DescentsArePeels(reg, creds, source, hop);
    assert EmptyBelow(reg, creds, Descend(hop.child, hop.layer), spec, depth);
  }

  lemma DescentsOnlyBelow(reg: Openers, creds: Credentials, source: Source, depth: nat, action: Action)
    requires depth <= 8 && DescentsOnly(reg, creds, source, depth)
    requires SniffSource(source).Ok? && action in Plan(reg, creds, source) && action.Descend?
    ensures DescentsOnly(reg, creds, action.child, depth + 1)
  {
    hide Plan;
    var hop := Hop(action.layer, action.child);
    DescentsArePeels(reg, creds, source, hop);
    forall hops: seq<Hop> | Follows(reg, creds, action.child, hops) && |hops| + (depth + 1) <= 8
      ensures AllDescend(Plan(reg, creds, End(action.child, hops)))
    {
      var longer := [hop] + hops;
      assert longer[1..] == hops;
      assert Follows(reg, creds, source, longer);
      assert End(source, longer) == End(action.child, hops);
    }
  }
}
