/** A success can be replayed: every recorded layer is justified, and in order. */
module Replay {
  import opened Basics
  import opened Locators
  import opened Registry
  import opened Sniff
  import opened Resolver
  import opened Enumeration
  import opened ResolverRefinement
  import opened CleanUnknowns

  // The k-th registered filesystem is the first whose probe accepts the source,
  // and it is the one that was mounted.
  ghost predicate MountedBy(reg: Openers, k: nat, found: Resolved) {
    && SniffSource(found.source).Ok?
    && var w := SniffSource(found.source).value;
       && k < |reg.filesystems|
       && !reg.filesystems[k].probe(w).No?
       && (forall i :: 0 <= i < k ==> reg.filesystems[i].probe(w).No?)
       && reg.filesystems[k].open(found.source) == Ok(found.fs)
       && found.spec == found.sourceSpec.Push(FsLayer(reg.filesystems[k].kind, Path([])))
  }

  // The first action that leads anywhere decides.
  lemma {:induction false} FirstLeading(reg: Openers, creds: Credentials, actions: seq<Action>,
                                        source: Source, spec: Locator, depth: nat) returns (j: nat)
    requires depth <= 8 && Expand(reg, creds, actions, source, spec, depth) != []
    ensures j < |actions|
    ensures forall i :: 0 <= i < j ==> ExpandOne(reg, creds, actions[i], source, spec, depth) == []
    ensures ExpandOne(reg, creds, actions[j], source, spec, depth) != []
    ensures First(Expand(reg, creds, actions, source, spec, depth))
         == First(ExpandOne(reg, creds, actions[j], source, spec, depth))
    decreases |actions|
  {
    if ExpandOne(reg, creds, actions[0], source, spec, depth) != [] {
      j := 0;
    } else {
      var later := FirstLeading(reg, creds, actions[1..], source, spec, depth);
      j := later + 1;
      forall i | 0 <= i < j ensures ExpandOne(reg, creds, actions[i], source, spec, depth) == [] {
        if i > 0 { assert actions[i] == actions[1..][i - 1]; }
      }
    }
  }

  lemma {:induction false} FirstFsOffer(filesystems: seq<FileSystemOpen>, w: SniffWindow, source: Source)
    returns (k: nat)
    requires Gather(filesystems, FsOffers(w, source)) != []
    ensures k < |filesystems| && !filesystems[k].probe(w).No?
    ensures forall i :: 0 <= i < k ==> filesystems[i].probe(w).No?
    ensures Gather(filesystems, FsOffers(w, source))[0] == MountAction(filesystems[k], source)
  {
    if !filesystems[0].probe(w).No? {
      k := 0;
    } else {
      var later := FirstFsOffer(filesystems[1..], w, source);
      k := later + 1;
      assert forall i :: 0 < i < k ==> filesystems[i] == filesystems[1..][i - 1];
    }
  }

  // A mount that nothing earlier pre-empts comes from the first candidate prober.
  lemma MountComesFirst(reg: Openers, creds: Credentials, w: SniffWindow, source: Source, spec: Locator,
                        depth: nat, j: nat) returns (k: nat)
    requires depth <= 8 && SniffSource(source) == Ok(w)
    requires j < |Plan(reg, creds, source)| && Plan(reg, creds, source)[j].Mount?
    requires forall i :: 0 <= i < j ==> ExpandOne(reg, creds, Plan(reg, creds, source)[i], source, spec, depth) == []
    ensures k < |reg.filesystems| && !reg.filesystems[k].probe(w).No?
    ensures forall i :: 0 <= i < k ==> reg.filesystems[i].probe(w).No?
    ensures Plan(reg, creds, source)[j] == MountAction(reg.filesystems[k], source)
  {
    var plan := Plan(reg, creds, source);
    var fs := Gather(reg.filesystems, FsOffers(w, source));
    MountIsFsOffer(reg, creds, w, source, plan[j]);
    assert plan[0] == fs[0];
    k := FirstFsOffer(reg.filesystems, w, source);
    assert ExpandOne(reg, creds, plan[0], source, spec, depth) != [];
    assert j == 0;
  }

  lemma VolumesDoNotMount(o: VolumeSystemOpen, w: SniffWindow, source: Source, action: Action)
    requires action in VolumeOffers(w, source)(o)
    ensures !action.Mount?
  {
    if o.open(source).Ok? {
      TableMember(o.scheme, o.open(source).value, 0, action);
    }
  }

  lemma CiphersDoNotMount(o: EncryptionOpen, creds: Credentials, w: SniffWindow, source: Source, action: Action)
    requires action in SignatureOffers(w, source, creds)(o) || action in GuessOffers(w, source, creds)(o)
    ensures !action.Mount?
  {
    if action in SignatureOffers(w, source, creds)(o) {
      assert action == SignatureAction(o, source, creds);
    } else {
      assert action in GuessActions(o, source, creds);
    }
  }

  lemma ContainersDoNotMount(o: ContainerOpen, w: SniffWindow, source: Source, action: Action)
    requires action in ContainerOffers(w, source)(o)
    ensures !action.Mount?
  {
    assert action == DecodeAction(o, source);
  }

  lemma ArchivesDoNotMount(o: ArchiveOpen, w: SniffWindow, source: Source, action: Action)
    requires action in ArchiveOffers(w, source)(o)
    ensures !action.Mount?
  {
    if o.open(source).Ok? && o.open(source).value.Members? {
      MembersMember(o.open(source).value.members, 0, action);
    }
  }

  lemma MountIsFsOffer(reg: Openers, creds: Credentials, w: SniffWindow, source: Source, action: Action)
    requires SniffSource(source) == Ok(w) && action in Plan(reg, creds, source) && action.Mount?
    ensures action in Gather(reg.filesystems, FsOffers(w, source))
  {
    PlanMember(reg, creds, source, action);
    GatherMember(reg.filesystems, FsOffers(w, source), action);
    forall o | action in VolumeOffers(w, source)(o) ensures false {
      VolumesDoNotMount(o, w, source, action);
    }
    forall o | action in SignatureOffers(w, source, creds)(o) || action in GuessOffers(w, source, creds)(o)
      ensures false
    {
      CiphersDoNotMount(o, creds, w, source, action);
    }
    forall o | action in ContainerOffers(w, source)(o) ensures false {
      ContainersDoNotMount(o, w, source, action);
    }
    forall o | action in ArchiveOffers(w, source)(o) ensures false {
      ArchivesDoNotMount(o, w, source, action);
    }
  }

  lemma FollowsOneMore(reg: Openers, creds: Credentials, source: Source, hop: Hop, rest: seq<Hop>)
    requires SniffSource(source).Ok? && Descend(hop.child, hop.layer) in Plan(reg, creds, source)
    requires Follows(reg, creds, hop.child, rest)
    ensures Follows(reg, creds, source, [hop] + rest)
  {
    DescentsArePeels(reg, creds, source, hop);
    assert ([hop] + rest)[1..] == rest;
  }

  // Either the node itself mounted, or some child descent found the answer.
  lemma SuccessStep(reg: Openers, source: Source, spec: Locator, depth: nat, creds: Credentials, found: Resolved)
    returns (action: Action, k: nat)
    requires OpenWithCredentials(reg, source, spec, depth, creds) == Ok(Some(found))
    ensures depth <= 8 && SniffSource(source).Ok?
    ensures action in Plan(reg, creds, source) && !action.Fail?
    ensures action.Mount? ==> found.source == source && found.sourceSpec == spec && MountedBy(reg, k, found)
    ensures action.Descend? ==>
              OpenWithCredentials(reg, action.child, spec.Push(action.layer), depth + 1, creds) == Ok(Some(found))
  {
    OpenIsFirstOutcome(reg, source, spec, depth, creds);
    EnumerateIsPlan(reg, creds, source, spec, depth);
    var plan := Plan(reg, creds, source);
    var j := FirstLeading(reg, creds, plan, source, spec, depth);
    action := plan[j];
    if action.Mount? {
      k := MountComesFirst(reg, creds, SniffSource(source).value, source, spec, depth, j);
    } else {
      k := 0;
      DescentKeepsFirst(reg, creds, action, source, spec, depth);
    }
  }

  lemma DescentKeepsFirst(reg: Openers, creds: Credentials, action: Action, source: Source, spec: Locator, depth: nat)
    requires depth <= 8 && action.Descend?
    ensures First(ExpandOne(reg, creds, action, source, spec, depth))
         == OpenWithCredentials(reg, action.child, spec.Push(action.layer), depth + 1, creds)
  {
    OpenIsFirstOutcome(reg, action.child, spec.Push(action.layer), depth + 1, creds);
  }

  // On success the locator replays: it extends the starting locator by at most
  // the remaining budget of layers, each peeled by a registered candidate opener
  // from the source before it, ending at the returned source, where the first
  // candidate filesystem was mounted.
  lemma {:induction false} SuccessReplays(reg: Openers, source: Source, spec: Locator, depth: nat,
                                          creds: Credentials, found: Resolved)
    returns (hops: seq<Hop>, k: nat)
    requires OpenWithCredentials(reg, source, spec, depth, creds) == Ok(Some(found))
    ensures |hops| + depth <= 8
    ensures Follows(reg, creds, source, hops)
    ensures found.source == End(source, hops)
    ensures found.sourceSpec == spec.PushAll(HopLayers(hops))
    ensures MountedBy(reg, k, found)
    decreases 9 - depth
  {
    hide Plan, OpenWithCredentials, MountedBy;
    var action, here := SuccessStep(reg, source, spec, depth, creds, found);
    if action.Mount? {
      hops, k := [], here;
    } else {
      var hop := Hop(action.layer, action.child);
      var rest;
      rest, k := SuccessReplays(reg, action.child, spec.Push(action.layer), depth + 1, creds, found);
      hops := [hop] + rest;
      FollowsOneMore(reg, creds, source, hop, rest);
      assert HopLayers(hops) == [action.layer] + HopLayers(rest);
      assert End(source, hops) == End(action.child, rest);
    }
  }

  // ---- failures replay too ----

  // A read of the node, or some open that a candidate opener calls for, fails with `e`.
  ghost predicate Raises(reg: Openers, creds: Credentials, source: Source, e: Error) {
    || SniffSource(source) == Err(e)
    || (&& SniffSource(source).Ok?
        && var w := SniffSource(source).value;
           || (exists o :: o in reg.filesystems && !o.probe(w).No? && o.open(source) == Err(e))
           || (exists o :: o in reg.volumeSystems && !o.probe(w).No? && VolumeRaises(o, source, e))
           || (exists o :: o in reg.encryption && !o.probe(w).No? && CipherRaises(o, creds, w, source, e))
           || (exists o :: o in reg.containers && !o.probe(w).No? && o.open(source) == Err(e))
           || (exists o :: o in reg.archives && !o.probe(w).No? && o.open(source) == Err(e)))
  }

  ghost predicate VolumeRaises(o: VolumeSystemOpen, source: Source, e: Error) {
    match o.open(source)
    case Err(raised) => raised == e
    case Ok(table) => exists index: nat :: index < table.count && table.openVolume(index) == Err(e)
  }

  // A failed decrypt counts only behind a `Yes`.
  ghost predicate CipherRaises(o: EncryptionOpen, creds: Credentials, w: SniffWindow, source: Source, e: Error) {
    match o.open(source)
    case Err(raised) => raised == e
    case Ok(layer) => o.probe(w).Yes? && layer.decrypt(creds) == Err(e)
  }

  lemma FilesystemFailure(reg: Openers, creds: Credentials, w: SniffWindow, source: Source, o: FileSystemOpen, e: Error)
    requires SniffSource(source) == Ok(w) && o in reg.filesystems && Fail(e) in FsOffers(w, source)(o)
    ensures Raises(reg, creds, source, e)
  {
    assert Fail(e) == MountAction(o, source);
  }

  lemma VolumeFailure(reg: Openers, creds: Credentials, w: SniffWindow, source: Source, o: VolumeSystemOpen, e: Error)
    requires SniffSource(source) == Ok(w) && o in reg.volumeSystems && Fail(e) in VolumeOffers(w, source)(o)
    ensures Raises(reg, creds, source, e)
  {
    if o.open(source).Ok? {
      TableMember(o.scheme, o.open(source).value, 0, Fail(e));
    }
    assert VolumeRaises(o, source, e);
  }

  lemma CipherFailure(reg: Openers, creds: Credentials, w: SniffWindow, source: Source, o: EncryptionOpen, e: Error)
    requires SniffSource(source) == Ok(w) && o in reg.encryption
    requires Fail(e) in SignatureOffers(w, source, creds)(o) || Fail(e) in GuessOffers(w, source, creds)(o)
    ensures Raises(reg, creds, source, e)
  {
    assert CipherRaises(o, creds, w, source, e);
  }

  lemma ContainerFailure(reg: Openers, creds: Credentials, w: SniffWindow, source: Source, o: ContainerOpen, e: Error)
    requires SniffSource(source) == Ok(w) && o in reg.containers && Fail(e) in ContainerOffers(w, source)(o)
    ensures Raises(reg, creds, source, e)
  {
    assert Fail(e) == DecodeAction(o, source);
  }

  lemma ArchiveFailure(reg: Openers, creds: Credentials, w: SniffWindow, source: Source, o: ArchiveOpen, e: Error)
    requires SniffSource(source) == Ok(w) && o in reg.archives && Fail(e) in ArchiveOffers(w, source)(o)
    ensures Raises(reg, creds, source, e)
  {
    if o.open(source).Ok? && o.open(source).value.Members? {
      MembersMember(o.open(source).value.members, 0, Fail(e));
    }
  }

  lemma FailureIsRaised(reg: Openers, creds: Credentials, source: Source, e: Error)
    requires Fail(e) in Plan(reg, creds, source)
    ensures Raises(reg, creds, source, e)
  {
    if SniffSource(source).Ok? {
      var w := SniffSource(source).value;
      PlanMember(reg, creds, source, Fail(e));
      hide *;
      if o :| o in reg.filesystems && Fail(e) in FsOffers(w, source)(o) {
        FilesystemFailure(reg, creds, w, source, o, e);
      } else if o :| o in reg.volumeSystems && Fail(e) in VolumeOffers(w, source)(o) {
        VolumeFailure(reg, creds, w, source, o, e);
      } else if o :| o in reg.encryption && Fail(e) in SignatureOffers(w, source, creds)(o) {
        CipherFailure(reg, creds, w, source, o, e);
      } else if o :| o in reg.containers && Fail(e) in ContainerOffers(w, source)(o) {
        ContainerFailure(reg, creds, w, source, o, e);
      } else if o :| o in reg.archives && Fail(e) in ArchiveOffers(w, source)(o) {
        ArchiveFailure(reg, creds, w, source, o, e);
      } else if o :| o in reg.encryption && Fail(e) in GuessOffers(w, source, creds)(o) {
        CipherFailure(reg, creds, w, source, o, e);
      }
    }
  }

  // Either the node itself failed, or some child descent did.
  lemma FailureStep(reg: Openers, source: Source, spec: Locator, depth: nat, creds: Credentials, e: Error)
    returns (action: Action)
    requires OpenWithCredentials(reg, source, spec, depth, creds) == Err(e)
    ensures depth <= 8 && action in Plan(reg, creds, source)
    ensures action == Fail(e) || (action.Descend? && SniffSource(source).Ok? &&
              OpenWithCredentials(reg, action.child, spec.Push(action.layer), depth + 1, creds) == Err(e))
  {
    OpenIsFirstOutcome(reg, source, spec, depth, creds);
    EnumerateIsPlan(reg, creds, source, spec, depth);
    var j := FirstLeading(reg, creds, Plan(reg, creds, source), source, spec, depth);
    action := Plan(reg, creds, source)[j];
    if action.Descend? {
      DescentKeepsFirst(reg, creds, action, source, spec, depth);
    }
  }

  // An error is never invented: it was raised at a node that registered openers
  // reach within the budget, by that node's read or by an open it called for.
  lemma {:induction false} FailureReplays(reg: Openers, source: Source, spec: Locator, depth: nat,
                                          creds: Credentials, e: Error)
    returns (hops: seq<Hop>)
    requires OpenWithCredentials(reg, source, spec, depth, creds) == Err(e)
    ensures |hops| + depth <= 8
    ensures Follows(reg, creds, source, hops)
    ensures Raises(reg, creds, End(source, hops), e)
    decreases 9 - depth
  {
    hide Plan, OpenWithCredentials, Raises;
    var action := FailureStep(reg, source, spec, depth, creds, e);
    if action == Fail(e) {
      hops := [];
      FailureIsRaised(reg, creds, source, e);
      assert End(source, hops) == source;
    } else {
      var hop := Hop(action.layer, action.child);
      var rest := FailureReplays(reg, action.child, spec.Push(action.layer), depth + 1, creds, e);
      hops := [hop] + rest;
      FollowsOneMore(reg, creds, source, hop, rest);
      assert End(source, hops) == End(action.child, rest);
    }
  }
}
