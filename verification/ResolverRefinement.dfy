/** The backtracking resolver returns the first outcome of the declarative enumeration. */
module ResolverRefinement {
  import opened Basics
  import opened Locators
  import opened Registry
  import opened Sniff
  import opened Resolver
  import opened Enumeration

  // The induction hypothesis: at `depth`, code and enumeration agree.
  ghost predicate AgreesAt(reg: Openers, creds: Credentials, depth: nat) {
    forall s: Source, l: Locator :: Agrees(reg, creds, s, l, depth)
  }

  ghost predicate Agrees(reg: Openers, creds: Credentials, source: Source, spec: Locator, depth: nat) {
    OpenWithCredentials(reg, source, spec, depth, creds) == First(Enumerate(reg, creds, source, spec, depth))
  }

  // First of what `actions` expand to.
  ghost function FirstOf(reg: Openers, creds: Credentials, actions: seq<Action>,
                         source: Source, spec: Locator, depth: nat): VfsResult<Option<Resolved>>
    requires depth <= 8
  {
    First(Expand(reg, creds, actions, source, spec, depth))
  }

  // Sequencing on the code's side: go on only after a clean miss.
  ghost function Then(first: VfsResult<Option<Resolved>>, second: VfsResult<Option<Resolved>>)
    : VfsResult<Option<Resolved>>
  {
    if first == Ok(None) then second else first
  }

  lemma FirstOfAppend(reg: Openers, creds: Credentials, a: seq<Action>, b: seq<Action>,
                      source: Source, spec: Locator, depth: nat)
    requires depth <= 8
    ensures FirstOf(reg, creds, a + b, source, spec, depth)
         == Then(FirstOf(reg, creds, a, source, spec, depth), FirstOf(reg, creds, b, source, spec, depth))
  {
    ExpandAppend(reg, creds, a, b, source, spec, depth);
  }

  lemma FirstOfNone(reg: Openers, creds: Credentials, source: Source, spec: Locator, depth: nat)
    requires depth <= 8
    ensures FirstOf(reg, creds, [], source, spec, depth) == Ok(None)
  {
  }

  lemma GatherFrom<O>(openers: seq<O>, offers: O -> seq<Action>, i: nat)
    requires i < |openers|
    ensures Gather(openers[i..], offers) == offers(openers[i]) + Gather(openers[i + 1..], offers)
  {
    assert openers[i..][0] == openers[i] && openers[i..][1..] == openers[i + 1..];
  }

  lemma FirstOfOne(reg: Openers, creds: Credentials, action: Action, source: Source, spec: Locator, depth: nat)
    requires depth <= 8 && AgreesAt(reg, creds, depth + 1)
    ensures FirstOf(reg, creds, [action], source, spec, depth) ==
            match action
            case Fail(e) => Err(e)
            case Mount(fs, kind) => Ok(Some(Resolved(fs, spec.Push(FsLayer(kind, Path([]))), source, spec)))
            case Descend(child, layer) => OpenWithCredentials(reg, child, spec.Push(layer), depth + 1, creds)
  {
    if action.Descend? {
      assert Agrees(reg, creds, action.child, spec.Push(action.layer), depth + 1);
    }
    assert [action][1..] == [];
    assert Expand(reg, creds, [], source, spec, depth) == [];
    var one := ExpandOne(reg, creds, action, source, spec, depth);
    assert Expand(reg, creds, [action], source, spec, depth) == one + [] == one;
  }

  lemma {:induction false} MountIsFirst(reg: Openers, creds: Credentials, filesystems: seq<FileSystemOpen>,
                                        w: SniffWindow, source: Source, spec: Locator, depth: nat)
    requires depth <= 8 && AgreesAt(reg, creds, depth + 1)
    ensures MountFilesystem(filesystems, w, source, spec)
         == FirstOf(reg, creds, Gather(filesystems, FsOffers(w, source)), source, spec, depth)
    decreases |filesystems|
  {
    if filesystems == [] {
    } else {
      MountIsFirst(reg, creds, filesystems[1..], w, source, spec, depth);
      var rest := Gather(filesystems[1..], FsOffers(w, source));
      if !filesystems[0].probe(w).No? {
        var action := MountAction(filesystems[0], source);
        FirstOfAppend(reg, creds, [action], rest, source, spec, depth);
        FirstOfOne(reg, creds, action, source, spec, depth);
      } else {
        assert [] + rest == rest;
      }
    }
  }

  lemma {:induction false} VolumesAreFirst(reg: Openers, creds: Credentials, scheme: VolumeScheme, table: VolumeTable,
                                           source: Source, spec: Locator, depth: nat, index: nat)
    requires depth <= 8 && AgreesAt(reg, creds, depth + 1)
    ensures DescendVolumes(reg, scheme, table, spec, depth, creds, index)
         == FirstOf(reg, creds, TableActions(scheme, table, index), source, spec, depth)
    decreases table.count - index
  {
    if index < table.count {
      VolumesAreFirst(reg, creds, scheme, table, source, spec, depth, index + 1);
      var action := VolumeAction(scheme, table, index);
      FirstOfAppend(reg, creds, [action], TableActions(scheme, table, index + 1), source, spec, depth);
      FirstOfOne(reg, creds, action, source, spec, depth);
    }
  }

  lemma {:induction false} VolumeSystemsAreFirst(reg: Openers, creds: Credentials, systems: seq<VolumeSystemOpen>,
                                                 w: SniffWindow, source: Source, spec: Locator, depth: nat)
    requires depth <= 8 && AgreesAt(reg, creds, depth + 1)
    ensures DescendVolumeSystems(reg, systems, w, source, spec, depth, creds)
         == FirstOf(reg, creds, Gather(systems, VolumeOffers(w, source)), source, spec, depth)
    decreases |systems|
  {
    if systems == [] {
    } else {
      VolumeSystemsAreFirst(reg, creds, systems[1..], w, source, spec, depth);
      var rest := Gather(systems[1..], VolumeOffers(w, source));
      if !systems[0].probe(w).No? {
        match systems[0].open(source)
        case Err(e) =>
          FirstOfAppend(reg, creds, [Fail(e)], rest, source, spec, depth);
          FirstOfOne(reg, creds, Fail(e), source, spec, depth);
        case Ok(table) =>
          FirstOfAppend(reg, creds, TableActions(systems[0].scheme, table, 0), rest, source, spec, depth);
          VolumesAreFirst(reg, creds, systems[0].scheme, table, source, spec, depth, 0);
      } else {
        assert [] + rest == rest;
      }
    }
  }

  // The indices, from `i` on, of the schemes whose verdict is `Maybe`.
  ghost function MaybeIndices(encs: seq<EncryptionOpen>, w: SniffWindow, i: nat): seq<nat>
    decreases |encs| - i
  {
    if i >= |encs| then []
    else (if encs[i].probe(w).Maybe? then [i] else []) + MaybeIndices(encs, w, i + 1)
  }

  // The eager pass: its answer is the first signature outcome, and after a clean
  // miss it has collected exactly the `Maybe` schemes, in registration order.
  lemma {:induction false} SignatureIsFirst(reg: Openers, creds: Credentials, w: SniffWindow, source: Source,
                                            spec: Locator, depth: nat, i: nat, attempts: seq<nat>)
    requires depth <= 8 && AgreesAt(reg, creds, depth + 1) && i <= |reg.encryption|
    ensures var pass := DescendSignatureEncryption(reg, w, source, spec, depth, creds, i, attempts);
            var signed := Gather(reg.encryption[i..], SignatureOffers(w, source, creds));
            var first := FirstOf(reg, creds, signed, source, spec, depth);
            && (match pass case Err(e) => first == Err(e) case Ok(p) => first == Ok(p.found))
            && (first == Ok(None) ==> pass.value.attempts == attempts + MaybeIndices(reg.encryption, w, i))
    decreases |reg.encryption| - i
  {
    if i >= |reg.encryption| {
      assert attempts + [] == attempts;
    } else {
      hide Gather, FirstOf, AgreesAt, OpenWithCredentials;
      var enc := reg.encryption[i];
      GatherFrom(reg.encryption, SignatureOffers(w, source, creds), i);
      var rest := Gather(reg.encryption[i + 1..], SignatureOffers(w, source, creds));
      match enc.probe(w)
      case Yes(_) =>
        var action := SignatureAction(enc, source, creds);
        FirstOfAppend(reg, creds, [action], rest, source, spec, depth);
        FirstOfOne(reg, creds, action, source, spec, depth);
        SignatureIsFirst(reg, creds, w, source, spec, depth, i + 1, attempts);
        assert [] + MaybeIndices(reg.encryption, w, i + 1) == MaybeIndices(reg.encryption, w, i + 1);
      case Maybe =>
        SignatureIsFirst(reg, creds, w, source, spec, depth, i + 1, attempts + [i]);
        assert [] + rest == rest;
        assert attempts + [i] + MaybeIndices(reg.encryption, w, i + 1)
            == attempts + ([i] + MaybeIndices(reg.encryption, w, i + 1));
      case No =>
        SignatureIsFirst(reg, creds, w, source, spec, depth, i + 1, attempts);
        assert [] + rest == rest;
        assert [] + MaybeIndices(reg.encryption, w, i + 1) == MaybeIndices(reg.encryption, w, i + 1);
    }
  }

  lemma {:induction false} AttemptsAreFirst(reg: Openers, creds: Credentials, w: SniffWindow, source: Source,
                                            spec: Locator, depth: nat, i: nat)
    requires depth <= 8 && AgreesAt(reg, creds, depth + 1) && i <= |reg.encryption|
    ensures DescendCredentialAttempts(reg, source, spec, depth, creds, MaybeIndices(reg.encryption, w, i))
         == FirstOf(reg, creds, Gather(reg.encryption[i..], GuessOffers(w, source, creds)), source, spec, depth)
    decreases |reg.encryption| - i
  {
    if i < |reg.encryption| {
      hide Gather, FirstOf, AgreesAt, OpenWithCredentials;
      var enc := reg.encryption[i];
      GatherFrom(reg.encryption, GuessOffers(w, source, creds), i);
      var rest := Gather(reg.encryption[i + 1..], GuessOffers(w, source, creds));
      var later := MaybeIndices(reg.encryption, w, i + 1);
      AttemptsAreFirst(reg, creds, w, source, spec, depth, i + 1);
      if enc.probe(w).Maybe? {
        assert ([i] + later)[0] == i && ([i] + later)[1..] == later;
        var actions := GuessActions(enc, source, creds);
        FirstOfAppend(reg, creds, actions, rest, source, spec, depth);
        if actions == [] {
          FirstOfNone(reg, creds, source, spec, depth);
        } else {
          FirstOfOne(reg, creds, actions[0], source, spec, depth);
        }
      } else {
        assert [] + rest == rest && [] + later == later;
      }
    }
  }

  lemma {:induction false} ContainersAreFirst(reg: Openers, creds: Credentials, containers: seq<ContainerOpen>,
                                              w: SniffWindow, source: Source, spec: Locator, depth: nat)
    requires depth <= 8 && AgreesAt(reg, creds, depth + 1)
    ensures DescendContainers(containers, w, source, spec, depth, DiskDescent(reg, depth, creds))
         == FirstOf(reg, creds, Gather(containers, ContainerOffers(w, source)), source, spec, depth)
    decreases |containers|
  {
    if containers == [] {
    } else {
      ContainersAreFirst(reg, creds, containers[1..], w, source, spec, depth);
      var rest := Gather(containers[1..], ContainerOffers(w, source));
      if !containers[0].probe(w).No? {
        var action := DecodeAction(containers[0], source);
        FirstOfAppend(reg, creds, [action], rest, source, spec, depth);
        FirstOfOne(reg, creds, action, source, spec, depth);
      } else {
        assert [] + rest == rest;
      }
    }
  }

  lemma {:induction false} MembersAreFirst(reg: Openers, creds: Credentials, members: MemberTable,
                                           source: Source, spec: Locator, depth: nat, index: nat)
    requires depth <= 8 && AgreesAt(reg, creds, depth + 1)
    ensures DescendMembers(members, spec, depth, DiskDescent(reg, depth, creds), index)
         == FirstOf(reg, creds, MemberActions(members, index), source, spec, depth)
    decreases |members| - index
  {
    if index < |members| {
      MembersAreFirst(reg, creds, members, source, spec, depth, index + 1);
      var recurse := DiskDescent(reg, depth, creds);
      var child := spec.Push(ArchiveLayer(Some(index)));
      assert recurse(members[index], child, depth + 1)
          == OpenWithCredentials(reg, members[index], child, depth + 1, creds);
      var action := Descend(members[index], ArchiveLayer(Some(index)));
      FirstOfAppend(reg, creds, [action], MemberActions(members, index + 1), source, spec, depth);
      FirstOfOne(reg, creds, action, source, spec, depth);
    }
  }

  lemma {:induction false} ArchivesAreFirst(reg: Openers, creds: Credentials, archives: seq<ArchiveOpen>,
                                            w: SniffWindow, source: Source, spec: Locator, depth: nat)
    requires depth <= 8 && AgreesAt(reg, creds, depth + 1)
    ensures DescendArchives(archives, w, source, spec, depth, DiskDescent(reg, depth, creds))
         == FirstOf(reg, creds, Gather(archives, ArchiveOffers(w, source)), source, spec, depth)
    decreases |archives|
  {
    if archives == [] {
    } else {
      ArchivesAreFirst(reg, creds, archives[1..], w, source, spec, depth);
      var rest := Gather(archives[1..], ArchiveOffers(w, source));
      if !archives[0].probe(w).No? {
        match archives[0].open(source)
        case Err(e) =>
          FirstOfAppend(reg, creds, [Fail(e)], rest, source, spec, depth);
          FirstOfOne(reg, creds, Fail(e), source, spec, depth);
        case Ok(Stream(inner)) =>
          FirstOfAppend(reg, creds, [Descend(inner, ArchiveLayer(None))], rest, source, spec, depth);
          FirstOfOne(reg, creds, Descend(inner, ArchiveLayer(None)), source, spec, depth);
        case Ok(Members(members)) =>
          FirstOfAppend(reg, creds, MemberActions(members, 0), rest, source, spec, depth);
          MembersAreFirst(reg, creds, members, source, spec, depth, 0);
      } else {
        assert [] + rest == rest;
      }
    }
  }

  lemma PackagingIsFirst(reg: Openers, creds: Credentials, w: SniffWindow, source: Source, spec: Locator, depth: nat)
    requires depth <= 8 && AgreesAt(reg, creds, depth + 1)
    ensures DescendPackaging(reg, w, source, spec, depth, DiskDescent(reg, depth, creds))
         == FirstOf(reg, creds, PackagingActions(reg, w, source), source, spec, depth)
  {
    ContainersAreFirst(reg, creds, reg.containers, w, source, spec, depth);
    ArchivesAreFirst(reg, creds, reg.archives, w, source, spec, depth);
    FirstOfAppend(reg, creds, Gather(reg.containers, ContainerOffers(w, source)),
                  Gather(reg.archives, ArchiveOffers(w, source)), source, spec, depth);
  }

  // Main result: for every registry, source, locator, depth and credential set,
  // the early-exit search answers with the first outcome of the full enumeration.
  lemma {:induction false} OpenIsFirstOutcome(reg: Openers, source: Source, spec: Locator,
                                              depth: nat, creds: Credentials)
    ensures OpenWithCredentials(reg, source, spec, depth, creds)
         == First(Enumerate(reg, creds, source, spec, depth))
    decreases 9 - depth
  {
    hide OpenWithCredentials, Enumerate, Plan, Expand, First, SniffSource;
    if depth > 8 {
      PastTheCap(reg, source, spec, depth, creds);
    } else {
      var deeper := depth + 1;
      forall s: Source, l: Locator
        ensures Agrees(reg, creds, s, l, deeper)
      {
        OpenIsFirstOutcome(reg, s, l, deeper, creds);
      }
      EnumerateIsPlan(reg, creds, source, spec, depth);
      match SniffSource(source)
      case Err(e) => UnreadableIsFirst(reg, creds, e, source, spec, depth);
      case Ok(w) => NodeIsFirst(reg, creds, w, source, spec, depth);
    }
  }

  lemma PastTheCap(reg: Openers, source: Source, spec: Locator, depth: nat, creds: Credentials)
    requires depth > 8
    ensures OpenWithCredentials(reg, source, spec, depth, creds) == Ok(None)
    ensures First(Enumerate(reg, creds, source, spec, depth)) == Ok(None)
  {
  }

  lemma UnreadableIsFirst(reg: Openers, creds: Credentials, e: Error, source: Source, spec: Locator, depth: nat)
    requires depth <= 8 && AgreesAt(reg, creds, depth + 1) && SniffSource(source) == Err(e)
    ensures OpenWithCredentials(reg, source, spec, depth, creds)
         == FirstOf(reg, creds, Plan(reg, creds, source), source, spec, depth)
  {
    hide FirstOf;
    assert Plan(reg, creds, source) == [Fail(e)];
    FirstOfOne(reg, creds, Fail(e), source, spec, depth);
  }

  lemma NodeIsFirst(reg: Openers, creds: Credentials, w: SniffWindow, source: Source, spec: Locator, depth: nat)
    requires depth <= 8 && AgreesAt(reg, creds, depth + 1) && SniffSource(source) == Ok(w)
    ensures OpenWithCredentials(reg, source, spec, depth, creds)
         == FirstOf(reg, creds, Plan(reg, creds, source), source, spec, depth)
  {
    var fs := Gather(reg.filesystems, FsOffers(w, source));
    var vs := Gather(reg.volumeSystems, VolumeOffers(w, source));
    var sg := Gather(reg.encryption, SignatureOffers(w, source, creds));
    var pk := PackagingActions(reg, w, source);
    var gs := LastResort(reg, creds, w, source);
    FirstOfAppend(reg, creds, fs, vs, source, spec, depth);
    FirstOfAppend(reg, creds, fs + vs, sg, source, spec, depth);
    FirstOfAppend(reg, creds, fs + vs + sg, pk, source, spec, depth);
    FirstOfAppend(reg, creds, fs + vs + sg + pk, gs, source, spec, depth);
    MountIsFirst(reg, creds, reg.filesystems, w, source, spec, depth);
    VolumeSystemsAreFirst(reg, creds, reg.volumeSystems, w, source, spec, depth);
    assert reg.encryption[0..] == reg.encryption;
    SignatureIsFirst(reg, creds, w, source, spec, depth, 0, []);
    PackagingIsFirst(reg, creds, w, source, spec, depth);
    AttemptsAreFirst(reg, creds, w, source, spec, depth, 0);
    assert [] + MaybeIndices(reg.encryption, w, 0) == MaybeIndices(reg.encryption, w, 0);
  }
}
