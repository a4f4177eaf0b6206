/**
 Exactly when a last-resort (`Maybe`) decrypt displaces a filesystem that is found
 without it, in terms of what the openers answer at the nodes the search meets.
 */
module Shadowing {
  import opened Basics
  import opened Locators
  import opened Registry
  import opened Sniff
  import opened Resolver
  import opened Enumeration
  import opened ResolverRefinement
  import opened CleanUnknowns
  import opened Replay
  import opened LastResorts
  import opened Reproducibility

  // Taking `action` at `depth` leads nowhere: every node it reaches is quiet.
  ghost predicate Barren(reg: Openers, creds: Credentials, action: Action, depth: nat) {
    action.Descend? && QuietWithin(reg, creds, action.child, depth + 1)
  }

  ghost function FirstFruit(reg: Openers, creds: Credentials, actions: seq<Action>, depth: nat): (a: Option<Action>)
    ensures a.Some? ==> a.value in actions
  {
    if actions == [] then None
    else if Barren(reg, creds, actions[0], depth) then FirstFruit(reg, creds, actions[1..], depth)
    else Some(actions[0])
  }

  // The search, going where it first finds something, comes to a node where
  // nothing but a last-resort decrypt leads anywhere.
  ghost predicate GuessSite(reg: Openers, creds: Credentials, source: Source, depth: nat)
    decreases 9 - depth
  {
    && depth <= 8
    && match FirstFruit(reg, creds, FirmPlan(reg, creds, source), depth)
       case None => FirstFruit(reg, creds, LastPlan(reg, creds, source), depth).Some?
       case Some(Descend(child, _)) => GuessSite(reg, creds, child, depth + 1)
       case Some(_) => false
  }

  lemma BarrenIsEmpty(reg: Openers, creds: Credentials, action: Action, source: Source, spec: Locator, depth: nat)
    requires depth <= 8
    ensures Barren(reg, creds, action, depth) <==> ExpandOne(reg, creds, action, source, spec, depth) == []
  {
    if action.Descend? {
      hide QuietWithin, Enumerate, OpenWithCredentials;
      CleanUnknown(reg, action.child, spec.Push(action.layer), depth + 1, creds);
      OpenIsFirstOutcome(reg, action.child, spec.Push(action.layer), depth + 1, creds);
    }
  }

  // The first outcome of a list of actions is that of the first one not barren.
  lemma {:induction false} FruitComesFirst(reg: Openers, creds: Credentials, actions: seq<Action>,
                                           source: Source, spec: Locator, depth: nat)
    requires depth <= 8
    ensures var outcomes := Expand(reg, creds, actions, source, spec, depth);
            match FirstFruit(reg, creds, actions, depth)
            case None => outcomes == []
            case Some(a) =>
              var own := ExpandOne(reg, creds, a, source, spec, depth);
              own != [] && outcomes != [] && outcomes[0] == own[0]
    decreases |actions|
  {
    hide Barren, ExpandOne;
    if actions != [] {
      BarrenIsEmpty(reg, creds, actions[0], source, spec, depth);
      FruitComesFirst(reg, creds, actions[1..], source, spec, depth);
    }
  }

  // One node of the search, as an equation.
  lemma AnsweredStep(reg: Openers, creds: Credentials, source: Source, spec: Locator, depth: nat)
    requires depth <= 8
    ensures AnsweredByGuess(reg, creds, source, spec, depth) <==>
            match FirstFruit(reg, creds, FirmPlan(reg, creds, source), depth)
            case None => FirstFruit(reg, creds, LastPlan(reg, creds, source), depth).Some?
            case Some(Descend(child, layer)) => AnsweredByGuess(reg, creds, child, spec.Push(layer), depth + 1)
            case Some(_) => false
  {
    hide FirmPlan, LastPlan, FirstFruit, Expand;
    FruitComesFirst(reg, creds, FirmPlan(reg, creds, source), source, spec, depth);
    FruitComesFirst(reg, creds, LastPlan(reg, creds, source), source, spec, depth);
  }

  lemma SiteStep(reg: Openers, creds: Credentials, source: Source, depth: nat)
    requires depth <= 8
    ensures GuessSite(reg, creds, source, depth) <==>
            match FirstFruit(reg, creds, FirmPlan(reg, creds, source), depth)
            case None => FirstFruit(reg, creds, LastPlan(reg, creds, source), depth).Some?
            case Some(Descend(child, _)) => GuessSite(reg, creds, child, depth + 1)
            case Some(_) => false
  {
    hide FirmPlan, LastPlan, FirstFruit;
  }

  lemma NothingPastTheCap(reg: Openers, creds: Credentials, source: Source, spec: Locator, depth: nat)
    requires depth > 8
    ensures !GuessSite(reg, creds, source, depth) && !AnsweredByGuess(reg, creds, source, spec, depth)
  {
  }

  lemma {:induction false} GuessSiteAnswers(reg: Openers, creds: Credentials, source: Source, spec: Locator, depth: nat)
    ensures GuessSite(reg, creds, source, depth) <==> AnsweredByGuess(reg, creds, source, spec, depth)
    decreases 9 - depth
  {
    hide GuessSite, AnsweredByGuess, FirmPlan, LastPlan, FirstFruit;
    if depth > 8 {
      NothingPastTheCap(reg, creds, source, spec, depth);
    } else {
      AnsweredStep(reg, creds, source, spec, depth);
      SiteStep(reg, creds, source, depth);
      match FirstFruit(reg, creds, FirmPlan(reg, creds, source), depth)
      case Some(Descend(child, layer)) => GuessSiteAnswers(reg, creds, child, spec.Push(layer), depth + 1);
      case _ =>
    }
  }

  // A layer beyond the starting locator was decrypted.
  ghost predicate Deciphers(spec: Locator, found: Locator) {
    exists i :: |spec.Layers()| <= i < |found.Layers()| && found.Layers()[i].EncryptionLayer?
  }

  lemma LastResortsDecipher(reg: Openers, creds: Credentials, source: Source, action: Action)
    requires action in LastPlan(reg, creds, source)
    ensures action.Fail? || (action.Descend? && action.layer.EncryptionLayer?)
  {
    var w := SniffSource(source).value;
    GatherMember(reg.encryption, GuessOffers(w, source, creds), action);
    var o :| o in reg.encryption && action in GuessOffers(w, source, creds)(o);
    assert action in GuessActions(o, source, creds);
  }

  // What a node answers is what its first action that is not barren answers.
  lemma FruitAnswers(reg: Openers, creds: Credentials, source: Source, spec: Locator, depth: nat) returns (a: Action)
    requires depth <= 8
    requires FirstFruit(reg, creds, FirmPlan(reg, creds, source), depth).Some?
             || FirstFruit(reg, creds, LastPlan(reg, creds, source), depth).Some?
    ensures match FirstFruit(reg, creds, FirmPlan(reg, creds, source), depth)
            case Some(f) => a == f
            case None => FirstFruit(reg, creds, LastPlan(reg, creds, source), depth) == Some(a)
    ensures OpenWithCredentials(reg, source, spec, depth, creds)
         == First(ExpandOne(reg, creds, a, source, spec, depth))
  {
    hide FirmPlan, LastPlan, FirstFruit, OpenWithCredentials, ExpandOne;
    OpenIsFirstOutcome(reg, source, spec, depth, creds);
    FruitComesFirst(reg, creds, FirmPlan(reg, creds, source), source, spec, depth);
    FruitComesFirst(reg, creds, LastPlan(reg, creds, source), source, spec, depth);
    match FirstFruit(reg, creds, FirmPlan(reg, creds, source), depth)
    case Some(f) => a := f;
    case None => a := FirstFruit(reg, creds, LastPlan(reg, creds, source), depth).value;
  }

  // What taking one action answers.
  ghost function Taken(reg: Openers, creds: Credentials, action: Action, source: Source, spec: Locator, depth: nat)
    : VfsResult<Option<Resolved>>
  {
    match action
    case Fail(e) => Err(e)
    case Mount(fs, kind) => Ok(Some(Resolved(fs, spec.Push(FsLayer(kind, Path([]))), source, spec)))
    case Descend(child, layer) => OpenWithCredentials(reg, child, spec.Push(layer), depth + 1, creds)
  }

  lemma TakenIsFirst(reg: Openers, creds: Credentials, action: Action, source: Source, spec: Locator, depth: nat)
    requires depth <= 8
    ensures First(ExpandOne(reg, creds, action, source, spec, depth)) == Taken(reg, creds, action, source, spec, depth)
  {
    if action.Descend? {
      hide OpenWithCredentials, Enumerate;
      OpenIsFirstOutcome(reg, action.child, spec.Push(action.layer), depth + 1, creds);
    }
  }

  // What the guess that the search comes to answers.
  ghost function GuessAnswer(reg: Openers, creds: Credentials, source: Source, spec: Locator, depth: nat)
    : VfsResult<Option<Resolved>>
    requires GuessSite(reg, creds, source, depth)
    decreases 9 - depth
  {
    match FirstFruit(reg, creds, FirmPlan(reg, creds, source), depth)
    case Some(Descend(child, layer)) => GuessAnswer(reg, creds, child, spec.Push(layer), depth + 1)
    case None =>
      Taken(reg, creds, FirstFruit(reg, creds, LastPlan(reg, creds, source), depth).value, source, spec, depth)
    case Some(_) => assert false; Ok(None)
  }

  lemma {:induction false} GuessSiteDecides(reg: Openers, creds: Credentials, source: Source, spec: Locator, depth: nat)
    requires GuessSite(reg, creds, source, depth)
    ensures OpenWithCredentials(reg, source, spec, depth, creds) == GuessAnswer(reg, creds, source, spec, depth)
    decreases 9 - depth
  {
    hide FirmPlan, LastPlan, FirstFruit, OpenWithCredentials, ExpandOne;
    var a := FruitAnswers(reg, creds, source, spec, depth);
    TakenIsFirst(reg, creds, a, source, spec, depth);
    match FirstFruit(reg, creds, FirmPlan(reg, creds, source), depth)
    case Some(Descend(child, layer)) => GuessSiteDecides(reg, creds, child, spec.Push(layer), depth + 1);
    case _ =>
  }

  // Any filesystem found without guessing, encrypted or not, is lost exactly when
  // the search comes to a node where only a guess leads on, and that guess answers
  // something else.
  lemma FilesystemIsShadowedExactly(reg: Openers, creds: Credentials, source: Source, spec: Locator,
                                    depth: nat, honest: Resolved)
    requires OpenWithCredentials(GuessFree(reg), source, spec, depth, creds) == Ok(Some(honest))
    ensures OpenWithCredentials(reg, source, spec, depth, creds) != Ok(Some(honest))
            <==> GuessSite(reg, creds, source, depth)
                 && GuessAnswer(reg, creds, source, spec, depth) != Ok(Some(honest))
  {
    hide GuessSite, GuessAnswer, OpenWithCredentials, AnsweredByGuess;
    GuessSiteAnswers(reg, creds, source, spec, depth);
    if GuessSite(reg, creds, source, depth) {
      GuessSiteDecides(reg, creds, source, spec, depth);
    } else {
      UnguessedAnswersStand(reg, creds, source, spec, depth);
    }
  }

  // An answer from behind a guess carries the layer that was guessed.
  lemma {:induction false} GuessedAnswersDecipher(reg: Openers, creds: Credentials, source: Source, spec: Locator,
                                                  depth: nat, found: Resolved)
    requires GuessSite(reg, creds, source, depth)
    requires OpenWithCredentials(reg, source, spec, depth, creds) == Ok(Some(found))
    ensures Deciphers(spec, found.sourceSpec)
    decreases 9 - depth
  {
    hide FirmPlan, LastPlan, FirstFruit, OpenWithCredentials;
    var a := FruitAnswers(reg, creds, source, spec, depth);
    if a in LastPlan(reg, creds, source) {
      LastResortsDecipher(reg, creds, source, a);
    }
    if a.Descend? {
      var child := spec.Push(a.layer);
      OpenIsFirstOutcome(reg, a.child, child, depth + 1, creds);
      if FirstFruit(reg, creds, FirmPlan(reg, creds, source), depth).Some? {
        GuessedAnswersDecipher(reg, creds, a.child, child, depth + 1, found);
        assert |child.Layers()| == |spec.Layers()| + 1;
      } else {
        var hops, k := SuccessReplays(reg, a.child, child, depth + 1, creds, found);
        PushAllAppends(child, HopLayers(hops));
        assert found.sourceSpec.Layers()[|spec.Layers()|] == a.layer;
      }
    }
  }

  // Of a filesystem behind no encryption the guess never answers the same, so it is
  // lost exactly when the search comes to a node where only a guess leads on.
  lemma PlainFilesystemIsShadowedExactly(reg: Openers, creds: Credentials, source: Source, spec: Locator,
                                         depth: nat, plain: Resolved)
    requires OpenWithCredentials(GuessFree(reg), source, spec, depth, creds) == Ok(Some(plain))
    requires !Deciphers(spec, plain.sourceSpec)
    ensures OpenWithCredentials(reg, source, spec, depth, creds) != Ok(Some(plain))
            <==> GuessSite(reg, creds, source, depth)
  {
    hide Deciphers, OpenWithCredentials, AnsweredByGuess;
    GuessSiteAnswers(reg, creds, source, spec, depth);
    if !GuessSite(reg, creds, source, depth) {
      UnguessedAnswersStand(reg, creds, source, spec, depth);
    } else if OpenWithCredentials(reg, source, spec, depth, creds) == Ok(Some(plain)) {
      GuessedAnswersDecipher(reg, creds, source, spec, depth, plain);
    }
  }

  // ---- a guess never finds what was found without it ----

  lemma PeelWithoutGuesses(reg: Openers, creds: Credentials, source: Source, hop: Hop)
    requires Peels(GuessFree(reg), creds, source, hop)
    ensures Peels(reg, creds, source, hop)
    ensures hop.layer.EncryptionLayer? ==> exists o :: SignedPeel(reg, o, creds, source, hop)
  {
    var w := SniffSource(source).value;
    if o :| o in GuessFree(reg).encryption && CipherPeel(o, creds, w, source, hop) {
      var enc := UnguessingMember(reg.encryption, o);
      assert CipherPeel(enc, creds, w, source, hop);
      assert SignedPeel(reg, enc, creds, source, hop);
    }
  }

  // A registered scheme claims the source with `Yes` and yields the hop.
  ghost predicate SignedPeel(reg: Openers, o: EncryptionOpen, creds: Credentials, source: Source, hop: Hop) {
    && SniffSource(source).Ok? && o in reg.encryption
    && o.probe(SniffSource(source).value).Yes?
    && hop.layer == EncryptionLayer(o.scheme)
  }

  lemma {:induction false} UnguessingMember(encs: seq<EncryptionOpen>, o: EncryptionOpen) returns (enc: EncryptionOpen)
    requires o in UnguessingAll(encs)
    ensures enc in encs && o == Unguessing(enc)
  {
    if o == Unguessing(encs[0]) {
      enc := encs[0];
    } else {
      enc := UnguessingMember(encs[1..], o);
    }
  }

  // A last-resort descent comes from a scheme that says `Maybe` here.
  lemma GuessedDescent(reg: Openers, creds: Credentials, source: Source, action: Action) returns (o: EncryptionOpen)
    requires action in LastPlan(reg, creds, source) && action.Descend?
    ensures SniffSource(source).Ok? && o in reg.encryption && o.probe(SniffSource(source).value).Maybe?
    ensures action.layer == EncryptionLayer(o.scheme)
  {
    var w := SniffSource(source).value;
    GatherMember(reg.encryption, GuessOffers(w, source, creds), action);
    o :| o in reg.encryption && action in GuessOffers(w, source, creds)(o);
    assert action in GuessActions(o, source, creds);
  }

  // So no route without guesses leaves the node by the layer of a guess.
  lemma GuessedLayerIsUnsigned(reg: Openers, creds: Credentials, source: Source, action: Action, hop: Hop)
    requires Unambiguous(reg) && action in LastPlan(reg, creds, source) && action.Descend?
    requires Peels(GuessFree(reg), creds, source, hop)
    ensures hop.layer != action.layer
  {
    hide Peels, LastPlan;
    PeelWithoutGuesses(reg, creds, source, hop);
    var o := GuessedDescent(reg, creds, source, action);
  }

  // The layers a success behind `a` records begin with the layer of `a`.
  lemma RecordBeginsWith(reg: Openers, creds: Credentials, spec: Locator, depth: nat, a: Action, found: Resolved,
                         layers: seq<Layer>)
    returns (rest: seq<Layer>)
    requires a.Descend?
    requires OpenWithCredentials(reg, a.child, spec.Push(a.layer), depth + 1, creds) == Ok(Some(found))
    requires found.sourceSpec == spec.PushAll(layers)
    ensures layers == [a.layer] + rest && found.sourceSpec == spec.Push(a.layer).PushAll(rest)
  {
    hide OpenWithCredentials;
    var hops, k := SuccessReplays(reg, a.child, spec.Push(a.layer), depth + 1, creds, found);
    rest := HopLayers(hops);
    assert ([a.layer] + rest)[1..] == rest;
    assert spec.PushAll([a.layer] + rest) == spec.Push(a.layer).PushAll(rest);
    SameRecordSameLayers(spec, layers, [a.layer] + rest);
  }

  lemma {:induction false} GuessedAnswersHaveNoOtherRoute(reg: Openers, creds: Credentials, source: Source,
                                                          spec: Locator, depth: nat, found: Resolved, hops: seq<Hop>)
    requires Unambiguous(reg) && GuessSite(reg, creds, source, depth)
    requires OpenWithCredentials(reg, source, spec, depth, creds) == Ok(Some(found))
    requires found.sourceSpec == spec.PushAll(HopLayers(hops))
    ensures !Follows(GuessFree(reg), creds, source, hops)
    decreases 9 - depth
  {
    hide FirmPlan, LastPlan, FirstFruit, OpenWithCredentials, Peels, Unambiguous;
    var a := GuessedStep(reg, creds, source, spec, depth, found);
    var layers := RecordBeginsWith(reg, creds, spec, depth, a, found, HopLayers(hops));
    assert |hops| > 0 && hops[0].layer == HopLayers(hops)[0] == a.layer;
    assert HopLayers(hops[1..]) == HopLayers(hops)[1..] == layers;
    if Follows(GuessFree(reg), creds, source, hops) {
      if a in LastPlan(reg, creds, source) {
        GuessedLayerIsUnsigned(reg, creds, source, a, hops[0]);
      } else {
        FirmHopIsShared(reg, creds, source, a, hops[0]);
        GuessedAnswersHaveNoOtherRoute(reg, creds, a.child, spec.Push(a.layer), depth + 1, found, hops[1..]);
      }
    }
  }

  lemma FirmHopIsShared(reg: Openers, creds: Credentials, source: Source, a: Action, hop: Hop)
    requires Unambiguous(reg) && a in FirmPlan(reg, creds, source) && a.Descend?
    requires Peels(GuessFree(reg), creds, source, hop) && hop.layer == a.layer
    ensures hop.child == a.child
  {
    hide Peels, FirmPlan, Unambiguous;
    PeelWithoutGuesses(reg, creds, source, hop);
    SniffedFirmPlan(reg, creds, source, hop);
    DescentsArePeels(reg, creds, source, Hop(a.layer, a.child));
    UnambiguousDecides(reg, creds);
  }

  lemma SniffedFirmPlan(reg: Openers, creds: Credentials, source: Source, hop: Hop)
    requires Peels(reg, creds, source, hop)
    ensures SniffSource(source).Ok?
  {
  }

  // A guessed success leaves the node by a descent: a guess, or a firm one into a guess site.
  lemma GuessedStep(reg: Openers, creds: Credentials, source: Source, spec: Locator, depth: nat, found: Resolved)
    returns (a: Action)
    requires GuessSite(reg, creds, source, depth)
    requires OpenWithCredentials(reg, source, spec, depth, creds) == Ok(Some(found))
    ensures a.Descend?
    ensures OpenWithCredentials(reg, a.child, spec.Push(a.layer), depth + 1, creds) == Ok(Some(found))
    ensures a in LastPlan(reg, creds, source)
            || (a in FirmPlan(reg, creds, source) && GuessSite(reg, creds, a.child, depth + 1))
  {
    hide FirmPlan, LastPlan, FirstFruit, OpenWithCredentials, ExpandOne;
    a := FruitAnswers(reg, creds, source, spec, depth);
    TakenIsFirst(reg, creds, a, source, spec, depth);
    if a in LastPlan(reg, creds, source) {
      LastResortsDecipher(reg, creds, source, a);
    }
  }

  // Where names tell openers apart, a guess never answers what is found without it:
  // any filesystem found without guessing, encrypted or not, is lost exactly when
  // the search comes to a node where only a guess leads on.
  lemma NamedFilesystemIsShadowedExactly(reg: Openers, creds: Credentials, source: Source, spec: Locator,
                                         depth: nat, honest: Resolved)
    requires Unambiguous(reg)
    requires OpenWithCredentials(GuessFree(reg), source, spec, depth, creds) == Ok(Some(honest))
    ensures OpenWithCredentials(reg, source, spec, depth, creds) != Ok(Some(honest))
            <==> GuessSite(reg, creds, source, depth)
  {
    hide GuessSite, OpenWithCredentials, AnsweredByGuess, Unambiguous;
    GuessSiteAnswers(reg, creds, source, spec, depth);
    if !GuessSite(reg, creds, source, depth) {
      UnguessedAnswersStand(reg, creds, source, spec, depth);
    } else {
      var hops, k := SuccessReplays(GuessFree(reg), source, spec, depth, creds, honest);
      if OpenWithCredentials(reg, source, spec, depth, creds) == Ok(Some(honest)) {
        GuessedAnswersHaveNoOtherRoute(reg, creds, source, spec, depth, honest, hops);
      }
    }
  }
}
