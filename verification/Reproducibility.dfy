/**
 The locator as the record of a route: exactly when the layers it lists decide the
 source they were peeled from, for one set of credentials and for two.
 */
module Reproducibility {
  import opened Basics
  import opened Locators
  import opened Registry
  import opened Sniff
  import opened Resolver
  import opened Enumeration
  import opened ResolverRefinement
  import opened CleanUnknowns
  import opened Replay
  import opened Routes
  import opened LastResorts

  // ---- layers that decide ----

  // Whatever two openers peel off one source, one with each set of credentials,
  // equal layers mean equal children.
  ghost predicate LayersDecide(reg: Openers, ca: Credentials, cb: Credentials) {
    forall s: Source, a: Hop, b: Hop :: Peels(reg, ca, s, a) && Peels(reg, cb, s, b) && a.layer == b.layer
                                        ==> a.child == b.child
  }

  // Routes that record the same layers end at the same source.
  ghost predicate RoutesDecide(reg: Openers, ca: Credentials, cb: Credentials) {
    forall s: Source, p: seq<Hop>, q: seq<Hop> ::
      Follows(reg, ca, s, p) && Follows(reg, cb, s, q) && HopLayers(p) == HopLayers(q) ==> End(s, p) == End(s, q)
  }

  lemma {:induction false} SameLayersSameHops(reg: Openers, ca: Credentials, cb: Credentials, source: Source,
                                              a: seq<Hop>, b: seq<Hop>)
    requires LayersDecide(reg, ca, cb) && Follows(reg, ca, source, a) && Follows(reg, cb, source, b)
    requires HopLayers(a) == HopLayers(b)
    ensures a == b
    decreases |a|
  {
    hide Peels;
    assert |a| == |HopLayers(a)| == |HopLayers(b)| == |b|;
    if a != [] {
      assert a[0].layer == HopLayers(a)[0] == HopLayers(b)[0] == b[0].layer;
      assert a[0].child == b[0].child;
      assert HopLayers(a[1..]) == HopLayers(a)[1..] == HopLayers(b)[1..] == HopLayers(b[1..]);
      hide LayersDecide;
      SameLayersSameHops(reg, ca, cb, a[0].child, a[1..], b[1..]);
      assert a == [a[0]] + a[1..] && b == [b[0]] + b[1..];
    }
  }

  lemma OneHopRoute(reg: Openers, creds: Credentials, source: Source, hop: Hop)
    requires Peels(reg, creds, source, hop)
    ensures Follows(reg, creds, source, [hop]) && HopLayers([hop]) == [hop.layer] && End(source, [hop]) == hop.child
  {
    hide Peels;
    assert [hop][1..] == [];
    assert Follows(reg, creds, hop.child, []);
  }

  // The locator decides the source, along all routes, exactly when each layer does.
  lemma LocatorDecidesExactlyWhen(reg: Openers, ca: Credentials, cb: Credentials)
    ensures LayersDecide(reg, ca, cb) <==> RoutesDecide(reg, ca, cb)
  {
    hide Peels;
    if LayersDecide(reg, ca, cb) {
      forall s, p, q | Follows(reg, ca, s, p) && Follows(reg, cb, s, q) && HopLayers(p) == HopLayers(q)
        ensures End(s, p) == End(s, q)
      {
        SameLayersSameHops(reg, ca, cb, s, p, q);
      }
    }
    if RoutesDecide(reg, ca, cb) {
      forall s: Source, a: Hop, b: Hop | Peels(reg, ca, s, a) && Peels(reg, cb, s, b) && a.layer == b.layer
        ensures a.child == b.child
      {
        OneHopRoute(reg, ca, s, a);
        OneHopRoute(reg, cb, s, b);
      }
    }
  }

  lemma AppendCancels<T>(front: seq<T>, a: seq<T>, b: seq<T>)
    requires front + a == front + b
    ensures a == b
  {
    assert a == (front + a)[|front|..] && b == (front + b)[|front|..];
  }

  lemma SameRecordSameLayers(spec: Locator, a: seq<Layer>, b: seq<Layer>)
    requires spec.PushAll(a) == spec.PushAll(b)
    ensures a == b
  {
    PushAllAppends(spec, a);
    PushAllAppends(spec, b);
    AppendCancels(spec.Layers(), a, b);
  }

  // Then any two successes of the two enumerations with one recorded route are of one source.
  lemma LocatorNamesSource(reg: Openers, ca: Credentials, cb: Credentials, source: Source, spec: Locator,
                           da: nat, db: nat, a: Resolved, b: Resolved)
    requires LayersDecide(reg, ca, cb)
    requires HasVerdict(Enumerate(reg, ca, source, spec, da), a)
    requires HasVerdict(Enumerate(reg, cb, source, spec, db), b)
    requires a.sourceSpec == b.sourceSpec
    ensures a.source == b.source
  {
    hide LayersDecide, HasVerdict, MountsHere, Enumerate, Follows;
    var p := OutcomesHaveRoutes(reg, ca, source, spec, da, a);
    var q := OutcomesHaveRoutes(reg, cb, source, spec, db, b);
    SameRecordSameLayers(spec, HopLayers(p), HopLayers(q));
    SameLayersSameHops(reg, ca, cb, source, p, q);
  }

  // And two answers of the resolver with one recorded route are one answer: the
  // same source, the same mount, the same locator, from whatever depths.
  lemma AnswersAgree(reg: Openers, ca: Credentials, cb: Credentials, source: Source, spec: Locator,
                     da: nat, db: nat, x: Resolved, y: Resolved)
    requires LayersDecide(reg, ca, cb)
    requires OpenWithCredentials(reg, source, spec, da, ca) == Ok(Some(x))
    requires OpenWithCredentials(reg, source, spec, db, cb) == Ok(Some(y))
    requires x.sourceSpec == y.sourceSpec
    ensures x == y
  {
    hide LayersDecide, OpenWithCredentials, Follows, SniffSource;
    var p, k := SuccessReplays(reg, source, spec, da, ca, x);
    var q, l := SuccessReplays(reg, source, spec, db, cb, y);
    SameRecordSameLayers(spec, HopLayers(p), HopLayers(q));
    SameLayersSameHops(reg, ca, cb, source, p, q);
    assert k == l;
  }

  // ---- registries whose names tell openers apart ----

  // A scheme or format names one opener of its family, and at most one archive
  // opener, whose layer has no name, claims a source.
  ghost predicate Unambiguous(reg: Openers) {
    && (forall a, b :: a in reg.volumeSystems && b in reg.volumeSystems && a.scheme == b.scheme ==> a == b)
    && (forall a, b :: a in reg.encryption && b in reg.encryption && a.scheme == b.scheme ==> a == b)
    && (forall a, b :: a in reg.containers && b in reg.containers && a.format == b.format ==> a == b)
    && (forall s :: OneArchive(reg, s))
  }

  ghost predicate Claims(o: ArchiveOpen, source: Source)
    requires SniffSource(source).Ok?
  {
    !o.probe(SniffSource(source).value).No?
  }

  ghost predicate OneArchive(reg: Openers, source: Source) {
    SniffSource(source).Ok? ==>
      forall a, b :: a in reg.archives && b in reg.archives && Claims(a, source) && Claims(b, source) ==> a == b
  }

  // Where both keys decrypt a claimed source, they decrypt it to the same source.
  ghost predicate DecryptsAlike(o: EncryptionOpen, source: Source, ca: Credentials, cb: Credentials) {
    SniffSource(source).Ok? && !o.probe(SniffSource(source).value).No? && o.open(source).Ok? ==>
      var layer := o.open(source).value;
      layer.decrypt(ca).Ok? && layer.decrypt(cb).Ok? ==> layer.decrypt(ca).value == layer.decrypt(cb).value
  }

  ghost predicate KeysAgree(reg: Openers, ca: Credentials, cb: Credentials) {
    forall o, s :: o in reg.encryption ==> DecryptsAlike(o, s, ca, cb)
  }

  // Two peels of one source with one layer, one with each set of credentials.
  ghost predicate SamePeels(reg: Openers, ca: Credentials, cb: Credentials, source: Source, a: Hop, b: Hop) {
    Unambiguous(reg) && Peels(reg, ca, source, a) && Peels(reg, cb, source, b) && a.layer == b.layer
  }

  lemma SameVolume(reg: Openers, ca: Credentials, cb: Credentials, source: Source, a: Hop, b: Hop)
    requires SamePeels(reg, ca, cb, source, a, b) && a.layer.VolumeLayer?
    ensures a == b
  {
    var w := SniffSource(source).value;
    var o, i :| o in reg.volumeSystems && VolumePeel(o, i, w, source, a);
    var p, j :| p in reg.volumeSystems && VolumePeel(p, j, w, source, b);
  }

  lemma SameCipher(reg: Openers, ca: Credentials, cb: Credentials, source: Source, a: Hop, b: Hop)
    requires SamePeels(reg, ca, cb, source, a, b) && a.layer.EncryptionLayer? && KeysAgree(reg, ca, cb)
    ensures a == b
  {
    var w := SniffSource(source).value;
    var o :| o in reg.encryption && CipherPeel(o, ca, w, source, a);
    var p :| p in reg.encryption && CipherPeel(p, cb, w, source, b);
    assert DecryptsAlike(o, source, ca, cb);
  }

  lemma SameContainer(reg: Openers, ca: Credentials, cb: Credentials, source: Source, a: Hop, b: Hop)
    requires SamePeels(reg, ca, cb, source, a, b) && a.layer.ContainerLayer?
    ensures a == b
  {
    var w := SniffSource(source).value;
    var o :| o in reg.containers && ContainerPeel(o, w, source, a);
    var p :| p in reg.containers && ContainerPeel(p, w, source, b);
  }

  lemma SameArchive(reg: Openers, ca: Credentials, cb: Credentials, source: Source, a: Hop, b: Hop)
    requires SamePeels(reg, ca, cb, source, a, b) && a.layer.ArchiveLayer?
    ensures a == b
  {
    var w := SniffSource(source).value;
    assert OneArchive(reg, source);
    var o :| o in reg.archives && ArchivePeel(o, w, source, a);
    var p :| p in reg.archives && ArchivePeel(p, w, source, b);
  }

  lemma SameLayerSameChild(reg: Openers, ca: Credentials, cb: Credentials, source: Source, a: Hop, b: Hop)
    requires SamePeels(reg, ca, cb, source, a, b) && KeysAgree(reg, ca, cb)
    ensures a == b
  {
    match a.layer
    case VolumeLayer(_, _, _) => SameVolume(reg, ca, cb, source, a, b);
    case EncryptionLayer(_) => SameCipher(reg, ca, cb, source, a, b);
    case ContainerLayer(_) => SameContainer(reg, ca, cb, source, a, b);
    case ArchiveLayer(_) => SameArchive(reg, ca, cb, source, a, b);
    case _ =>
  }

  lemma DecidingKeysAgree(reg: Openers, ca: Credentials, cb: Credentials, o: EncryptionOpen, source: Source)
    requires LayersDecide(reg, ca, cb) && o in reg.encryption
    ensures DecryptsAlike(o, source, ca, cb)
  {
    if SniffSource(source).Ok? && !o.probe(SniffSource(source).value).No? && o.open(source).Ok? {
      var w, layer := SniffSource(source).value, o.open(source).value;
      if layer.decrypt(ca).Ok? && layer.decrypt(cb).Ok? {
        var a := Hop(EncryptionLayer(o.scheme), layer.decrypt(ca).value);
        var b := Hop(EncryptionLayer(o.scheme), layer.decrypt(cb).value);
        assert CipherPeel(o, ca, w, source, a) && CipherPeel(o, cb, w, source, b);
        assert Peels(reg, ca, source, a) && Peels(reg, cb, source, b);
      }
    }
  }

  // Where names tell openers apart, the locator decides the source exactly when the
  // two keys never decrypt one source to two.
  lemma UnambiguousDecidesExactlyWhen(reg: Openers, ca: Credentials, cb: Credentials)
    requires Unambiguous(reg)
    ensures LayersDecide(reg, ca, cb) <==> KeysAgree(reg, ca, cb)
  {
    hide Peels, Unambiguous, DecryptsAlike;
    if KeysAgree(reg, ca, cb) {
      forall s: Source, a: Hop, b: Hop | Peels(reg, ca, s, a) && Peels(reg, cb, s, b) && a.layer == b.layer
        ensures a.child == b.child
      {
        SameLayerSameChild(reg, ca, cb, s, a, b);
      }
    }
    if LayersDecide(reg, ca, cb) {
      forall o, s | o in reg.encryption ensures DecryptsAlike(o, s, ca, cb) {
        DecidingKeysAgree(reg, ca, cb, o, s);
      }
    }
  }

  // In particular it always does for a single set of credentials.
  lemma UnambiguousDecides(reg: Openers, creds: Credentials)
    requires Unambiguous(reg)
    ensures LayersDecide(reg, creds, creds)
  {
    UnambiguousDecidesExactlyWhen(reg, creds, creds);
  }

  // ---- one locator, two answers ----

  // A container whose key opens an outer volume, or a hidden one.
  function KeyedRegistry(): Openers {
    Openers(ShadowRegistry().filesystems, [],
            [EncryptionOpen(VeraCrypt, (w: SniffWindow) => if w.totalLen == DISK then Maybe else No,
                            (s: Source) => Ok(CipherLayer((c: Credentials) => Ok(Image(Opened(c))))))],
            [], [])
  }

  const HIDDEN: string := "hidden"
  const OUTER: string := "outer"

  function Opened(c: Credentials): u64 {
    if c.offer(VeraCrypt, "") == [Password(HIDDEN)] then PLAIN else CLEAR
  }

  function Key(word: string): Credentials {
    Credentials((scheme: EncryptionScheme, hint: string) => [Password(word)])
  }

  function FoundBehind(n: u64, spec: Locator): Resolved {
    var at := spec.Push(EncryptionLayer(VeraCrypt));
    Resolved(Mounted(n), at.Push(FsLayer("ntfs", Path([]))), Image(n), at)
  }

  lemma KeyAnswers(spec: Locator, c: Credentials)
    ensures OpenWithCredentials(KeyedRegistry(), Image(DISK), spec, 0, c) == Ok(Some(FoundBehind(Opened(c), spec)))
  {
    var reg, s := KeyedRegistry(), Image(DISK);
    ImageWindow(DISK);
    var w := SniffSource(s).value;
    ImageMounts(reg, Opened(c), spec.Push(EncryptionLayer(VeraCrypt)), 1, c);
    hide SniffSource, Image, Opened;
    assert MountFilesystem(reg.filesystems, w, s, spec) == Ok(None);
    assert [] + [0] == [0];
    assert DescendSignatureEncryption(reg, w, s, spec, 0, c, 0, []) == Ok(SignaturePass(None, [0]));
    assert DescendPackaging(reg, w, s, spec, 0, DiskDescent(reg, 0, c)) == Ok(None);
  }

  // The locator carries no key: one unambiguous registry, one disk, two keys, and
  // the resolver answers twice with the same locators and different sources.
  lemma TwoKeysOneLocator(spec: Locator)
    ensures Unambiguous(KeyedRegistry())
    ensures var x, y := FoundBehind(CLEAR, spec), FoundBehind(PLAIN, spec);
            && OpenWithCredentials(KeyedRegistry(), Image(DISK), spec, 0, Key(OUTER)) == Ok(Some(x))
            && OpenWithCredentials(KeyedRegistry(), Image(DISK), spec, 0, Key(HIDDEN)) == Ok(Some(y))
            && x.spec == y.spec && x.sourceSpec == y.sourceSpec && x.source != y.source
  {
    KeyAnswers(spec, Key(OUTER));
    KeyAnswers(spec, Key(HIDDEN));
    assert OUTER[0] != HIDDEN[0];
    assert Key(OUTER).offer(VeraCrypt, "")[0] != Key(HIDDEN).offer(VeraCrypt, "")[0];
    ImageId(PLAIN);
    ImageId(CLEAR);
    hide OpenWithCredentials;
  }

  lemma ImageId(n: u64)
    ensures Image(n).id == n && Image(n).len == n
  {
  }

  // Two volume systems of one scheme claim the disk and disagree on its volume.
  function Claiming(volume: u64): VolumeSystemOpen {
    VolumeSystemOpen(Gpt, (w: SniffWindow) => if w.totalLen == DISK then Yes("magic") else No,
                     (s: Source) => Ok(VolumeTable(1, (i: nat) => Ok(Image(volume)))))
  }

  function TwoClaims(first: u64, second: u64): Openers {
    Openers(ShadowRegistry().filesystems, [Claiming(first), Claiming(second)], [], [], [])
  }

  function FoundIn(volume: u64, spec: Locator): Resolved {
    var at := spec.Push(VolumeLayer(Gpt, 0, None));
    Resolved(Mounted(volume), at.Push(FsLayer("ntfs", Path([]))), Image(volume), at)
  }

  lemma FirstClaimAnswers(creds: Credentials, spec: Locator, first: u64, second: u64)
    requires first == PLAIN || first == CLEAR
    ensures OpenWithCredentials(TwoClaims(first, second), Image(DISK), spec, 0, creds) == Ok(Some(FoundIn(first, spec)))
  {
    var reg, s := TwoClaims(first, second), Image(DISK);
    ImageWindow(DISK);
    var w := SniffSource(s).value;
    ImageMounts(reg, first, spec.Push(VolumeLayer(Gpt, 0, None)), 1, creds);
    hide SniffSource, Image;
    assert MountFilesystem(reg.filesystems, w, s, spec) == Ok(None);
    var table := reg.volumeSystems[0].open(s).value;
    assert table.count == 1 && table.openVolume(0) == Ok(Image(first));
  }

  // The locator names no opener either: the same two openers, registered in either
  // order, answer with the same locators and different sources.
  lemma LocatorCanNameTwoSources(creds: Credentials, spec: Locator)
    ensures var x, y := FoundIn(PLAIN, spec), FoundIn(CLEAR, spec);
            && OpenWithCredentials(TwoClaims(PLAIN, CLEAR), Image(DISK), spec, 0, creds) == Ok(Some(x))
            && OpenWithCredentials(TwoClaims(CLEAR, PLAIN), Image(DISK), spec, 0, creds) == Ok(Some(y))
            && x.spec == y.spec && x.sourceSpec == y.sourceSpec && x.source != y.source
  {
    FirstClaimAnswers(creds, spec, PLAIN, CLEAR);
    FirstClaimAnswers(creds, spec, CLEAR, PLAIN);
    ImageId(PLAIN);
    ImageId(CLEAR);
  }
}
