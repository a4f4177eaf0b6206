/** Signature-less (`Maybe`) schemes: when they change nothing, and when they do. */
module LastResorts {
  import opened Basics
  import opened Locators
  import opened Registry
  import opened Sniff
  import opened Resolver
  import opened Enumeration
  import opened ResolverRefinement
  import opened CleanUnknowns
  import opened Replay

  // ---- registries with the same plans resolve alike ----

  ghost predicate SamePlans(a: Openers, b: Openers, creds: Credentials) {
    forall s :: FirmPlan(a, creds, s) == FirmPlan(b, creds, s) && LastPlan(a, creds, s) == LastPlan(b, creds, s)
  }

  lemma {:induction false} SamePlansSameOutcomes(a: Openers, b: Openers, creds: Credentials,
                                                 source: Source, spec: Locator, depth: nat)
    requires SamePlans(a, b, creds)
    ensures Enumerate(a, creds, source, spec, depth) == Enumerate(b, creds, source, spec, depth)
    decreases 9 - depth, 1, 0
  {
    if depth <= 8 {
      SameExpansion(a, b, creds, FirmPlan(a, creds, source), source, spec, depth);
      SameExpansion(a, b, creds, LastPlan(a, creds, source), source, spec, depth);
    }
  }

  lemma {:induction false} SameExpansion(a: Openers, b: Openers, creds: Credentials, actions: seq<Action>,
                                         source: Source, spec: Locator, depth: nat)
    requires depth <= 8
    requires SamePlans(a, b, creds)
    ensures Expand(a, creds, actions, source, spec, depth) == Expand(b, creds, actions, source, spec, depth)
    decreases 9 - depth, 0, |actions|
  {
    if actions != [] {
      SameExpansion(a, b, creds, actions[1..], source, spec, depth);
      if actions[0].Descend? {
        SamePlansSameOutcomes(a, b, creds, actions[0].child, spec.Push(actions[0].layer), depth + 1);
      }
    }
  }

  // ---- decoys ----

  // Always `Maybe`, always constructs, never decrypts with these credentials.
  ghost predicate IsDecoy(enc: EncryptionOpen, creds: Credentials) {
    && (forall w :: enc.probe(w) == Maybe)
    && (forall s :: enc.open(s).Ok? && enc.open(s).value.decrypt(creds).Err?)
  }

  function WithScheme(reg: Openers, at: nat, enc: EncryptionOpen): Openers
    requires at <= |reg.encryption|
  {
    reg.(encryption := reg.encryption[..at] + [enc] + reg.encryption[at..])
  }

  lemma GatherInserted(reg: Openers, at: nat, enc: EncryptionOpen, offers: EncryptionOpen -> seq<Action>)
    requires at <= |reg.encryption| && offers(enc) == []
    ensures Gather(WithScheme(reg, at, enc).encryption, offers) == Gather(reg.encryption, offers)
  {
    var before, after := reg.encryption[..at], reg.encryption[at..];
    assert reg.encryption == before + after;
    GatherAppend(before + [enc], after, offers);
    GatherAppend(before, [enc], offers);
    GatherAppend(before, after, offers);
    assert [enc][1..] == [];
    assert Gather([enc], offers) == [];
  }

  lemma DecoyKeepsPlan(reg: Openers, at: nat, decoy: EncryptionOpen, creds: Credentials, source: Source)
    requires at <= |reg.encryption| && IsDecoy(decoy, creds)
    ensures FirmPlan(WithScheme(reg, at, decoy), creds, source) == FirmPlan(reg, creds, source)
    ensures LastPlan(WithScheme(reg, at, decoy), creds, source) == LastPlan(reg, creds, source)
  {
    if SniffSource(source).Ok? {
      var w := SniffSource(source).value;
      GatherInserted(reg, at, decoy, SignatureOffers(w, source, creds));
      GatherInserted(reg, at, decoy, GuessOffers(w, source, creds));
    }
  }

  // Two runs, with and without a decoy anywhere in the list, never differ: not in
  // a success, a clean unknown, or an error, at any node or depth.
  lemma DecoyIsTransparent(reg: Openers, at: nat, decoy: EncryptionOpen, creds: Credentials,
                           source: Source, spec: Locator, depth: nat)
    requires at <= |reg.encryption| && IsDecoy(decoy, creds)
    ensures OpenWithCredentials(WithScheme(reg, at, decoy), source, spec, depth, creds)
         == OpenWithCredentials(reg, source, spec, depth, creds)
  {
    var noisy := WithScheme(reg, at, decoy);
    forall s
      ensures FirmPlan(noisy, creds, s) == FirmPlan(reg, creds, s)
      ensures LastPlan(noisy, creds, s) == LastPlan(reg, creds, s)
    {
      DecoyKeepsPlan(reg, at, decoy, creds, s);
    }
    SamePlansSameOutcomes(noisy, reg, creds, source, spec, depth);
    OpenIsFirstOutcome(noisy, source, spec, depth, creds);
    OpenIsFirstOutcome(reg, source, spec, depth, creds);
  }

  // ---- guesses ----

  function Unguessing(enc: EncryptionOpen): EncryptionOpen {
    enc.(probe := (w: SniffWindow) => if enc.probe(w).Maybe? then No else enc.probe(w))
  }

  function UnguessingAll(encs: seq<EncryptionOpen>): seq<EncryptionOpen> {
    if encs == [] then [] else [Unguessing(encs[0])] + UnguessingAll(encs[1..])
  }

  // The same registry with every last-resort attempt switched off.
  function GuessFree(reg: Openers): Openers {
    reg.(encryption := UnguessingAll(reg.encryption))
  }

  ghost function Firm(outcomes: seq<Outcome>): seq<Outcome> {
    if outcomes == [] then []
    else if outcomes[0].guessed then Firm(outcomes[1..])
    else [outcomes[0]] + Firm(outcomes[1..])
  }

  lemma {:induction false} FirmAppend(a: seq<Outcome>, b: seq<Outcome>)
    ensures Firm(a + b) == Firm(a) + Firm(b)
  {
    if a == [] {
      assert a + b == b;
    } else {
      FirmAppend(a[1..], b);
      assert (a + b)[0] == a[0] && (a + b)[1..] == a[1..] + b;
    }
  }

  lemma {:induction false} FirmOfGuessed(outcomes: seq<Outcome>)
    ensures Firm(Guessed(outcomes)) == []
  {
    if outcomes != [] {
      FirmOfGuessed(outcomes[1..]);
      assert Guessed(outcomes)[1..] == Guessed(outcomes[1..]);
    }
  }

  lemma {:induction false} GatherUnguessing(encs: seq<EncryptionOpen>, w: SniffWindow,
                                            source: Source, creds: Credentials)
    ensures Gather(UnguessingAll(encs), SignatureOffers(w, source, creds))
         == Gather(encs, SignatureOffers(w, source, creds))
    ensures Gather(UnguessingAll(encs), GuessOffers(w, source, creds)) == []
  {
    if encs != [] {
      GatherUnguessing(encs[1..], w, source, creds);
      var quiet := UnguessingAll(encs);
      assert quiet[0] == Unguessing(encs[0]) && quiet[1..] == UnguessingAll(encs[1..]);
      assert quiet[0].probe(w).Yes? == encs[0].probe(w).Yes? && !quiet[0].probe(w).Maybe?;
      assert SignatureOffers(w, source, creds)(quiet[0]) == SignatureOffers(w, source, creds)(encs[0]);
    }
  }

  // Switching the guesses off removes exactly the outcomes that lie behind one.
  lemma {:induction false} GuessFreeOutcomes(reg: Openers, creds: Credentials, source: Source,
                                             spec: Locator, depth: nat)
    ensures Enumerate(GuessFree(reg), creds, source, spec, depth)
         == Firm(Enumerate(reg, creds, source, spec, depth))
    decreases 9 - depth, 1, 0
  {
    if depth <= 8 {
      var firm := FirmPlan(reg, creds, source);
      var last := Expand(reg, creds, LastPlan(reg, creds, source), source, spec, depth);
      GuessFreePlans(reg, creds, source);
      GuessFreeExpansion(reg, creds, firm, source, spec, depth);
      FirmAppend(Expand(reg, creds, firm, source, spec, depth), Guessed(last));
      FirmOfGuessed(last);
      assert Guessed([]) == [];
      assert Expand(GuessFree(reg), creds, [], source, spec, depth) == [];
    }
  }

  lemma GuessFreePlans(reg: Openers, creds: Credentials, source: Source)
    ensures FirmPlan(GuessFree(reg), creds, source) == FirmPlan(reg, creds, source)
    ensures LastPlan(GuessFree(reg), creds, source) == []
  {
    if SniffSource(source).Ok? {
      GatherUnguessing(reg.encryption, SniffSource(source).value, source, creds);
    }
  }

  lemma {:induction false} GuessFreeExpansion(reg: Openers, creds: Credentials, actions: seq<Action>,
                                              source: Source, spec: Locator, depth: nat)
    requires depth <= 8
    ensures Expand(GuessFree(reg), creds, actions, source, spec, depth)
         == Firm(Expand(reg, creds, actions, source, spec, depth))
    decreases 9 - depth, 0, |actions|
  {
    if actions != [] {
      GuessFreeExpansion(reg, creds, actions[1..], source, spec, depth);
      FirmAppend(ExpandOne(reg, creds, actions[0], source, spec, depth),
                 Expand(reg, creds, actions[1..], source, spec, depth));
      if actions[0].Descend? {
        GuessFreeOutcomes(reg, creds, actions[0].child, spec.Push(actions[0].layer), depth + 1);
      }
    }
  }

  // The answer came from behind a last-resort decrypt.
  ghost predicate AnsweredByGuess(reg: Openers, creds: Credentials, source: Source, spec: Locator, depth: nat) {
    var outcomes := Enumerate(reg, creds, source, spec, depth);
    outcomes != [] && outcomes[0].guessed
  }

  // An answer that no guess produced is the answer without guesses.
  lemma UnguessedAnswersStand(reg: Openers, creds: Credentials, source: Source, spec: Locator, depth: nat)
    requires !AnsweredByGuess(reg, creds, source, spec, depth)
    ensures OpenWithCredentials(reg, source, spec, depth, creds)
         == OpenWithCredentials(GuessFree(reg), source, spec, depth, creds)
  {
    GuessFreeOutcomes(reg, creds, source, spec, depth);
    OpenIsFirstOutcome(reg, source, spec, depth, creds);
    OpenIsFirstOutcome(GuessFree(reg), source, spec, depth, creds);
  }

  // Within one node a guess never outranks anything else the node leads to:
  // whatever its firm actions answer, success or error, is the node's answer.
  lemma FirmBeforeGuessAtANode(reg: Openers, creds: Credentials, source: Source, spec: Locator, depth: nat)
    requires depth <= 8
    requires Expand(reg, creds, FirmPlan(reg, creds, source), source, spec, depth) != []
    ensures OpenWithCredentials(reg, source, spec, depth, creds)
         == First(Expand(reg, creds, FirmPlan(reg, creds, source), source, spec, depth))
  {
    OpenIsFirstOutcome(reg, source, spec, depth, creds);
  }

  // ---- across nodes a guess can shadow a real filesystem ----

  // A source of `n` zero bytes that fills every read up to its end.
  function Image(n: u64): Source {
    Source(n, n, (off: u64, cap: nat) => ImageRead(n, off, cap))
  }

  function ImageRead(n: u64, off: u64, cap: nat): VfsResult<Reading> {
    var k := if off >= n then 0 else Min(cap, n - off);
    Ok(Reading(Zeros(k), k))
  }

  // A disk of 8 bytes with two volumes: the first, of 3 bytes, is claimed by nothing
  // but a signature-less scheme that happens to decrypt it (to 2 bytes); the second,
  // of 4 bytes, holds a filesystem.
  const DISK: u64 := 8
  const CIPHERED: u64 := 3
  const PLAIN: u64 := 2
  const CLEAR: u64 := 4

  function ShadowRegistry(): Openers {
    Openers(
      [FileSystemOpen("ntfs",
                      (w: SniffWindow) => if w.totalLen == PLAIN || w.totalLen == CLEAR then Yes("magic") else No,
                      (s: Source) => Ok(Mounted(s.id)))],
      [VolumeSystemOpen(Gpt, (w: SniffWindow) => if w.totalLen == DISK then Yes("magic") else No,
                        (s: Source) => Ok(VolumeTable(2, (i: nat) => Ok(Image(if i == 0 then CIPHERED else CLEAR)))))],
      [EncryptionOpen(VeraCrypt, (w: SniffWindow) => Maybe,
                      (s: Source) => Ok(CipherLayer((c: Credentials) => Ok(Image(PLAIN)))))],
      [], [])
  }

  // Images keep the contract of positioned reads.
  lemma ImageFills(n: u64)
    ensures FillsToEnd(Image(n), Zeros(n))
  {
    forall offset: u64, cap: nat ensures ReadFills(Image(n), Zeros(n), offset, cap) {
      if offset < n {
        assert Zeros(n)[offset..offset + Min(cap, n - offset)] == Zeros(Min(cap, n - offset));
      }
    }
  }

  lemma ImageWindow(n: u64)
    requires n <= 4096
    ensures SniffSource(Image(n)) == Ok(SniffWindow(0, Zeros(n), n, Zeros(n)))
  {
    ImageFills(n);
    WindowHolds(Image(n), Zeros(n));
    assert Zeros(n)[..n] == Zeros(n) == Zeros(n)[0..];
  }

  lemma ImageMounts(reg: Openers, n: u64, spec: Locator, depth: nat, creds: Credentials)
    requires depth <= 8 && (n == PLAIN || n == CLEAR) && reg.filesystems == ShadowRegistry().filesystems
    ensures OpenWithCredentials(reg, Image(n), spec, depth, creds)
         == Ok(Some(Resolved(Mounted(n), spec.Push(FsLayer("ntfs", Path([]))), Image(n), spec)))
  {
    ImageWindow(n);
  }

  // The first volume, guessing: the scheme decrypts and its plaintext mounts.
  lemma FirstVolumeGuessed(spec: Locator, creds: Credentials)
    ensures var found := OpenWithCredentials(ShadowRegistry(), Image(CIPHERED), spec, 1, creds);
            found.Ok? && found.value.Some? && found.value.value.fs == Mounted(PLAIN)
  {
    var reg, s := ShadowRegistry(), Image(CIPHERED);
    ImageWindow(CIPHERED);
    var w := SniffSource(s).value;
    hide SniffSource, Image;
    ImageMounts(reg, PLAIN, spec.Push(EncryptionLayer(VeraCrypt)), 2, creds);
    assert MountFilesystem(reg.filesystems, w, s, spec) == Ok(None);
    assert DescendVolumeSystems(reg, reg.volumeSystems, w, s, spec, 1, creds) == Ok(None);
    assert [] + [0] == [0];
    assert DescendSignatureEncryption(reg, w, s, spec, 1, creds, 0, []) == Ok(SignaturePass(None, [0]));
    assert DescendPackaging(reg, w, s, spec, 1, DiskDescent(reg, 1, creds)) == Ok(None);
  }

  // The first volume, not guessing: a clean unknown.
  lemma FirstVolumeUnknown(spec: Locator, creds: Credentials)
    ensures OpenWithCredentials(GuessFree(ShadowRegistry()), Image(CIPHERED), spec, 1, creds) == Ok(None)
  {
    var reg, s := GuessFree(ShadowRegistry()), Image(CIPHERED);
    ImageWindow(CIPHERED);
    var w := SniffSource(s).value;
    hide SniffSource, Image;
    assert reg.encryption == [Unguessing(ShadowRegistry().encryption[0])];
    assert MountFilesystem(reg.filesystems, w, s, spec) == Ok(None);
    assert DescendVolumeSystems(reg, reg.volumeSystems, w, s, spec, 1, creds) == Ok(None);
    assert DescendSignatureEncryption(reg, w, s, spec, 1, creds, 0, []) == Ok(SignaturePass(None, []));
    assert DescendPackaging(reg, w, s, spec, 1, DiskDescent(reg, 1, creds)) == Ok(None);
  }

  // The disk itself: nothing mounts, and the two volumes are tried in order.
  lemma DiskTriesVolumes(reg: Openers, spec: Locator, creds: Credentials)
    requires reg.filesystems == ShadowRegistry().filesystems
    requires reg.volumeSystems == ShadowRegistry().volumeSystems
    ensures var first := OpenWithCredentials(reg, Image(CIPHERED), spec.Push(VolumeLayer(Gpt, 0, None)), 1, creds);
            var second := OpenWithCredentials(reg, Image(CLEAR), spec.Push(VolumeLayer(Gpt, 1, None)), 1, creds);
            && (first.Ok? && first.value.Some? ==> OpenWithCredentials(reg, Image(DISK), spec, 0, creds) == first)
            && (first == Ok(None) && second.Ok? && second.value.Some? ==>
                  OpenWithCredentials(reg, Image(DISK), spec, 0, creds) == second)
  {
    ImageWindow(DISK);
    var w := SniffSource(Image(DISK)).value;
    hide SniffSource, Image;
    assert MountFilesystem(reg.filesystems, w, Image(DISK), spec) == Ok(None);
    var table := reg.volumeSystems[0].open(Image(DISK)).value;
    assert table.count == 2;
    assert table.openVolume(0) == Ok(Image(CIPHERED)) && table.openVolume(1) == Ok(Image(CLEAR));
    assert DescendVolumes(reg, Gpt, table, spec, 0, creds, 2) == Ok(None);
  }

  // The second volume holds a filesystem that is found without guessing, yet the
  // guess inside the first volume answers first.
  lemma GuessCanShadowALaterVolume(creds: Credentials, spec: Locator)
    ensures var reg := ShadowRegistry();
            var guessed := OpenWithCredentials(reg, Image(DISK), spec, 0, creds);
            var honest := OpenWithCredentials(GuessFree(reg), Image(DISK), spec, 0, creds);
            && guessed.Ok? && guessed.value.Some? && guessed.value.value.fs == Mounted(PLAIN)
            && honest.Ok? && honest.value.Some? && honest.value.value.fs == Mounted(CLEAR)
  {
    FirstVolumeGuessed(spec.Push(VolumeLayer(Gpt, 0, None)), creds);
    DiskTriesVolumes(ShadowRegistry(), spec, creds);
    FirstVolumeUnknown(spec.Push(VolumeLayer(Gpt, 0, None)), creds);
    ImageMounts(GuessFree(ShadowRegistry()), CLEAR, spec.Push(VolumeLayer(Gpt, 1, None)), 1, creds);
    DiskTriesVolumes(GuessFree(ShadowRegistry()), spec, creds);
  }

  // ---- the limit of decoy transparency ----

  // A scheme that is always `Maybe` but fails to construct is loud: it turns
  // every clean unknown into an error.
  lemma FailedConstructionIsLoud(reg: Openers, at: nat, enc: EncryptionOpen, creds: Credentials,
                                 source: Source, spec: Locator, depth: nat)
    requires at <= |reg.encryption| && depth <= 8
    requires forall w :: enc.probe(w) == Maybe
    requires forall s :: enc.open(s).Err?
    requires OpenWithCredentials(reg, source, spec, depth, creds) == Ok(None)
    ensures OpenWithCredentials(WithScheme(reg, at, enc), source, spec, depth, creds).Err?
  {
    var noisy := WithScheme(reg, at, enc);
    CleanUnknown(reg, source, spec, depth, creds);
    CleanUnknown(noisy, source, spec, depth, creds);
    var answer := OpenWithCredentials(noisy, source, spec, depth, creds);
    assert enc in noisy.encryption;
    assert Follows(noisy, creds, source, []) && End(source, []) == source;
    if answer.Ok? && answer.value.Some? {
      var hops, k := SuccessReplays(noisy, source, spec, depth, creds, answer.value.value);
      FollowsWithout(reg, at, enc, creds, source, hops);
    }
  }

  lemma {:induction false} FollowsWithout(reg: Openers, at: nat, enc: EncryptionOpen, creds: Credentials,
                                          source: Source, hops: seq<Hop>)
    requires at <= |reg.encryption|
    requires forall s :: enc.open(s).Err?
    requires Follows(WithScheme(reg, at, enc), creds, source, hops)
    ensures Follows(reg, creds, source, hops)
    decreases |hops|
  {
    if hops != [] {
      FollowsWithout(reg, at, enc, creds, hops[0].child, hops[1..]);
      assert forall o :: o in WithScheme(reg, at, enc).encryption ==> o == enc || o in reg.encryption;
    }
  }
}
