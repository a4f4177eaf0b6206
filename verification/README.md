# A model of the forensic layer stack

The repository reads evidence through a stack of layers: a byte source is sniffed,
claimed by a registered opener, peeled into an inner source, and so on until a
filesystem mounts or a raw stream is left. The route is recorded as a *locator*,
which has a canonical URI. This project models that stack and proves what it keeps.

| part | modules | source |
|---|---|---|
| locators and the registry of openers | `Locators`, `Registry` | `crates/core/src/locator.rs`, `crates/core/src/registry.rs` |
| the two bounded reads behind every probe | `Sniff` | `crates/resolver/src/lib.rs` |
| the backtracking resolver | `Resolver`, `Enumeration`, `ResolverRefinement`, `CleanUnknowns`, `Replay`, `LastResorts`, `Shadowing`, `RawTerminal`, `Routes`, `Reproducibility` | `crates/resolver/src/lib.rs` |
| the directory walk | `Walks`, `WalkTheorems`, `WalkCompleteness` | `crates/resolver/src/lib.rs` |
| the locator URI | `Text`, `Numerals`, `Percent`, `PercentRules`, `Uri`, `UriRoundTrip`, `UriForms`, `UriCanonical`, `UriGrammar` | `crates/core/src/uri.rs` |
| byte-source adapters and the reader pool | `Adapters`, `DiskWindows`, `CursorPool`, `PoolScaling`, `PoolPanics`, `PoolWaiting` | `crates/core/src/adapters.rs`, `crates/core/src/source.rs` |
| bounded integer readers, epoch tags | `Epoch` | `crates/core/src/read.rs`, `crates/resolver/src/lib.rs` |

`Basics` holds bytes, machine integers, saturating arithmetic and the result type.

## How the model is built

**The resolver** is modelled twice. `Resolver` follows the code: functions that stop
at the first success or error, call each other in the code's order and are cut at
depth 8. `Enumeration` stops nowhere: each node has a plan, the flat list of
everything its openers offer, and a tree of plans has a flat list of outcomes.
`ResolverRefinement.OpenIsFirstOutcome` says the first is the head of the second,
for every input; the other resolver theorems rest on it.

- A source is a length and a deterministic read function. An opener is a pure pair
  of a probe and an open, so one run sees one world. The six registry lists become
  five sequences in registration order; the directory openers serve another entry
  point.
- Credentials are a function, passed down unchanged.
- The early-return loops of `open_with_credentials` and `descend_packaging` keep no
  state between rounds and are recursive functions here. The pass that appends to a
  list, `Resolver.RunSignaturePass`, is a loop.

**The walk** is the worklist loop itself, proved equal to a log of expansions. What
is proved of the log: it never repeats a directory, every item was pushed by an
earlier one, and whatever an expanded directory pushed within the cap was expanded
too. The directories above a logged one are a chain without repetitions, so the cap is
harmless wherever such chains stay within 257 directories: on any graph of at most 257
directories, and on a disk of any size that is not deeper than 256.

**The codec** works on strings of Unicode scalar values; percent-decoding emits their
UTF-8 bytes. `FsKind` belongs to a crate that is not part of this model: the list of
known kinds is a parameter, its tokens assumed to use only letters, digits, `.`, `_`
and `-`. `FileId` has the six variants the codec prints, with the widths its casts
imply. Paths are the raw bytes of a Unix path; Rust compares paths by component,
which is coarser, so equality here is the stronger claim. The code's string-building
loops are methods proved equal to the functions the theorems speak of. `UriGrammar`
writes the accepted language down on its own, from literal tokens, digits and bytes: the
decoder accepts exactly that grammar, and the printer gives its one canonical spelling.

**The adapters** give a source a denotation, its bytes. Base reads may fail, read
short, or scribble on the rest of the slice they were given, unless the base is marked
reliable: then it never fails and fills every read up to its end, and what is read
through the adapters is determined exactly. The cursor is a class refined to an ideal
cursor; `DiskWindows` hands a tower of windows to the resolver as a source. The reader
pool is a class for one call at a time and, for many threads, a step-by-step protocol
with try-lock, block-on-first, seek, short read, release, failure and panic as separate
steps.

Caps, alphabets, tokens and the two dot names are written out in the theorems, so that
no statement rests on the code's own constant. `usize` is 64 bits wide. Errors are a small enumeration without text.

## Where code and documentation disagree

The model follows the code.

- `crates/resolver/src/lib.rs:109-110` promises that a `Maybe` guess can never shadow a
  real filesystem. It holds within one node (`LastResorts.FirmBeforeGuessAtANode`),
  not across nodes: a guess inside volume 0 answers before volume 1 is tried
  (`crates/resolver/src/lib.rs:272-281`, `LastResorts.GuessCanShadowALaterVolume`).
  `Shadowing.PlainFilesystemIsShadowedExactly` and `Shadowing.NamedFilesystemIsShadowedExactly`
  say exactly when it happens.
- `crates/resolver/src/lib.rs:155-161` says `resolve_to_source` tries archive members in
  turn and yields `None` past the cap. Within the cap a child never misses
  (`crates/resolver/src/lib.rs:328-348`), so the first member is always taken, and from
  depth 8 or less the answer is never `None`.
- `fuzz/fuzz_targets/fuzz_pathspec.rs:3-4` says accepted text round-trips byte for byte.
  The decoder is lenient, so this fails, e.g. for `loc:archive:+3`.
  `UriCanonical.ReencodesExactlyCanonical` says for which texts it holds. The check that
  file makes, that re-encoded text decodes to the same locator, is
  `UriForms.DecodeNormalises`.
- `crates/core/src/adapters.rs:177-181` says parallel reads scale up to the pool size. A
  slot poisoned by a panic is refused by `try_lock` for good, unless it is the first
  (`CursorPool.AbandonedForever`, and `PoolPanics.OnePanicHalvesThePool` for a concrete
  run). `PoolScaling.PoolScalesExactlyWhen` says exactly when all slots can be busy.
- The same lines say a read blocks "on one if all are busy". It blocks on the first slot
  alone: another slot that is released meanwhile does not help it
  (`PoolWaiting.WaiterIgnoresAFreedSlot`). `PoolWaiting.WaiterIsLeftExactlyWhen` says
  exactly which pools and reads this can befall.
- `crates/resolver/src/lib.rs:566-569` says the walk enumerates every node. The depth cap can
  silently leave a reachable directory unexpanded
  (`WalkCompleteness.OneDirectoryMoreIsMissed`). `WalkCompleteness.CompleteExactlyWhen`
  says when it does not, on any graph, by a condition on the answer;
  `WalkCompleteness.TreeWalkIsCompleteExactlyWhen` says it for ordinary disks, by their depth.
- `crates/core/src/locator.rs:3-5` calls the locator the cache key and the reproducibility
  record, and says it carries no credentials. One disk and two keys, say of an outer and of
  a hidden volume, can give two answers with one locator
  (`Reproducibility.TwoKeysOneLocator`), and so can two registration orders of openers that
  share a scheme (`Reproducibility.LocatorCanNameTwoSources`).
  `Reproducibility.LocatorDecidesExactlyWhen` says exactly when routes of one locator end at
  one source, `Reproducibility.UnambiguousDecidesExactlyWhen` says it in terms of the keys,
  and `Reproducibility.AnswersAgree` that two answers then agree in full.

## Model

| member | source | states |
|---|---|---|
| ResolverRefinement.OpenIsFirstOutcome | crates/resolver/src/lib.rs:236-320 | for every registry, source, locator, depth and credentials, the early-exit search answers with the first outcome, success or error, of the full depth-first enumeration cut at depth 8, in the order filesystem, volumes by index, `Yes` encryption, containers, archives, `Maybe` encryption; `Ok(None)` exactly when that list is empty |
| ResolverRefinement.SignatureIsFirst | crates/resolver/src/lib.rs:443-471 | the eager pass answers with the first signature outcome, and after a clean miss it has noted exactly the `Maybe` schemes, in order |
| ResolverRefinement.AttemptsAreFirst | crates/resolver/src/lib.rs:481-505 | the last-resort pass over the noted schemes answers with the first outcome behind a successful guess or a failed construction |
| ResolverRefinement.PackagingIsFirst | crates/resolver/src/lib.rs:366-411 | containers, then archives and their members by index, answer with the first outcome of the peeled children |
| Resolver.RunSignaturePass | crates/resolver/src/lib.rs:443-471 | the loop that appends to the caller's list computes the pass the search uses, both its answer and the list it leaves |
| CleanUnknowns.CleanUnknown | crates/resolver/src/lib.rs:243-320 | `Ok(None)` if and only if every node reachable within the remaining budget sniffs, mounts nothing, and opens everything it calls for except decrypts of `Maybe` layers |
| CleanUnknowns.DescentsArePeels | crates/resolver/src/lib.rs:272-319 | the children a node descends into are exactly those some registered candidate opener yields, with the layer it records |
| CleanUnknowns.QuietIsAllDescents | crates/resolver/src/lib.rs:246-319 | a node offers nothing but descents if and only if it sniffs, no filesystem claims it and all its opens succeed |
| Replay.SuccessReplays | crates/resolver/src/lib.rs:254-319 | a success extends the starting locator by at most 8 − depth layers, each yielded by a registered candidate from the source before it, ending at the returned source, mounted by the first candidate filesystem; `spec` is `source_spec` plus one filesystem layer |
| Replay.FailureReplays | crates/resolver/src/lib.rs:236-320 | an error was raised by the read of, or an open called for at, a node that registered openers reach within the budget |
| Routes.OutcomesHaveRoutes | crates/resolver/src/lib.rs:254-319 | every success in the enumeration, not only the first, is a candidate filesystem's mount at the end of a justified route its locator records |
| Routes.RoutesAreOutcomes | crates/resolver/src/lib.rs:254-319 | conversely every justified route within the budget that ends in a mount is a success of the enumeration |
| Reproducibility.LocatorDecidesExactlyWhen | crates/core/src/locator.rs:3-8 | for any two sets of credentials, routes that record the same layers end at the same source if and only if any two peels of one source that record the same layer do |
| Reproducibility.UnambiguousDecidesExactlyWhen | crates/core/src/locator.rs:3-8 | where schemes and formats name one opener of their family and at most one archive opener claims a source, layers decide if and only if the two keys never decrypt one source to two; so for one set of credentials they always do |
| Reproducibility.LocatorNamesSource | crates/core/src/locator.rs:3-8 | where layers decide, any two successes of the two enumerations with the same `source_spec` have the same source |
| Reproducibility.AnswersAgree | crates/core/src/locator.rs:3-8 | where layers decide, two answers of the resolver with the same `source_spec`, from whatever depths and with either key, are equal in source, mount and locator |
| Reproducibility.TwoKeysOneLocator | crates/core/src/locator.rs:4-6 | on one disk and one registry whose names tell openers apart, two keys make the resolver answer with the same locators and different sources |
| Reproducibility.LocatorCanNameTwoSources | crates/core/src/locator.rs:62-66 | the resolver, given the same two openers of one scheme in either order, answers with the same locators and different sources |
| LastResorts.DecoyIsTransparent | crates/resolver/src/lib.rs:285-319 | inserting, anywhere in the list, a scheme that always says `Maybe`, constructs and never decrypts changes no answer, at any source or depth |
| LastResorts.FailedConstructionIsLoud | crates/resolver/src/lib.rs:478-493 | a `Maybe` scheme that fails to construct turns every clean unknown into an error |
| LastResorts.GuessFreeOutcomes | crates/resolver/src/lib.rs:466-505 | switching all guesses off removes from the enumeration exactly the outcomes behind one |
| LastResorts.UnguessedAnswersStand | crates/resolver/src/lib.rs:285-319 | an answer that did not come from behind a guess is the answer without guesses |
| LastResorts.FirmBeforeGuessAtANode | crates/resolver/src/lib.rs:283-319 | within one node, whatever anything but a guess leads to, success or error, is the answer |
| LastResorts.GuessCanShadowALaterVolume | crates/resolver/src/lib.rs:272-281 | a concrete disk of sources that fill their reads, on which a guess inside the first volume displaces the filesystem of the second |
| LastResorts.ImageFills | crates/core/src/source.rs:132-134 | the sources of that disk keep the contract of positioned reads, for every size |
| Shadowing.PlainFilesystemIsShadowedExactly | crates/resolver/src/lib.rs:109-110 | a filesystem found without guessing, behind no encryption, is lost if and only if the search comes to a node where only a guess leads anywhere |
| Shadowing.NamedFilesystemIsShadowedExactly | crates/resolver/src/lib.rs:109-110 | where names tell openers apart, the same equivalence for every filesystem found without guessing, encrypted or not: no guess ever finds it again |
| Shadowing.GuessSiteAnswers | crates/resolver/src/lib.rs:272-319 | that condition on probes and opens holds exactly when the first outcome of the enumeration lies behind a guess |
| Shadowing.GuessSiteDecides | crates/resolver/src/lib.rs:272-319 | at such a node the resolver's answer is what that guess's child answers, error or success |
| Shadowing.GuessedAnswersDecipher | crates/resolver/src/lib.rs:481-505 | a filesystem answered from behind a guess carries an encryption layer past the starting locator |
| RawTerminal.ResolveIsGreedy | crates/resolver/src/lib.rs:322-349 | from depth 8 or less the terminal equals a greedy single-path peel of the remaining budget, errors included, and is never `Ok(None)` |
| RawTerminal.ResolveReplays | crates/resolver/src/lib.rs:322-411 | the terminal's locator replays a chain of first peels, containers, streams or member 0 only, of at most 8 − depth layers, ending at the cap or at a source that only empty archives claim |
| RawTerminal.UnclaimedIsNoPeel | crates/resolver/src/lib.rs:374-409 | a source has no first peel exactly when no container claims it and every claiming archive is empty |
| Sniff.FillSniffBuffers | crates/resolver/src/lib.rs:422-432 | filling the two buffers in place yields the buffers and counts the window is made from, or the first read's failure |
| Sniff.SniffShowsReads | crates/resolver/src/lib.rs:422-432 | whatever the source answers, the window shows what one read of up to 128 KiB from the start and one of up to 4 KiB before the end stored, as far as they reported, or the first failure |
| Sniff.WindowHolds | crates/resolver/src/lib.rs:422-432 | over a source that fills reads, the window is the first 128 KiB and the last 4 KiB of it, also when they overlap or it is empty |
| Sniff.WindowAgreesWithSource | crates/core/src/registry.rs:118-136 | head and tail probes answer with the source's own bytes, and answer at all exactly as far as the caps reach |
| Sniff.MagicAgreesWithSource | crates/core/src/registry.rs:125-144 | a magic matches in the window if and only if it stands in the source, within the caps |
| Walks.Walk | crates/resolver/src/lib.rs:573-601 | the worklist loop terminates and returns what its expansions emit, in order, or the first failure |
| WalkTheorems.RunKeepsGood | crates/resolver/src/lib.rs:577-599 | on every run the expanded directories are pairwise distinct, within the cap, each pushed by an earlier one, and never deeper than their place in the log |
| WalkTheorems.ExpansionIsExact | crates/resolver/src/lib.rs:581-594 | an expansion emits an entry if and only if the directory holds it under a name other than exactly `.` and `..`, with its metadata |
| WalkTheorems.ListingOrder | crates/resolver/src/lib.rs:581-594 | of two entries of one listing the earlier is emitted earlier, each once, and only dots are left out |
| WalkTheorems.WalkGoesDown | crates/resolver/src/lib.rs:576-597 | after a directory the walk expands the last subdirectory it lists that has not been expanded, if there is one within the cap |
| WalkTheorems.EntriesAreReal | crates/resolver/src/lib.rs:577-600 | every emitted path is a chain of real directories from the root, of length 1 to 257, ending in an entry they hold |
| WalkTheorems.ParentsComeFirst | crates/resolver/src/lib.rs:577-600 | every entry with a longer path follows the entry for its parent, a directory that holds it |
| WalkTheorems.PathsAreDistinct | crates/resolver/src/lib.rs:577-600 | emitted paths are pairwise distinct when each listing's names are, loops and shared directories included |
| WalkTheorems.FailuresAreReal | crates/resolver/src/lib.rs:571-600 | an error was raised by reading a directory that some path of length at most 256 leads to |
| WalkCompleteness.CompleteExactlyWhen | crates/resolver/src/lib.rs:573-601 | on any graph, a walk that finishes has expanded every reachable directory exactly once if and only if each directory it emitted at a path longer than 256 is the root or also emitted at a shorter one |
| WalkCompleteness.ExpandedAreNear | crates/resolver/src/lib.rs:578-580 | on any graph, every expanded directory has a path of length at most 256 |
| WalkCompleteness.WalkIsComplete | crates/resolver/src/lib.rs:573-601 | where no repetition-free chain from the root is longer than 257 directories, loops and shared directories allowed, and nothing fails, every reachable directory is expanded exactly once and the output is exactly their entries |
| WalkCompleteness.FailsExactlyWhenReadingFails | crates/resolver/src/lib.rs:573-601 | under the same bound the walk fails if and only if reading a reachable directory fails |
| WalkCompleteness.BeyondCapIsVisited | crates/resolver/src/lib.rs:578-580 | under the same bound, whatever the depth cap drops was expanded |
| WalkCompleteness.FewDirectoriesMakeShortChains | crates/resolver/src/lib.rs:49-49 | at most 257 directories, in any arrangement, satisfy that bound |
| WalkCompleteness.ShallowDirectoriesMakeShortChains | crates/resolver/src/lib.rs:49-49 | so does any number of directories none of which has a path longer than 256 |
| WalkCompleteness.TreeWalkIsCompleteExactlyWhen | crates/resolver/src/lib.rs:573-601 | where each directory is met along one path, a walk that finishes is complete if and only if no directory lies deeper than 256, whatever their number |
| WalkCompleteness.TreeWalkExpands | crates/resolver/src/lib.rs:578-598 | there it expands exactly the directories whose path is within the cap |
| WalkCompleteness.TreeWalkFailsExactlyWhen | crates/resolver/src/lib.rs:571-600 | there it fails if and only if reading a directory within the cap fails |
| WalkCompleteness.OneDirectoryMoreIsMissed | crates/resolver/src/lib.rs:49-49 | the bound is tight: on a chain of 258 directories the walk succeeds and leaves the last one unexpanded |
| Locators.LayersCountDepth | crates/core/src/locator.rs:139-161 | the listed layers number the depth, and the first of them is the base |
| Locators.LayersDetermineLocator | crates/core/src/locator.rs:154-161 | two chains with the same listed layers are the same locator |
| Locators.PushAllAppends | crates/core/src/locator.rs:130-161 | pushing layers appends them to the listing and keeps the base |
| Percent.RunEncode | crates/core/src/uri.rs:38-48 | the loop computes the escape form the round trip is proved of |
| Percent.RunDecode | crates/core/src/uri.rs:50-69 | the index loop computes the decoding the round trip is proved of, rejections included |
| PercentRules.EscapeRule | crates/core/src/uri.rs:36-48 | a byte is written as itself if it is in `0-9`, `A-Z`, `a-z`, `-`, `.`, `_`, and otherwise as `%` and its two upper-case digits |
| PercentRules.EncodeAppend | crates/core/src/uri.rs:38-48 | a sequence is escaped byte by byte, so that rule settles every text |
| PercentRules.DecodesExactly | crates/core/src/uri.rs:50-69 | a text is read as given bytes if and only if each escape names its byte, in digits of either case or a `+` and one digit, and everything else is its UTF-8 |
| PercentRules.RawTextIsUtf8 | crates/core/src/uri.rs:54-66 | text without `%` is always accepted, and a UTF-8 reader reads the result back as the text |
| PercentRules.AsciiStandsAsItIs | crates/core/src/uri.rs:63-66 | ASCII text without `%` is read byte for byte, delimiters included |
| Percent.RoundTrip | crates/core/src/uri.rs:38-69 | every byte sequence survives escape and unescape |
| Percent.Reprints | crates/core/src/uri.rs:38-69 | accepted text is re-escaped as it stood if and only if its escapes are upper-case and needed and nothing reserved is bare |
| Numerals.DecimalReprints | crates/core/src/uri.rs:175-183 | a parsed number prints back as it stood if and only if it had no sign and no leading zero |
| PercentRules.NumbersAreExact | crates/core/src/uri.rs:175-183 | a text is read as a number if and only if it is a numeral of that place value below the bound, perhaps behind a `+` |
| PercentRules.DecimalRule | crates/core/src/uri.rs:207-215 | a number is printed as the numeral of its place value that has no leading zero |
| Uri.RunHexOf | crates/core/src/uri.rs:185-191 | the loop prints the hex digits the GUID round trip is proved of |
| Uri.RunParseGuid | crates/core/src/uri.rs:192-204 | the loop over sixteen slots parses exactly what the GUID round trip is proved of, rejections included |
| Uri.RunToUri | crates/core/src/uri.rs:440-450 | the loop over layers builds the URI the codec theorems speak of |
| Uri.RunFromUri | crates/core/src/uri.rs:454-468 | the pushing loop builds the locator, or gives the rejection, the codec theorems speak of |
| UriRoundTrip.UriRoundTrips | crates/core/src/uri.rs:436-468 | lossless: for every locator over the known kinds, decoding its URI gives the locator back |
| UriRoundTrip.UrisAreInjective | crates/core/src/uri.rs:3-9 | two different locators never share a URI |
| UriRoundTrip.LayerRoundTrip | crates/core/src/uri.rs:326-434 | every layer of every kind survives its token |
| UriRoundTrip.NodeAddrRoundTrip | crates/core/src/uri.rs:278-324 | every node address survives, with empty paths, empty components and components full of delimiters |
| UriRoundTrip.FileIdRoundTrip | crates/core/src/uri.rs:207-254 | all six kinds of file id survive, at their full widths |
| UriRoundTrip.StreamRoundTrip | crates/core/src/uri.rs:256-276 | every stream id survives its token |
| UriRoundTrip.PairsRoundTrip | crates/core/src/uri.rs:185-204 | every GUID survives its hex form |
| UriForms.DecodeNormalises | fuzz/fuzz_targets/fuzz_pathspec.rs:9-15 | whatever text is accepted, its locator re-encodes to text that decodes to the same locator |
| UriForms.DelimitersAreStructure | crates/core/src/uri.rs:7-9 | a URI of n layers holds exactly n − 1 bars and n + 1 colons, and nothing outside the delimiters, `%` and the unreserved set |
| UriForms.LegacyDecodesAlike | crates/core/src/uri.rs:454-460 | with `fvfs:` for `loc:` and any choice of `file:` tags written `os:`, a text decodes to the same locator or is rejected alike |
| UriForms.RespelledParsesAlike | crates/core/src/uri.rs:361-369 | a layer written with the legacy `os:` tag parses as with `file:` |
| UriGrammar.DecoderIsTheGrammar | crates/core/src/uri.rs:361-468 | the decoder accepts a text for a locator if and only if the grammar does: every tag, token, field, slash, sign, truncation and ignored field of the language, new form and old |
| UriGrammar.RejectsAsDecode | crates/core/src/uri.rs:27-34 | a text is rejected as malformed, and never otherwise, if and only if the grammar spells no locator with it |
| UriGrammar.PrinterIsTheCanonicalSpelling | crates/core/src/uri.rs:326-450 | the printed text of a locator over the known kinds is its one spelling that is canonical |
| UriGrammar.LayersAreExact | crates/core/src/uri.rs:361-434 | a piece is read as a layer if and only if it is one of that layer's tags, a colon and a body that spells it |
| UriGrammar.NodeAddrsAreExact | crates/core/src/uri.rs:293-324 | a text is read as a node address if and only if it spells it, with or without the slash after its letter |
| UriGrammar.FileIdsAreExact | crates/core/src/uri.rs:223-254 | a text is read as a file id if and only if its first fields spell it, 64-bit numbers cut to the field's width |
| UriGrammar.ContainerNames | crates/core/src/uri.rs:92-122 | each container format is printed as, and read from, its literal token |
| UriGrammar.BothSlashesAreRead | crates/core/src/uri.rs:22-24 | `fvfs:os:%2Fimg.raw` and `loc:file:/img.raw` are read as the path `/img.raw` |
| UriCanonical.ReencodesExactlyCanonical | crates/core/src/uri.rs:436-468 | accepted text is re-encoded unchanged if and only if its spelling is canonical |
| UriCanonical.FileIdReprints | crates/core/src/uri.rs:223-254 | a file id prints back as it stood exactly when no number is truncated, signed or zero-padded and no field trails |
| UriCanonical.NodeAddrReprints | crates/core/src/uri.rs:293-324 | a node address prints back as it stood exactly when its slashes, its id and its components are spelled as printed |
| UriCanonical.VolumeReprints | crates/core/src/uri.rs:385-398 | a volume body prints back as it stood exactly when it has two or three fields, a plain index and a lower-case GUID |
| UriCanonical.LenientTextsAreAccepted | crates/core/src/uri.rs:425-431 | a concrete accepted text that is not re-encoded unchanged |
| Adapters.ReadAt | crates/core/src/adapters.rs:41-52 | a read through any tower of windows delivers a prefix of the denoted bytes at its offset and touches nothing past the wanted length; the base is asked for exactly the window's own range, clamped and never saturated, or not at all past the end; over a reliable base it succeeds with exactly what the window still holds |
| Adapters.TowerIsFlat | crates/core/src/adapters.rs:26-34 | any tower of windows denotes one slice of the base: from the sum of the starts to the least of the requested ends |
| Adapters.TowerStretch | crates/core/src/adapters.rs:26-34 | a tower starts at the sum of the requested starts and is as long as the stretch up to the least end |
| Adapters.RequestsStayInside | crates/core/src/adapters.rs:16-19 | what a read asks of the base lies inside the stretch the requested windows carve out |
| DiskWindows.SourceOfFills | crates/core/src/source.rs:132-134 | a reliable tower, handed to the resolver as a source, fills every read with the bytes it denotes |
| DiskWindows.ReadsServe | crates/core/src/adapters.rs:41-52 | what a positioned read of a reliable tower delivers is what that source serves |
| DiskWindows.PartitionProbesSeeTheDisk | crates/core/src/registry.rs:123-144 | however deep the windows, a magic matches in a partition's head or tail if and only if it stands at that place of the disk, inside the partition and within the caps |
| Adapters.ReadExactAt | crates/core/src/source.rs:163-175 | success means every byte asked for is in range and delivered; asking past the end is an error; over a reliable base it succeeds exactly when the range is inside |
| Adapters.AllocatedLen | crates/core/src/source.rs:107-111 | the saturating fold is the true total, saturated once |
| Adapters.SourceCursor.Read | crates/core/src/adapters.rs:141-156 | a read is a step of the ideal cursor over the window: a prefix of what follows the position, which advances by exactly that; a failure moves nothing; over a reliable source it fills the buffer up to the window's end |
| Adapters.SourceCursor.Seek | crates/core/src/adapters.rs:158-175 | a seek from the start, the end or the position lands at that origin plus the offset: before the window it fails and moves nothing, beyond 64 bits it is clamped |
| Adapters.ReadsConcatenate | crates/core/src/adapters.rs:141-156 | over any run of short or failed reads, the bytes read concatenate to the window from the starting position |
| Adapters.ReadsAfterSeek | crates/core/src/adapters.rs:141-175 | after a seek, reads continue from its answer, from the old position if it failed, and deliver nothing past the end |
| Adapters.ReadsFromEnd | crates/core/src/adapters.rs:158-175 | after seeking k bytes back from the end, reads deliver a prefix of the last k bytes; if the window is shorter the seek fails and reads go on where they were |
| Adapters.SeekAndBack | crates/core/src/adapters.rs:164-164 | a seek relative to the position and its reverse cancel |
| CursorPool.SeekPoolSource.ReadAt | crates/core/src/adapters.rs:222-250 | wherever the checked-out reader stood, a successful read answers with exactly the stream's bytes at its own offset, as many as were asked for and exist, and touches no others; it fails only if a reader does |
| CursorPool.RunKeepsInv | crates/core/src/adapters.rs:203-250 | over every schedule a slot is held by exactly the call inside it and each call has a prefix of its own answer |
| CursorPool.CompletedReadsAreExact | crates/core/src/adapters.rs:203-250 | for any threads, any non-empty pool, any interleaving and any panics, a completed read holds exactly its own bytes and no slot has two calls inside |
| CursorPool.SomeStepIsEnabled | crates/core/src/adapters.rs:203-215 | while a read is pending, it or the holder of the slot it waits for can take a step that is neither a failure nor a panic |
| CursorPool.SchedulesAreBounded | crates/core/src/adapters.rs:203-250 | every schedule is finite, bounded by the effort its calls have left |
| CursorPool.MaximalSchedulesSettle | crates/core/src/adapters.rs:203-250 | a schedule that cannot be continued has settled every call: no deadlock |
| CursorPool.AbandonedForever | crates/core/src/adapters.rs:204-214 | a free poisoned slot other than the first is never used again |
| PoolScaling.CheckoutTakesFirst | crates/core/src/adapters.rs:203-214 | a read that runs alone checks out the first free unpoisoned slot, or the first slot if there is none, and nothing else moves |
| PoolScaling.PoolScalesExactlyWhen | crates/core/src/adapters.rs:177-181 | from a fresh pool some schedule has every slot busy at once if and only if no slot but the first is poisoned and there are as many reads with something to read |
| PoolScaling.InsideIsBounded | crates/core/src/adapters.rs:203-214 | in every run the reads inside number at most the slots that are first or unpoisoned, and those only become fewer |
| PoolPanics.RunPoisonsExactly | crates/core/src/adapters.rs:203-250 | over every run, a slot is poisoned at the end if and only if it was at the start or a call panicked inside it |
| PoolPanics.PanicsShrinkThePool | crates/core/src/adapters.rs:203-214 | from a clean pool, at the end of every run the reads inside number at most the slots less the later ones a call has panicked in |
| PoolPanics.OnePanicHalvesThePool | crates/core/src/adapters.rs:203-214 | a concrete run over two clean readers with one panic, after which no two reads are ever inside together, however it goes on |
| PoolWaiting.WaiterIsLeftExactlyWhen | crates/core/src/adapters.rs:177-181 | from a fresh pool some schedule leaves a read blocked on the held first slot beside one it could take if and only if a later slot is unpoisoned and more reads than usable slots have something to read |
| PoolWaiting.WaiterIgnoresAFreedSlot | crates/core/src/adapters.rs:177-181 | a concrete run in which a read cannot move beside a slot that has been released |
| Epoch.BoundedReads | crates/core/src/read.rs:14-26 | a bounded read fits its width, is 0 when the window leaves the data, and otherwise spells exactly the window's bytes, in either byte order |
| Epoch.OrdersMirror | crates/core/src/read.rs:30-35 | a little-endian read is the big-endian read of the reversed window |
| Epoch.RunEpochFromCreateTime | crates/resolver/src/lib.rs:549-553 | the copied array is the tag the order theorems speak of |
| Epoch.TagReadsBack | crates/resolver/src/lib.rs:543-553 | the 64-bit big-endian reader at offset 24 of a tag gives the time back, and the bytes before it are zero |
| Epoch.TagsOrderAsTimes | crates/resolver/src/lib.rs:543-553 | tags compare byte by byte exactly as times compare, and are equal exactly for equal times |
| Epoch.ViewsReopen | crates/resolver/src/lib.rs:527-541 | a snapshot view's locator survives its URI, adds that snapshot to the same source, and its tag reads back as its time |

## Left out

- Concrete decoders, readers and ciphers: they live outside the repository and are arbitrary functions here.
- Openers with hidden state: an opener that answers differently on the same source at two visits is outside the resolver model.
- The base file source, positioned reads of the operating system and non-Unix paths: a base source is a byte sequence whose reads may fail or come back short.
- Listings that never end: a directory listing is a finite sequence.
- CursorPool.SeekPoolSource.Checkout: which free reader is taken is left open, because only the protocol sees other threads.
- CursorPool.MaximalSchedulesSettle: says nothing about which waiting thread a mutex serves next; a waiter can be overtaken as often as other calls remain.
- Reproducibility.AnswersAgree: one way only, because a route that decides nothing need not be one the search ever answers with; the exact condition is stated of all routes.
- CursorPool.SomeStepIsEnabled: assumes the reader underneath returns from each call.
- The pool's `read_at` on an empty pool: the protocol's safety theorem assumes a slot, and the method's contract covers the empty case by a zero-length answer.
- The registry's builder methods and getters: each appends to, or returns, one list, and the lists appear here as they stand after registration.
- The directory entry point, the credential-free wrapper and confidence helpers: settled by reading one branch.
- Filesystem metadata beyond the node kind, stream wrappers and findings: the walk reads none of them.
- Error text, human-readable display and serialisation adapters: rendering.
- The default single-extent map, zero-copy views and source identities: constants.
- The epoch tag type beyond its 32 bytes, and planned features described only in design documents.
