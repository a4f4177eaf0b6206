/**
 The declarative reading of the resolver: at every node a fixed-order list of
 actions, and the flat list of every outcome of the transform tree cut at
 depth 8. Nothing here stops early.
 */
module Enumeration {
  import opened Basics
  import opened Locators
  import opened Registry
  import opened Sniff
  import opened Resolver

  // One thing a node offers.
  datatype Action =
    | Fail(error: Error)
    | Mount(fs: Mounted, kind: FsKind)
    | Descend(child: Source, layer: Layer)

  // A failure or a mount, and whether a last-resort decrypt lies on its route.
  datatype Outcome = Outcome(guessed: bool, verdict: VfsResult<Resolved>)

  // What each kind of opener offers at a node, given the node's window.

  ghost function MountAction(o: FileSystemOpen, source: Source): Action {
    match o.open(source)
    case Err(e) => Fail(e)
    case Ok(fs) => Mount(fs, o.kind)
  }

  ghost function FsOffers(w: SniffWindow, source: Source): FileSystemOpen -> seq<Action> {
    (o: FileSystemOpen) => if !o.probe(w).No? then [MountAction(o, source)] else []
  }

  ghost function VolumeAction(scheme: VolumeScheme, table: VolumeTable, index: nat): Action
    requires index < table.count
  {
    match table.openVolume(index)
    case Err(e) => Fail(e)
    case Ok(sub) => Descend(sub, VolumeLayer(scheme, index, None))
  }

  // The volumes of one table from `index` on.
  ghost function TableActions(scheme: VolumeScheme, table: VolumeTable, index: nat): seq<Action>
    decreases table.count - index
  {
    if index >= table.count then []
    else [VolumeAction(scheme, table, index)] + TableActions(scheme, table, index + 1)
  }

  ghost function VolumeOffers(w: SniffWindow, source: Source): VolumeSystemOpen -> seq<Action> {
    (o: VolumeSystemOpen) =>
      if o.probe(w).No? then []
      else match o.open(source)
           case Err(e) => [Fail(e)]
           case Ok(table) => TableActions(o.scheme, table, 0)
  }

  ghost function SignatureAction(o: EncryptionOpen, source: Source, creds: Credentials): Action {
    match o.open(source)
    case Err(e) => Fail(e)
    case Ok(layer) =>
      match layer.decrypt(creds)
      case Err(e) => Fail(e)
      case Ok(plain) => Descend(plain, EncryptionLayer(o.scheme))
  }

  ghost function SignatureOffers(w: SniffWindow, source: Source, creds: Credentials): EncryptionOpen -> seq<Action> {
    (o: EncryptionOpen) => if o.probe(w).Yes? then [SignatureAction(o, source, creds)] else []
  }

  ghost function DecodeAction(o: ContainerOpen, source: Source): Action {
    match o.open(source)
    case Err(e) => Fail(e)
    case Ok(decoded) => Descend(decoded, ContainerLayer(o.format))
  }

  ghost function ContainerOffers(w: SniffWindow, source: Source): ContainerOpen -> seq<Action> {
    (o: ContainerOpen) => if !o.probe(w).No? then [DecodeAction(o, source)] else []
  }

  ghost function MemberActions(members: MemberTable, index: nat): seq<Action>
    decreases |members| - index
  {
    if index >= |members| then []
    else [Descend(members[index], ArchiveLayer(Some(index)))] + MemberActions(members, index + 1)
  }

  ghost function ArchiveOffers(w: SniffWindow, source: Source): ArchiveOpen -> seq<Action> {
    (o: ArchiveOpen) =>
      if o.probe(w).No? then []
      else match o.open(source)
           case Err(e) => [Fail(e)]
           case Ok(Stream(inner)) => [Descend(inner, ArchiveLayer(None))]
           case Ok(Members(members)) => MemberActions(members, 0)
  }

  // A failed decrypt of a guess offers nothing; a failed construction is loud.
  ghost function GuessActions(o: EncryptionOpen, source: Source, creds: Credentials): seq<Action> {
    match o.open(source)
    case Err(e) => [Fail(e)]
    case Ok(layer) =>
      match layer.decrypt(creds)
      case Err(_) => []
      case Ok(plain) => [Descend(plain, EncryptionLayer(o.scheme))]
  }

  ghost function GuessOffers(w: SniffWindow, source: Source, creds: Credentials): EncryptionOpen -> seq<Action> {
    (o: EncryptionOpen) => if o.probe(w).Maybe? then GuessActions(o, source, creds) else []
  }

  // The offers of every opener, in registration order.
  ghost function Gather<O>(openers: seq<O>, offers: O -> seq<Action>): seq<Action> {
    if openers == [] then [] else offers(openers[0]) + Gather(openers[1..], offers)
  }

  ghost function PackagingActions(reg: Openers, w: SniffWindow, source: Source): seq<Action> {
    Gather(reg.containers, ContainerOffers(w, source)) + Gather(reg.archives, ArchiveOffers(w, source))
  }

  // Everything a node offers short of the last resort, in order.
  ghost function FirmActions(reg: Openers, creds: Credentials, w: SniffWindow, source: Source): seq<Action> {
    Gather(reg.filesystems, FsOffers(w, source))
    + Gather(reg.volumeSystems, VolumeOffers(w, source))
    + Gather(reg.encryption, SignatureOffers(w, source, creds))
    + PackagingActions(reg, w, source)
  }

  ghost function LastResort(reg: Openers, creds: Credentials, w: SniffWindow, source: Source): seq<Action> {
    Gather(reg.encryption, GuessOffers(w, source, creds))
  }

  ghost function FirmPlan(reg: Openers, creds: Credentials, source: Source): seq<Action> {
    match SniffSource(source)
    case Err(e) => [Fail(e)]
    case Ok(w) => FirmActions(reg, creds, w, source)
  }

  ghost function LastPlan(reg: Openers, creds: Credentials, source: Source): seq<Action> {
    match SniffSource(source)
    case Err(_) => []
    case Ok(w) => LastResort(reg, creds, w, source)
  }

  ghost function Plan(reg: Openers, creds: Credentials, source: Source): seq<Action> {
    FirmPlan(reg, creds, source) + LastPlan(reg, creds, source)
  }

  ghost function Guessed(outcomes: seq<Outcome>): (r: seq<Outcome>) {
    seq(|outcomes|, i requires 0 <= i < |outcomes| => outcomes[i].(guessed := true))
  }

  // Every outcome below `source`, depth first.
  ghost function Enumerate(reg: Openers, creds: Credentials, source: Source, spec: Locator, depth: nat): seq<Outcome>
    decreases 9 - depth, 2
  {
    if depth > 8 then []
    else Expand(reg, creds, FirmPlan(reg, creds, source), source, spec, depth)
         + Guessed(Expand(reg, creds, LastPlan(reg, creds, source), source, spec, depth))
  }

  ghost function Expand(reg: Openers, creds: Credentials, actions: seq<Action>,
                        source: Source, spec: Locator, depth: nat): seq<Outcome>
    requires depth <= 8
    decreases 9 - depth, 1, |actions|
  {
    if actions == [] then []
    else ExpandOne(reg, creds, actions[0], source, spec, depth)
         + Expand(reg, creds, actions[1..], source, spec, depth)
  }

  ghost function ExpandOne(reg: Openers, creds: Credentials, action: Action,
                           source: Source, spec: Locator, depth: nat): seq<Outcome>
    requires depth <= 8
    decreases 9 - depth, 0
  {
    match action
    case Fail(e) => [Outcome(false, Err(e))]
    case Mount(fs, kind) => [Outcome(false, Ok(Resolved(fs, spec.Push(FsLayer(kind, Path([]))), source, spec)))]
    case Descend(child, layer) => Enumerate(reg, creds, child, spec.Push(layer), depth + 1)
  }

  ghost function First(outcomes: seq<Outcome>): VfsResult<Option<Resolved>> {
    if outcomes == [] then Ok(None)
    else match outcomes[0].verdict
         case Err(e) => Err(e)
         case Ok(found) => Ok(Some(found))
  }

  lemma {:induction false} ExpandAppend(reg: Openers, creds: Credentials, a: seq<Action>, b: seq<Action>,
                                        source: Source, spec: Locator, depth: nat)
    requires depth <= 8
    ensures Expand(reg, creds, a + b, source, spec, depth)
         == Expand(reg, creds, a, source, spec, depth) + Expand(reg, creds, b, source, spec, depth)
    decreases |a|
  {
    if a == [] {
      assert a + b == b;
    } else {
      ExpandAppend(reg, creds, a[1..], b, source, spec, depth);
      assert (a + b)[1..] == a[1..] + b;
    }
  }

  // Marking guesses changes neither the first verdict nor emptiness.
  lemma EnumerateIsPlan(reg: Openers, creds: Credentials, source: Source, spec: Locator, depth: nat)
    requires depth <= 8
    ensures var outcomes := Enumerate(reg, creds, source, spec, depth);
            var expanded := Expand(reg, creds, Plan(reg, creds, source), source, spec, depth);
            First(outcomes) == First(expanded) && (outcomes == [] <==> expanded == [])
  {
    var firm := Expand(reg, creds, FirmPlan(reg, creds, source), source, spec, depth);
    var last := Expand(reg, creds, LastPlan(reg, creds, source), source, spec, depth);
    ExpandAppend(reg, creds, FirmPlan(reg, creds, source), LastPlan(reg, creds, source), source, spec, depth);
    assert |firm + Guessed(last)| == |firm + last|;
    if firm == [] && last != [] {
      assert (firm + Guessed(last))[0] == Guessed(last)[0];
      assert (firm + last)[0] == last[0];
    }
  }

  lemma {:induction false} GatherAppend<O>(a: seq<O>, b: seq<O>, offers: O -> seq<Action>)
    ensures Gather(a + b, offers) == Gather(a, offers) + Gather(b, offers)
  {
    if a == [] {
      assert a + b == b;
    } else {
      GatherAppend(a[1..], b, offers);
      assert (a + b)[1..] == a[1..] + b;
    }
  }

  lemma {:induction false} GatherMember<O>(openers: seq<O>, offers: O -> seq<Action>, action: Action)
    ensures action in Gather(openers, offers) <==> exists o :: o in openers && action in offers(o)
  {
    if openers == [] {
    } else {
      GatherMember(openers[1..], offers, action);
      assert openers == [openers[0]] + openers[1..];
    }
  }
}
