/** The layer resolver: the depth-capped backtracking descent, as the code runs it. */
module Resolver {
  import opened Basics
  import opened Locators
  import opened Registry
  import opened Sniff

  const MAX_DEPTH: nat := 8

  datatype Resolved = Resolved(fs: Mounted, spec: Locator, source: Source, sourceSpec: Locator)
  datatype ResolvedSource = ResolvedSource(source: Source, spec: Locator)

  // What the signature pass hands on: a hit, and the schemes left for last.
  datatype SignaturePass = SignaturePass(found: Option<Resolved>, attempts: seq<nat>)

  function OpenWithCredentials(reg: Openers, source: Source, spec: Locator, depth: nat, creds: Credentials)
    : VfsResult<Option<Resolved>>
    decreases MAX_DEPTH + 1 - depth, 3
  {
    if depth > MAX_DEPTH then Ok(None)
    else
      var window :- SniffSource(source);
      var mounted :- MountFilesystem(reg.filesystems, window, source, spec);
      if mounted.Some? then Ok(mounted) else
      var inVolume :- DescendVolumeSystems(reg, reg.volumeSystems, window, source, spec, depth, creds);
      if inVolume.Some? then Ok(inVolume) else
      var pass :- DescendSignatureEncryption(reg, window, source, spec, depth, creds, 0, []);
      if pass.found.Some? then Ok(pass.found) else
      var packaged :- DescendPackaging(reg, window, source, spec, depth, DiskDescent(reg, depth, creds));
      if packaged.Some? then Ok(packaged) else
      DescendCredentialAttempts(reg, source, spec, depth, creds, pass.attempts)
  }

  function MountFilesystem(filesystems: seq<FileSystemOpen>, window: SniffWindow, source: Source, spec: Locator)
    : VfsResult<Option<Resolved>>
  {
    if filesystems == [] then Ok(None)
    else if filesystems[0].probe(window).IsCandidate() then
      var fs :- filesystems[0].open(source);
      Ok(Some(Resolved(fs, spec.Push(FsLayer(filesystems[0].kind, Path([]))), source, spec)))
    else MountFilesystem(filesystems[1..], window, source, spec)
  }

  function DescendVolumeSystems(reg: Openers, systems: seq<VolumeSystemOpen>, window: SniffWindow,
                                source: Source, spec: Locator, depth: nat, creds: Credentials)
    : VfsResult<Option<Resolved>>
    requires depth <= MAX_DEPTH
    decreases MAX_DEPTH + 1 - depth, 2, |systems|
  {
    if systems == [] then Ok(None)
    else if systems[0].probe(window).IsCandidate() then
      var table :- systems[0].open(source);
      var found :- DescendVolumes(reg, systems[0].scheme, table, spec, depth, creds, 0);
      if found.Some? then Ok(found)
      else DescendVolumeSystems(reg, systems[1..], window, source, spec, depth, creds)
    else DescendVolumeSystems(reg, systems[1..], window, source, spec, depth, creds)
  }

  function DescendVolumes(reg: Openers, scheme: VolumeScheme, table: VolumeTable, spec: Locator,
                          depth: nat, creds: Credentials, index: nat)
    : VfsResult<Option<Resolved>>
    requires depth <= MAX_DEPTH
    decreases MAX_DEPTH + 1 - depth, 1, table.count - index
  {
    if index >= table.count then Ok(None)
    else
      var sub :- table.openVolume(index);
      var found :- OpenWithCredentials(reg, sub, spec.Push(VolumeLayer(scheme, index, None)), depth + 1, creds);
      if found.Some? then Ok(found)
      else DescendVolumes(reg, scheme, table, spec, depth, creds, index + 1)
  }

  // The eager pass over `reg.encryption[i..]`: `Yes` descends, `Maybe` is noted.
  function DescendSignatureEncryption(reg: Openers, window: SniffWindow, source: Source, spec: Locator,
                                      depth: nat, creds: Credentials, i: nat, attempts: seq<nat>)
    : VfsResult<SignaturePass>
    requires depth <= MAX_DEPTH
    decreases MAX_DEPTH + 1 - depth, 2, |reg.encryption| - i
  {
    if i >= |reg.encryption| then Ok(SignaturePass(None, attempts))
    else
      match reg.encryption[i].probe(window)
      case Yes(_) =>
        var layer :- reg.encryption[i].open(source);
        var decrypted :- layer.decrypt(creds);
        var found :- OpenWithCredentials(
          reg, decrypted, spec.Push(EncryptionLayer(reg.encryption[i].scheme)), depth + 1, creds);
        if found.Some? then Ok(SignaturePass(found, attempts))
        else DescendSignatureEncryption(reg, window, source, spec, depth, creds, i + 1, attempts)
      case Maybe =>
        DescendSignatureEncryption(reg, window, source, spec, depth, creds, i + 1, attempts + [i])
      case No =>
        DescendSignatureEncryption(reg, window, source, spec, depth, creds, i + 1, attempts)
  }

  // The same pass in the form the code gives it: a loop that appends to a growing list.
  method RunSignaturePass(reg: Openers, window: SniffWindow, source: Source, spec: Locator,
                          depth: nat, creds: Credentials)
    returns (r: VfsResult<Option<Resolved>>, attempts: seq<nat>)
    requires depth <= MAX_DEPTH
    ensures match DescendSignatureEncryption(reg, window, source, spec, depth, creds, 0, [])
            case Err(e) => r == Err(e)
            case Ok(pass) => r == Ok(pass.found) && attempts == pass.attempts
  {
    attempts := [];
    for i := 0 to |reg.encryption|
      invariant DescendSignatureEncryption(reg, window, source, spec, depth, creds, 0, [])
             == DescendSignatureEncryption(reg, window, source, spec, depth, creds, i, attempts)
    {
      match reg.encryption[i].probe(window) {
        case Yes(_) =>
          var layer := reg.encryption[i].open(source);
          if layer.Err? {
            return Err(layer.error), attempts;
          }
          var decrypted := layer.value.decrypt(creds);
          if decrypted.Err? {
            return Err(decrypted.error), attempts;
          }
          var child := spec.Push(EncryptionLayer(reg.encryption[i].scheme));
          var found := OpenWithCredentials(reg, decrypted.value, child, depth + 1, creds);
          if found.Err? {
            return Err(found.error), attempts;
          }
          if found.value.Some? {
            return Ok(found.value), attempts;
          }
        case Maybe =>
          attempts := attempts + [i];
        case No =>
      }
    }
    r := Ok(None);
  }

  function DescendCredentialAttempts(reg: Openers, source: Source, spec: Locator, depth: nat,
                                     creds: Credentials, attempts: seq<nat>)
    : VfsResult<Option<Resolved>>
    requires depth <= MAX_DEPTH
    decreases MAX_DEPTH + 1 - depth, 2, |attempts|
  {
    if attempts == [] then Ok(None)
    else if attempts[0] >= |reg.encryption| then
      DescendCredentialAttempts(reg, source, spec, depth, creds, attempts[1..])
    else
      var layer :- reg.encryption[attempts[0]].open(source);
      match layer.decrypt(creds)
      case Err(_) => DescendCredentialAttempts(reg, source, spec, depth, creds, attempts[1..])
      case Ok(decrypted) =>
        var found :- OpenWithCredentials(
          reg, decrypted, spec.Push(EncryptionLayer(reg.encryption[attempts[0]].scheme)), depth + 1, creds);
        if found.Some? then Ok(found)
        else DescendCredentialAttempts(reg, source, spec, depth, creds, attempts[1..])
  }

  // A continuation that may be entered at depth `d` with any source and locator.
  ghost predicate Handles<T>(recurse: (Source, Locator, nat) --> VfsResult<Option<T>>, d: nat) {
    forall s: Source, l: Locator :: recurse.requires(s, l, d)
  }

  // The continuation the disk descent gives to the packaging peel.
  function DiskDescent(reg: Openers, depth: nat, creds: Credentials)
    : (recurse: (Source, Locator, nat) --> VfsResult<Option<Resolved>>)
    requires depth <= MAX_DEPTH
    ensures Handles(recurse, depth + 1)
    decreases MAX_DEPTH + 1 - depth, 0
  {
    (s, l, d) requires d == depth + 1 => OpenWithCredentials(reg, s, l, d, creds)
  }

  // Containers, then archives; `recurse` decides what happens to a peeled child.
  function DescendPackaging<T>(reg: Openers, window: SniffWindow, source: Source, spec: Locator, depth: nat,
                               recurse: (Source, Locator, nat) --> VfsResult<Option<T>>)
    : VfsResult<Option<T>>
    requires Handles(recurse, depth + 1)
  {
    var found :- DescendContainers(reg.containers, window, source, spec, depth, recurse);
    if found.Some? then Ok(found)
    else DescendArchives(reg.archives, window, source, spec, depth, recurse)
  }

  function DescendContainers<T>(containers: seq<ContainerOpen>, window: SniffWindow, source: Source, spec: Locator,
                                depth: nat, recurse: (Source, Locator, nat) --> VfsResult<Option<T>>)
    : VfsResult<Option<T>>
    requires Handles(recurse, depth + 1)
  {
    if containers == [] then Ok(None)
    else if containers[0].probe(window).IsCandidate() then
      var decoded :- containers[0].open(source);
      var found :- recurse(decoded, spec.Push(ContainerLayer(containers[0].format)), depth + 1);
      if found.Some? then Ok(found)
      else DescendContainers(containers[1..], window, source, spec, depth, recurse)
    else DescendContainers(containers[1..], window, source, spec, depth, recurse)
  }

  function DescendArchives<T>(archives: seq<ArchiveOpen>, window: SniffWindow, source: Source, spec: Locator,
                              depth: nat, recurse: (Source, Locator, nat) --> VfsResult<Option<T>>)
    : VfsResult<Option<T>>
    requires Handles(recurse, depth + 1)
  {
    if archives == [] then Ok(None)
    else if archives[0].probe(window).IsCandidate() then
      var contents :- archives[0].open(source);
      var found :- match contents {
        case Stream(inner) => recurse(inner, spec.Push(ArchiveLayer(None)), depth + 1)
        case Members(members) => DescendMembers(members, spec, depth, recurse, 0)
      };
      if found.Some? then Ok(found)
      else DescendArchives(archives[1..], window, source, spec, depth, recurse)
    else DescendArchives(archives[1..], window, source, spec, depth, recurse)
  }

  function DescendMembers<T>(members: MemberTable, spec: Locator, depth: nat,
                             recurse: (Source, Locator, nat) --> VfsResult<Option<T>>, index: nat)
    : VfsResult<Option<T>>
    requires Handles(recurse, depth + 1)
    decreases |members| - index
  {
    if index >= |members| then Ok(None)
    else
      var found :- recurse(members[index], spec.Push(ArchiveLayer(Some(index))), depth + 1);
      if found.Some? then Ok(found)
      else DescendMembers(members, spec, depth, recurse, index + 1)
  }

  function ResolveToSource(reg: Openers, source: Source, spec: Locator, depth: nat)
    : VfsResult<Option<ResolvedSource>>
    decreases MAX_DEPTH + 1 - depth, 1
  {
    if depth > MAX_DEPTH then Ok(None)
    else
      var window :- SniffSource(source);
      var found :- DescendPackaging(reg, window, source, spec, depth, PackagingOnly(reg, depth));
      if found.Some? then Ok(found)
      else Ok(Some(ResolvedSource(source, spec)))
  }

  // The continuation the raw-source terminal gives to the packaging peel.
  function PackagingOnly(reg: Openers, depth: nat)
    : (recurse: (Source, Locator, nat) --> VfsResult<Option<ResolvedSource>>)
    requires depth <= MAX_DEPTH
    ensures Handles(recurse, depth + 1)
    decreases MAX_DEPTH + 1 - depth, 0
  {
    (s, l, d) requires d == depth + 1 => ResolveToSource(reg, s, l, d)
  }
}
