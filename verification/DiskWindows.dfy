/** Sniffing a partition: the probes of a window see the slice of the disk it denotes. */
module DiskWindows {
  import opened Basics
  import opened Registry
  import opened Sniff
  import Adapters

  type ByteSource = Adapters.ByteSource
  type Request = Adapters.Request

  // What a reliable tower stores for one read, each window forwarding to its parent.
  function Served(s: ByteSource, offset: nat, cap: nat): (bytes: seq<byte>)
    ensures |bytes| == Adapters.Available(s.Len(), offset, cap) || !s.Valid()
  {
    match s
    case Medium(data, _) => if offset >= |data| then [] else data[offset..offset + Min(cap, |data| - offset)]
    case SubRange(parent, start, len) =>
      if offset >= len then [] else Served(parent, start + offset, Min(cap, len - offset))
  }

  // The handle the resolver gets for a reliable tower.
  function SourceOf(id: nat, s: ByteSource): Source
    requires s.Valid() && s.Reliable()
  {
    Adapters.LenIsU64(s);
    Source(id, s.Len(), (offset: u64, cap: nat) => Ok(Reading(Served(s, offset, cap), |Served(s, offset, cap)|)))
  }

  lemma {:induction false} ServedIsSlice(s: ByteSource, offset: nat, cap: nat)
    requires s.Valid()
    ensures Served(s, offset, cap) ==
            if offset >= s.Len() then [] else s.Bytes()[offset..offset + Adapters.Available(s.Len(), offset, cap)]
  {
    match s
    case Medium(_, _) =>
    case SubRange(parent, start, len) =>
      if offset < len {
        WindowBytes(parent, start, len);
        Adapters.LenIsU64(parent);
        var want := Min(cap, len - offset);
        ServedIsSlice(parent, start + offset, want);
        hide Adapters.ByteSource.Bytes, Adapters.ByteSource.Valid;
        SliceOfSlice(parent.Bytes(), start, len, offset, want);
      }
  }

  lemma WindowBytes(parent: ByteSource, start: u64, len: u64)
    requires Adapters.SubRange(parent, start, len).Valid() && len > 0
    ensures parent.Valid() && start + len <= parent.Len()
    ensures Adapters.SubRange(parent, start, len).Bytes() == parent.Bytes()[start..start + len]
  {
  }

  // A positioned read of a reliable tower delivers what the handle serves.
  lemma ReadsServe(s: ByteSource, offset: u64, cap: nat, n: nat, after: seq<byte>, from: nat)
    requires s.Valid() && n == Adapters.Available(s.Len(), offset, cap)
    requires Adapters.Delivered(s.Bytes(), offset, cap, n, after, from)
    ensures after[from..from + n] == Served(s, offset, cap)
  {
    ServedIsSlice(s, offset, cap);
  }

  // The handle keeps the contract of positioned reads, for the tower's own bytes.
  lemma SourceOfFills(id: nat, s: ByteSource)
    requires s.Valid() && s.Reliable()
    ensures FillsToEnd(SourceOf(id, s), s.Bytes())
  {
    forall offset: u64, cap: nat ensures ReadFills(SourceOf(id, s), s.Bytes(), offset, cap) {
      ServedIsSlice(s, offset, cap);
    }
  }

  lemma SourceOfSniffs(id: nat, s: ByteSource)
    requires s.Valid() && s.Reliable()
    ensures SniffSource(SourceOf(id, s)).Ok?
  {
  }

  lemma {:induction false} TowersAreReliable(base: ByteSource, requests: seq<Request>)
    requires base.Valid() && base.Len() < U64_MODULUS && base.Reliable()
    ensures Adapters.Tower(base, requests).Reliable()
    decreases |requests|
  {
    if requests != [] {
      TowersAreReliable(base, requests[..|requests| - 1]);
    }
  }

  // `magic` stands in `disk` at `at`; the empty magic stands anywhere.
  ghost predicate StandsAt(disk: seq<byte>, at: nat, magic: seq<byte>) {
    magic == [] || (at + |magic| <= |disk| && disk[at..at + |magic|] == magic)
  }

  // The stretch of `disk` of `len` bytes from `from`; an empty one may lie anywhere.
  ghost predicate IsStretch(disk: seq<byte>, from: nat, len: nat, bytes: seq<byte>) {
    |bytes| == len && (len > 0 ==> from + len <= |disk| && bytes == disk[from..from + len])
  }

  lemma StretchStands(disk: seq<byte>, from: nat, len: nat, off: nat, bytes: seq<byte>, magic: seq<byte>)
    requires IsStretch(disk, from, len, bytes) && off + |magic| <= len
    ensures bytes[off..off + |magic|] == magic <==> StandsAt(disk, from + off, magic)
  {
    if len > 0 {
      SliceOfSlice(disk, from, len, off, |magic|);
    }
  }

  // The window's head and tail answer for the `len` bytes of `disk` from `from`, as
  // far as the caps reach.
  ghost predicate ProbesAgree(w: SniffWindow, disk: seq<byte>, from: nat, len: nat,
                              off: usize, fromEnd: usize, magic: seq<byte>)
    requires |magic| < U64_MODULUS
  {
    && (w.HasMagic(off, magic) <==>
          off + |magic| <= Min(len, 131072) && StandsAt(disk, from + off, magic))
    && (w.HasMagicFromEnd(fromEnd, magic) <==>
          |magic| <= fromEnd <= Min(len, 4096) && StandsAt(disk, from + len - fromEnd, magic))
  }

  lemma ProbesSeeStretch(source: Source, disk: seq<byte>, from: nat, bytes: seq<byte>,
                         off: usize, fromEnd: usize, magic: seq<byte>)
    requires FillsToEnd(source, bytes) && SniffSource(source).Ok? && |magic| < U64_MODULUS
    requires IsStretch(disk, from, |bytes|, bytes)
    ensures ProbesAgree(SniffSource(source).value, disk, from, |bytes|, off, fromEnd, magic)
  {
    hide SniffSource, FillsToEnd, IsStretch, StandsAt;
    MagicAgreesWithSource(source, bytes, off, fromEnd, magic);
    if off + |magic| <= |bytes| {
      StretchStands(disk, from, |bytes|, off, bytes, magic);
    }
    if |magic| <= fromEnd <= |bytes| {
      StretchStands(disk, from, |bytes|, |bytes| - fromEnd, bytes, magic);
    }
  }

  // The partition that nested windows cut out of a disk: where it starts and how long it is.
  ghost function StretchLen(disk: seq<byte>, requests: seq<Request>): nat {
    var from, to := Adapters.FlatStart(requests), Adapters.FlatEnd(|disk|, requests);
    if from < to then to - from else 0
  }

  lemma TowerIsStretch(disk: seq<byte>, requests: seq<Request>)
    requires |disk| < U64_MODULUS
    ensures var s := Adapters.Tower(Adapters.Medium(disk, true), requests);
            && s.Reliable() && s.Valid() && s.Len() == StretchLen(disk, requests)
            && IsStretch(disk, Adapters.FlatStart(requests), StretchLen(disk, requests), s.Bytes())
  {
    var base := Adapters.Medium(disk, true);
    TowersAreReliable(base, requests);
    Adapters.TowerIsFlat(base, requests);
    Adapters.TowerStretch(base, requests);
  }

  // However deep the windows, a magic matches in a partition's head or tail exactly
  // when it stands at that place of the disk, inside the stretch the windows carve
  // out and within the sniffing caps.
  lemma PartitionProbesSeeTheDisk(disk: seq<byte>, requests: seq<Request>, id: nat,
                                  off: usize, fromEnd: usize, magic: seq<byte>)
    requires |disk| < U64_MODULUS && |magic| < U64_MODULUS
    ensures var s := Adapters.Tower(Adapters.Medium(disk, true), requests);
            var from, len := Adapters.FlatStart(requests), StretchLen(disk, requests);
            && s.Reliable() && SniffSource(SourceOf(id, s)).Ok?
            && ProbesAgree(SniffSource(SourceOf(id, s)).value, disk, from, len, off, fromEnd, magic)
  {
    var s := Adapters.Tower(Adapters.Medium(disk, true), requests);
    hide Adapters.Tower, Adapters.FlatStart, StretchLen, SniffSource, FillsToEnd, SourceOf, IsStretch, StandsAt,
         Adapters.ByteSource.Bytes, Adapters.ByteSource.Len, ProbesAgree;
    TowerIsStretch(disk, requests);
    SourceOfFills(id, s);
    SourceOfSniffs(id, s);
    ProbesSeeStretch(SourceOf(id, s), disk, Adapters.FlatStart(requests), s.Bytes(), off, fromEnd, magic);
  }
}
