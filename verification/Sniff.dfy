/** The two bounded reads behind every probe, and what the resulting window shows. */
module Sniff {
  import opened Basics
  import opened Registry

  const SNIFF_CAP: u64 := 128 * 1024
  const TAIL_CAP: u64 := 4096

  datatype SniffBuffers = SniffBuffers(
    head: seq<byte>, headLen: u64, tail: seq<byte>, tailLen: u64, total: u64)

  function Zeros(n: nat): (z: seq<byte>)
    ensures |z| == n
  {
    seq(n, _ => 0)
  }

  // A buffer after `stored` has been written over its front.
  function Overlay(buf: seq<byte>, stored: seq<byte>): (r: seq<byte>)
    ensures |r| == |buf|
  {
    if |stored| <= |buf| then stored + buf[|stored|..] else stored[..|buf|]
  }

  method ReadAt(source: Source, offset: u64, buf: array<byte>) returns (r: VfsResult<u64>)
    modifies buf
    ensures match source.read(offset, buf.Length)
            case Err(e) => r == Err(e)
            case Ok(reading) => r == Ok(reading.count) && buf[..] == Overlay(old(buf[..]), reading.bytes)
  {
    var answer := source.read(offset, buf.Length);
    if answer.Err? {
      return Err(answer.error);
    }
    var stored := answer.value.bytes;
    forall i | 0 <= i < buf.Length && i < |stored| {
      buf[i] := stored[i];
    }
    return Ok(answer.value.count);
  }

  function HeadCap(total: u64): nat {
    if total < 1 then 1 else Min(total, SNIFF_CAP)
  }

  function TailCap(total: u64): nat {
    Min(total, TAIL_CAP)
  }

  function ReadSniffBuffers(source: Source): VfsResult<SniffBuffers> {
    var head :- source.read(0, HeadCap(source.len));
    var tail :- source.read(source.len - TailCap(source.len), TailCap(source.len));
    Ok(SniffBuffers(
      Overlay(Zeros(HeadCap(source.len)), head.bytes), head.count,
      Overlay(Zeros(TailCap(source.len)), tail.bytes), tail.count,
      source.len))
  }

  method FillSniffBuffers(source: Source) returns (r: VfsResult<SniffBuffers>)
    ensures r == ReadSniffBuffers(source)
  {
    var total := source.len;
    var cap := if total < 1 then 1 else if total > SNIFF_CAP then SNIFF_CAP else total;
    var head := new byte[cap](_ => 0);
    assert head[..] == Zeros(cap);
    var n := ReadAt(source, 0, head);
    if n.Err? {
      return Err(n.error);
    }
    var tailCap := if total < TAIL_CAP then total else TAIL_CAP;
    var tailStart := total - tailCap;
    var tail := new byte[tailCap](_ => 0);
    assert tail[..] == Zeros(tailCap);
    var tn := ReadAt(source, tailStart, tail);
    if tn.Err? {
      return Err(tn.error);
    }
    return Ok(SniffBuffers(head[..], n.value, tail[..], tn.value, total));
  }

  // A count beyond the buffer yields no bytes rather than a failure.
  function Filled(buf: seq<byte>, count: u64): seq<byte> {
    if count <= |buf| then buf[..count] else []
  }

  function WindowOf(b: SniffBuffers): SniffWindow {
    SniffWindow(0, Filled(b.head, b.headLen), b.total, Filled(b.tail, b.tailLen))
  }

  function SniffSource(source: Source): VfsResult<SniffWindow> {
    var buffers :- ReadSniffBuffers(source);
    Ok(WindowOf(buffers))
  }

  // The bytes a prober sees of a buffer of `cap` bytes after one read: as many as the
  // read reported, zeros where it stored none; nothing if it reported too many.
  ghost predicate Shows(seen: seq<byte>, reading: Reading, cap: nat) {
    if reading.count > cap then seen == []
    else |seen| == reading.count
         && forall i :: 0 <= i < |seen| ==> seen[i] == if i < |reading.bytes| then reading.bytes[i] else 0
  }

  // Whatever the source answers: one read of up to 128 KiB from the start, one of up
  // to 4 KiB before the end, the first failure, and both buffers as far as reported.
  lemma SniffShowsReads(source: Source)
    ensures var cap := if source.len == 0 then 1 else if source.len > 131072 then 131072 else source.len;
            var tailCap := if source.len > 4096 then 4096 else source.len;
            match source.read(0, cap)
            case Err(e) => SniffSource(source) == Err(e)
            case Ok(head) =>
              match source.read(source.len - tailCap, tailCap)
              case Err(e) => SniffSource(source) == Err(e)
              case Ok(tail) =>
                && SniffSource(source).Ok?
                && var w := SniffSource(source).value;
                   w.start == 0 && w.totalLen == source.len && Shows(w.bytes, head, cap) && Shows(w.tail, tail, tailCap)
  {
  }

  // A read that succeeds stores exactly the bytes that fit before the end of `data`.
  ghost predicate FillsToEnd(source: Source, data: seq<byte>) {
    && source.len == |data|
    && forall offset: u64, cap: nat :: ReadFills(source, data, offset, cap)
  }

  ghost predicate ReadFills(source: Source, data: seq<byte>, offset: u64, cap: nat) {
    var answer := source.read(offset, cap);
    answer.Ok? ==>
      && answer.value.count == (if offset >= |data| then 0 else Min(cap, |data| - offset))
      && answer.value.bytes == (if offset >= |data| then [] else data[offset..offset + answer.value.count])
  }

  lemma OverlayShowsStored(buf: seq<byte>, stored: seq<byte>)
    requires |stored| <= |buf| && |stored| < U64_MODULUS
    ensures Filled(Overlay(buf, stored), |stored|) == stored
  {
    assert Overlay(buf, stored)[..|stored|] == stored;
  }

  // A read that fills shows, through its buffer and count, the bytes of `data`.
  lemma FilledShowsData(source: Source, data: seq<byte>, offset: u64, cap: nat)
    requires FillsToEnd(source, data) && source.read(offset, cap).Ok? && offset <= |data|
    ensures var reading := source.read(offset, cap).value;
            Filled(Overlay(Zeros(cap), reading.bytes), reading.count)
            == data[offset..offset + Min(cap, |data| - offset)]
  {
    assert ReadFills(source, data, offset, cap);
    OverlayShowsStored(Zeros(cap), source.read(offset, cap).value.bytes);
  }

  // What the window holds: the first and last bytes of the source, up to the caps.
  lemma WindowHolds(source: Source, data: seq<byte>)
    requires FillsToEnd(source, data) && SniffSource(source).Ok?
    ensures var w := SniffSource(source).value;
            && w.bytes == data[..Min(|data|, 131072)]
            && w.tail == data[|data| - Min(|data|, 4096)..]
            && w.totalLen == |data|
  {
    hide Overlay, Zeros, Filled;
    FilledShowsData(source, data, 0, HeadCap(source.len));
    FilledShowsData(source, data, source.len - TailCap(source.len), TailCap(source.len));
    assert source.len == |data|;
  }

  // Head and tail probes see the source itself, exactly as far as the caps reach.
  lemma WindowAgreesWithSource(source: Source, data: seq<byte>, off: usize, fromEnd: usize, n: usize)
    requires FillsToEnd(source, data) && SniffSource(source).Ok?
    ensures var w := SniffSource(source).value;
            && (w.At(off, n).Some? <==> off + n <= Min(|data|, 131072))
            && (w.At(off, n).Some? ==> w.At(off, n).value == data[off..off + n])
            && (w.TailAt(fromEnd, n).Some? <==> n <= fromEnd <= Min(|data|, 4096))
            && (w.TailAt(fromEnd, n).Some? ==>
                  w.TailAt(fromEnd, n).value == data[|data| - fromEnd..|data| - fromEnd + n])
  {
    hide SniffSource;
    WindowHolds(source, data);
    var w := SniffSource(source).value;
    SliceShows(data, 0, w.bytes, off, n);
    if fromEnd <= |w.tail| {
      SliceShows(data, |data| - |w.tail|, w.tail, |w.tail| - fromEnd, n);
    }
  }

  // A magic probe answers for the source itself.
  lemma MagicAgreesWithSource(source: Source, data: seq<byte>, off: usize, fromEnd: usize, magic: seq<byte>)
    requires FillsToEnd(source, data) && SniffSource(source).Ok? && |magic| < U64_MODULUS
    ensures SniffSource(source).value.HasMagic(off, magic) <==>
            off + |magic| <= Min(|data|, 131072) && data[off..off + |magic|] == magic
    ensures SniffSource(source).value.HasMagicFromEnd(fromEnd, magic) <==>
            |magic| <= fromEnd <= Min(|data|, 4096)
            && data[|data| - fromEnd..|data| - fromEnd + |magic|] == magic
  {
    hide SniffSource, FillsToEnd;
    WindowAgreesWithSource(source, data, off, fromEnd, |magic|);
  }

  // A slice of a stretch of `data` is a slice of `data`.
  lemma SliceShows(data: seq<byte>, from: nat, stretch: seq<byte>, off: usize, n: usize)
    requires from + |stretch| <= |data| < U64_MODULUS && stretch == data[from..from + |stretch|]
    ensures Slice(stretch, off, n).Some? <==> off + n <= |stretch|
    ensures Slice(stretch, off, n).Some? ==> Slice(stretch, off, n).value == data[from + off..from + off + n]
  {
    if off + n <= |stretch| {
      SliceOfSlice(data, from, |stretch|, off, n);
    }
  }
}
