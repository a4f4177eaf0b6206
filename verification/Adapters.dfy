/** Byte sources and their adapters: nested windows, a seeking cursor, a pool of readers. */
module Adapters {
  import opened Basics

  type i64 = x: int | -0x8000_0000_0000_0000 <= x < 0x8000_0000_0000_0000

  // ---- sources ----

  // A base medium, or a window over another source. A reliable medium never fails
  // and fills every read up to its end; any other may fail and come up short.
  datatype ByteSource =
    | Medium(data: seq<byte>, reliable: bool)
    | SubRange(parent: ByteSource, start: u64, len: u64)
  {
    ghost predicate Valid() {
      match this
      case Medium(data, _) => |data| < U64_MODULUS
      case SubRange(parent, start, len) =>
        parent.Valid() && parent.Len() < U64_MODULUS && len <= SaturatingSub(parent.Len(), start)
    }

    function Len(): nat {
      match this
      case Medium(data, _) => |data|
      case SubRange(_, _, len) => len
    }

    predicate Reliable() {
      match this
      case Medium(_, reliable) => reliable
      case SubRange(parent, _, _) => parent.Reliable()
    }

    // Where its first byte lies in the base medium.
    ghost function Origin(): nat {
      match this
      case Medium(_, _) => 0
      case SubRange(parent, start, _) => parent.Origin() + start
    }

    // The bytes this source stands for.
    ghost function Bytes(): (bytes: seq<byte>)
      requires Valid()
      ensures |bytes| == Len() < U64_MODULUS
    {
      match this
      case Medium(data, _) => data
      case SubRange(parent, start, len) => if len == 0 then [] else parent.Bytes()[start..start + len]
    }
  }

  // A window of at most `len` bytes from `start`, clamped to what the parent has.
  function NewSubRange(parent: ByteSource, start: u64, len: u64): (window: ByteSource)
    requires parent.Valid() && parent.Len() < U64_MODULUS
    ensures window.Valid()
  {
    SubRange(parent, start, Min(len, SaturatingSub(parent.Len(), start)))
  }

  // What a read into `cap` bytes at `offset` may at most deliver.
  function Available(total: nat, offset: nat, cap: nat): nat {
    if offset >= total then 0 else Min(cap, total - offset)
  }

  // It stays inside, and stops short only at the end.
  lemma AvailableIsExact(total: nat, offset: nat, cap: nat)
    ensures var n := Available(total, offset, cap);
            && n <= cap && (n > 0 ==> offset + n <= total)
            && (n == cap || offset + n >= total)
  {
  }

  // A read into `after[from..from + cap]` that reported `n` delivered the right bytes.
  ghost predicate Delivered(bytes: seq<byte>, offset: nat, cap: nat, n: nat, after: seq<byte>, from: nat) {
    && n <= Available(|bytes|, offset, cap)
    && from + n <= |after|
    && (n > 0 ==> after[from..from + n] == bytes[offset..offset + n])
  }

  // Outside `[from, to)` nothing changed.
  ghost predicate KeptOutside(before: seq<byte>, after: seq<byte>, from: nat, to: nat) {
    && |before| == |after|
    && forall i :: 0 <= i < |after| && !(from <= i < to) ==> after[i] == before[i]
  }

  // A base medium that is not reliable may fail, read short, and scribble on the
  // rest of its slice.
  method ReadMedium(data: seq<byte>, reliable: bool, offset: u64, buf: array<byte>, from: nat, to: nat)
    returns (r: VfsResult<nat>)
    requires from <= to <= buf.Length
    modifies buf
    ensures r.Ok? ==> Delivered(data, offset, to - from, r.value, buf[..], from)
    ensures KeptOutside(old(buf[..]), buf[..], from, to)
    ensures offset >= |data| ==> r == Ok(0) && buf[..] == old(buf[..])
    ensures reliable ==> r == Ok(Available(|data|, offset, to - from))
  {
    if offset >= |data| {
      return Ok(0);
    }
    var fails: bool := *;
    if fails && !reliable {
      return Err(Io);
    }
    var most := Available(|data|, offset, to - from);
    var n: nat :| n <= most && (reliable ==> n == most);
    var junk: byte := *;
    var served := data[offset..offset + n];
    forall i | from <= i < to {
      buf[i] := if i < from + n then served[i - from] else junk;
    }
    assert buf[from..from + n] == served;
    return Ok(n);
  }

  // Reading through any tower of windows. Nothing past the wanted length of the
  // innermost window is touched. `asked` is the offset and length the base medium
  // is asked for: the saturating additions are exact, and no byte outside the
  // window is requested.
  method ReadAt(s: ByteSource, offset: u64, buf: array<byte>, from: nat, to: nat)
    returns (r: VfsResult<nat>, ghost asked: Option<(nat, nat)>)
    requires s.Valid() && from <= to <= buf.Length && to - from < U64_MODULUS
    modifies buf
    ensures r.Ok? ==> Delivered(s.Bytes(), offset, to - from, r.value, buf[..], from)
    ensures s.SubRange? ==> KeptOutside(old(buf[..]), buf[..], from, from + Available(s.Len(), offset, to - from))
    ensures KeptOutside(old(buf[..]), buf[..], from, to)
    ensures offset >= s.Len() ==> r == Ok(0) && buf[..] == old(buf[..])
    ensures s.Reliable() ==> r == Ok(Available(s.Len(), offset, to - from))
    ensures asked == if s.Medium? then Some((offset, to - from))
                     else if offset >= s.Len() then None
                     else Some((s.Origin() + offset, Available(s.Len(), offset, to - from)))
    decreases s
  {
    match s
    case Medium(data, reliable) =>
      asked := Some((offset, to - from));
      r := ReadMedium(data, reliable, offset, buf, from, to);
    case SubRange(parent, start, len) =>
      SubRangeParts(parent, start, len);
      hide Delivered, KeptOutside, ByteSource.Bytes, ByteSource.Origin, ByteSource.Reliable, ByteSource.Valid;
      ghost var before := buf[..];
      NothingMoves(s.Bytes(), offset, to - from, before, from, to);
      if offset >= len {
        return Ok(0), None;
      }
      var remaining := len - offset;
      var want := Min(to - from, remaining);
      var abs := SaturatingAdd(start, offset);
      assert abs == start + offset < parent.Len();
      AvailableThrough(parent.Len(), start, len, offset, to - from);
      hide Available;
      r, asked := ReadAt(parent, abs, buf, from, from + want);
      KeptOutsideMore(before, buf[..], from, from + want, to);
      if r.Ok? {
        DeliveredThrough(parent.Bytes(), start, len, offset, to - from, r.value, buf[..], from);
      }
  }

  lemma SubRangeParts(parent: ByteSource, start: u64, len: u64)
    requires SubRange(parent, start, len).Valid()
    ensures parent.Valid() && parent.Len() < U64_MODULUS && (len > 0 ==> start + len <= parent.Len())
    ensures var s := SubRange(parent, start, len);
            && s.Origin() == parent.Origin() + start && s.Reliable() == parent.Reliable()
            && s.Bytes() == if len == 0 then [] else parent.Bytes()[start..start + len]
  {
  }

  // The clamped read asks for what the window has left, and the parent has all of it.
  lemma AvailableThrough(parentLen: nat, start: nat, len: nat, offset: nat, cap: nat)
    requires start + len <= parentLen && offset < len
    ensures Available(len, offset, cap) == Min(cap, len - offset)
    ensures Available(parentLen, start + offset, Min(cap, len - offset)) == Min(cap, len - offset)
  {
  }

  lemma NothingMoves(bytes: seq<byte>, offset: nat, cap: nat, buf: seq<byte>, from: nat, to: nat)
    requires from <= to <= |buf|
    ensures offset >= |bytes| ==> Delivered(bytes, offset, cap, 0, buf, from)
    ensures KeptOutside(buf, buf, from, to) && KeptOutside(buf, buf, from, from)
  {
  }

  lemma KeptOutsideMore(before: seq<byte>, after: seq<byte>, from: nat, mid: nat, to: nat)
    requires KeptOutside(before, after, from, mid) && mid <= to
    ensures KeptOutside(before, after, from, to)
  {
  }

  // What the parent delivered for the translated, clamped read is right for the window.
  lemma DeliveredThrough(bytes: seq<byte>, start: nat, len: nat, offset: nat, cap: nat, n: nat,
                         after: seq<byte>, from: nat)
    requires start + len <= |bytes| && offset < len
    requires Delivered(bytes, start + offset, Min(cap, len - offset), n, after, from)
    ensures Delivered(bytes[start..start + len], offset, cap, n, after, from)
  {
    if n > 0 {
      SliceOfSlice(bytes, start, len, offset, n);
    }
  }

  // All of it, or an error.
  method ReadExactAt(s: ByteSource, offset: u64, buf: array<byte>) returns (r: VfsResult<()>)
    requires s.Valid() && buf.Length < U64_MODULUS
    modifies buf
    ensures r.Ok? && buf.Length > 0 ==>
              offset + buf.Length <= s.Len() && buf[..] == s.Bytes()[offset..offset + buf.Length]
    ensures buf.Length > Available(s.Len(), offset, buf.Length) ==> r.Err?
    ensures s.Reliable() ==> (r.Ok? <==> buf.Length == Available(s.Len(), offset, buf.Length))
    ensures s.Reliable() && r.Err? ==> r.error == OutOfRange
  {
    var got, asked := ReadAt(s, offset, buf, 0, buf.Length);
    if got.Err? {
      return Err(got.error);
    }
    if got.value == buf.Length {
      assert buf[..] == buf[0..0 + got.value];
      return Ok(());
    }
    return Err(OutOfRange);
  }

  // ---- towers of windows are flat ----

  // One requested window.
  datatype Request = Request(start: u64, len: u64)

  // The windows opened one inside the other over `base`.
  function Tower(base: ByteSource, requests: seq<Request>): (s: ByteSource)
    requires base.Valid() && base.Len() < U64_MODULUS
    ensures s.Valid()
    decreases |requests|
  {
    if requests == [] then base
    else
      var last := requests[|requests| - 1];
      LenIsU64(Tower(base, requests[..|requests| - 1]));
      NewSubRange(Tower(base, requests[..|requests| - 1]), last.start, last.len)
  }

  lemma LenIsU64(s: ByteSource)
    requires s.Valid()
    ensures s.Len() < U64_MODULUS
  {
  }

  // The stretch of the base the requests carve out: the starts add up, and every
  // request bounds the end. No clamping is involved.
  function FlatStart(requests: seq<Request>): nat {
    if requests == [] then 0
    else FlatStart(requests[..|requests| - 1]) + requests[|requests| - 1].start
  }

  function FlatEnd(total: nat, requests: seq<Request>): nat {
    if requests == [] then total
    else Min(FlatEnd(total, requests[..|requests| - 1]), FlatStart(requests) + requests[|requests| - 1].len)
  }

  // Any tower denotes one slice of the base, from the sum of the starts to the
  // least of the ends; an inverted stretch is empty.
  lemma {:induction false} TowerIsFlat(base: ByteSource, requests: seq<Request>)
    requires base.Valid() && base.Len() < U64_MODULUS
    ensures FlatEnd(base.Len(), requests) <= base.Len()
    ensures var from, to := FlatStart(requests), FlatEnd(base.Len(), requests);
            Tower(base, requests).Bytes() == if from < to then base.Bytes()[from..to] else []
    decreases |requests|
  {
    if requests != [] {
      var front, last := requests[..|requests| - 1], requests[|requests| - 1];
      TowerIsFlat(base, front);
      TowerGrows(base, requests);
      var from, to := FlatStart(front), FlatEnd(base.Len(), front);
      var inner := Tower(base, front).Bytes();
      assert FlatStart(requests) == from + last.start;
      assert FlatEnd(base.Len(), requests) == Min(to, from + last.start + last.len);
      hide Tower, ByteSource.Valid, ByteSource.Bytes, FlatStart, FlatEnd;
      var len := Min(last.len, if |inner| < last.start then 0 else |inner| - last.start);
      WindowOfSlice(base.Bytes(), from, to, inner, last, len, Tower(base, requests).Bytes());
    }
  }

  // One more request takes a window of the bytes of the tower before it.
  lemma TowerGrows(base: ByteSource, requests: seq<Request>)
    requires base.Valid() && base.Len() < U64_MODULUS && requests != []
    ensures var inner := Tower(base, requests[..|requests| - 1]).Bytes();
            var last := requests[|requests| - 1];
            var len := Min(last.len, if |inner| < last.start then 0 else |inner| - last.start);
            Tower(base, requests).Bytes() == if len == 0 then [] else inner[last.start..last.start + len]
  {
    var inner, last := Tower(base, requests[..|requests| - 1]), requests[|requests| - 1];
    LenIsU64(inner);
    NewSubRangeBytes(inner, last);
    assert Tower(base, requests) == NewSubRange(inner, last.start, last.len);
    hide Tower, NewSubRange, ByteSource.Valid, ByteSource.Bytes;
  }

  // The stretch a tower denotes begins at its origin and is as long as the tower, so
  // what a read asks of the base lies inside it.
  lemma {:induction false} TowerStretch(base: ByteSource, requests: seq<Request>)
    requires base.Valid() && base.Len() < U64_MODULUS
    ensures var from, to := FlatStart(requests), FlatEnd(base.Len(), requests);
            && Tower(base, requests).Origin() == base.Origin() + from
            && Tower(base, requests).Len() == if from < to then to - from else 0
    decreases |requests|
  {
    if requests != [] {
      TowerStretch(base, requests[..|requests| - 1]);
    }
  }

  lemma RequestsStayInside(base: ByteSource, requests: seq<Request>, offset: u64, cap: nat)
    requires base.Valid() && base.Len() < U64_MODULUS && base.Medium? && offset < Tower(base, requests).Len()
    ensures var s := Tower(base, requests);
            var at, n := s.Origin() + offset, Available(s.Len(), offset, cap);
            FlatStart(requests) <= at && at + n <= FlatEnd(base.Len(), requests) <= base.Len()
  {
    TowerStretch(base, requests);
    TowerIsFlat(base, requests);
  }

  lemma NewSubRangeBytes(parent: ByteSource, r: Request)
    requires parent.Valid() && parent.Len() < U64_MODULUS
    ensures var len := Min(r.len, SaturatingSub(parent.Len(), r.start));
            NewSubRange(parent, r.start, r.len).Bytes() ==
              if len == 0 then [] else parent.Bytes()[r.start..r.start + len]
  {
  }

  lemma WindowOfSlice(base: seq<byte>, from: nat, to: nat, inner: seq<byte>, r: Request, len: nat, window: seq<byte>)
    requires to <= |base| && inner == if from < to then base[from..to] else []
    requires len == Min(r.len, if |inner| < r.start then 0 else |inner| - r.start)
    requires window == if len == 0 then [] else inner[r.start..r.start + len]
    ensures var from', to' := from + r.start, Min(to, from + r.start + r.len);
            window == if from' < to' then base[from'..to'] else []
  {
    var from', to' := from + r.start, Min(to, from + r.start + r.len);
    if from' < to' {
      assert len == to' - from';
      SliceOfSlice(base, from, to - from, r.start, len);
    }
  }

  // ---- allocated extents ----

  datatype Extent = Extent(offset: u64, len: u64)

  function TotalLen(runs: seq<Extent>): nat {
    if runs == [] then 0 else TotalLen(runs[..|runs| - 1]) + runs[|runs| - 1].len
  }

  // Saturating at every step is saturating once, at the end.
  method AllocatedLen(runs: seq<Extent>) returns (total: u64)
    ensures total == Min(TotalLen(runs), U64_MODULUS - 1)
  {
    total := 0;
    for i := 0 to |runs|
      invariant total == Min(TotalLen(runs[..i]), U64_MODULUS - 1)
    {
      assert runs[..i + 1][..i] == runs[..i];
      total := SaturatingAdd(total, runs[i].len);
    }
    assert runs[..|runs|] == runs;
  }

  // ---- the seeking cursor ----

  datatype SeekFrom = FromStart(offset: u64) | FromEnd(delta: i64) | FromCurrent(delta: i64)

  // One call on a cursor and what it returned.
  datatype CursorEvent =
    | DidRead(cap: nat, bytes: seq<byte>)
    | ReadFailed
    | DidSeek(to: SeekFrom, answer: VfsResult<u64>)

  // Where a seek to `target` ends up: nowhere before the start, and at the last 64-bit
  // position when the target is beyond it.
  ghost predicate Reaches(target: int, answer: VfsResult<u64>) {
    match answer
    case Err(e) => target < 0 && e == InvalidInput
    case Ok(at) => 0 <= target && (at == target || at == 0xFFFF_FFFF_FFFF_FFFF < target)
  }

  // The ideal cursor over `window`. A read delivers a prefix of what follows the
  // position; a seek answers its target.
  ghost predicate CursorAllows(window: seq<byte>, pos: nat, event: CursorEvent) {
    match event
    case DidRead(cap, bytes) =>
      && |bytes| <= Available(|window|, pos, cap)
      && (bytes != [] ==> bytes == window[pos..pos + |bytes|])
    case ReadFailed => true
    case DidSeek(FromStart(offset), answer) => answer == Ok(offset)
    case DidSeek(FromEnd(delta), answer) => Reaches(|window| + delta, answer)
    case DidSeek(FromCurrent(delta), answer) => Reaches(pos + delta, answer)
  }

  // A read advances past what it delivered; a failed call changes nothing.
  function CursorNext(pos: nat, event: CursorEvent): nat {
    match event
    case DidRead(_, bytes) => pos + |bytes|
    case ReadFailed => pos
    case DidSeek(_, answer) => if answer.Ok? then answer.value else pos
  }

  ghost predicate CursorStep(window: seq<byte>, pos: nat, event: CursorEvent, pos': nat) {
    CursorAllows(window, pos, event) && pos' == CursorNext(pos, event)
  }

  class SourceCursor {
    const src: ByteSource
    const start: u64
    const len: u64
    var pos: u64

    ghost predicate Valid() {
      src.Valid() && len <= SaturatingSub(src.Len(), start)
    }

    ghost function Window(): (w: seq<byte>)
      requires Valid()
      ensures |w| == len
    {
      if len == 0 then [] else src.Bytes()[start..start + len]
    }

    constructor (src: ByteSource, start: u64, len: u64)
      requires src.Valid()
      ensures Valid() && this.src == src && this.start == start && pos == 0
      ensures Window() == if start >= src.Len() then []
                          else src.Bytes()[start..start + Min(len, src.Len() - start)]
    {
      LenIsU64(src);
      this.src := src;
      this.start := start;
      this.len := Min(len, SaturatingSub(src.Len(), start));
      this.pos := 0;
    }

    method Read(buf: array<byte>) returns (r: VfsResult<nat>)
      requires Valid() && buf.Length < U64_MODULUS
      modifies this`pos, buf
      ensures r.Err? ==> CursorStep(Window(), old(pos), ReadFailed, pos)
      ensures r.Ok? ==> r.value <= buf.Length
                        && CursorStep(Window(), old(pos), DidRead(buf.Length, buf[..r.value]), pos)
      ensures KeptOutside(old(buf[..]), buf[..], 0, Available(len, old(pos), buf.Length))
      ensures src.Reliable() ==> r == Ok(Available(len, old(pos), buf.Length))
    {
      hide ByteSource.Valid, ByteSource.Bytes, KeptOutside, Delivered, CursorStep, CursorAllows;
      if pos >= len {
        NothingIsRead(Window(), pos, buf.Length, buf[..]);
        return Ok(0);
      }
      LenIsU64(src);
      var remaining := len - pos;
      var want := Min(buf.Length, remaining);
      var abs := SaturatingAdd(start, pos);
      assert abs == start + pos < src.Len();
      ghost var asked;
      r, asked := ReadAt(src, abs, buf, 0, want);
      if r.Ok? {
        DeliveredWithin(src.Bytes(), start, len, pos, buf.Length, r.value, buf[..]);
        pos := SaturatingAdd(pos, r.value);
      } else {
        FailureStays(Window(), pos);
      }
    }

    method Seek(to: SeekFrom) returns (r: VfsResult<u64>)
      requires Valid()
      modifies this`pos
      ensures CursorStep(Window(), old(pos), DidSeek(to, r), pos)
    {
      var target: int;
      match to {
        case FromStart(offset) => target := offset;
        case FromEnd(delta) => target := len + delta;
        case FromCurrent(delta) => target := pos + delta;
      }
      if target < 0 {
        return Err(InvalidInput);
      }
      pos := Min(target, U64_MODULUS - 1);
      return Ok(pos);
    }
  }

  // What a clamped read of the source at `start + pos` delivers is what the ideal
  // cursor over the window allows.
  lemma DeliveredWithin(bytes: seq<byte>, start: nat, len: nat, pos: nat, cap: nat, n: nat, after: seq<byte>)
    requires start + len <= |bytes| < U64_MODULUS && pos < len
    requires Delivered(bytes, start + pos, Min(cap, len - pos), n, after, 0)
    ensures n <= |after| && SaturatingAdd(pos, n) == pos + n
    ensures CursorStep(bytes[start..start + len], pos, DidRead(cap, after[..n]), pos + n)
  {
    if n > 0 {
      SliceOfSlice(bytes, start, len, pos, n);
    }
  }

  lemma FailureStays(window: seq<byte>, pos: nat)
    ensures CursorStep(window, pos, ReadFailed, pos)
  {
  }

  lemma NothingIsRead(window: seq<byte>, pos: nat, cap: nat, buf: seq<byte>)
    requires pos >= |window|
    ensures CursorStep(window, pos, DidRead(cap, buf[..0]), pos)
    ensures KeptOutside(buf, buf, 0, Available(|window|, pos, cap))
  {
  }

  // ---- runs of cursor calls ----

  ghost predicate CursorRun(window: seq<byte>, pos: nat, events: seq<CursorEvent>, end: nat)
    decreases |events|
  {
    if events == [] then end == pos
    else CursorAllows(window, pos, events[0])
         && CursorRun(window, CursorNext(pos, events[0]), events[1..], end)
  }

  function Delivery(event: CursorEvent): seq<byte> {
    if event.DidRead? then event.bytes else []
  }

  function BytesRead(events: seq<CursorEvent>): seq<byte> {
    if events == [] then [] else Delivery(events[0]) + BytesRead(events[1..])
  }

  // Between seeks, whatever was read short or failed, the bytes read concatenate
  // to the window from the starting position on; from beyond the end there are none.
  lemma {:induction false} ReadsConcatenate(window: seq<byte>, pos: nat, events: seq<CursorEvent>, end: nat)
    requires CursorRun(window, pos, events, end)
    requires forall e :: e in events ==> !e.DidSeek?
    ensures end == pos + |BytesRead(events)|
    ensures BytesRead(events) != [] ==> end <= |window| && BytesRead(events) == window[pos..end]
    decreases |events|
  {
    if events != [] {
      assert events[0] in events && forall e :: e in events[1..] ==> e in events;
      var mid := CursorNext(pos, events[0]);
      ReadsConcatenate(window, mid, events[1..], end);
      Adjoin(window, pos, mid, end, Delivery(events[0]), BytesRead(events[1..]));
    }
  }

  lemma Adjoin(window: seq<byte>, pos: nat, mid: nat, end: nat, head: seq<byte>, rest: seq<byte>)
    requires mid == pos + |head| && end == mid + |rest|
    requires head != [] ==> mid <= |window| && head == window[pos..mid]
    requires rest != [] ==> end <= |window| && rest == window[mid..end]
    ensures head + rest != [] ==> end <= |window| && head + rest == window[pos..end]
  {
    if head == [] {
      assert head + rest == rest;
    } else if rest == [] {
      assert head + rest == head;
    } else {
      assert window[pos..mid] + window[mid..end] == window[pos..end];
    }
  }

  // The same after a seek: a failed one leaves the reads where they were, a
  // successful one moves them to its answer, and past the end nothing is read.
  lemma ReadsAfterSeek(window: seq<byte>, pos: nat, to: SeekFrom, answer: VfsResult<u64>,
                       events: seq<CursorEvent>, end: nat)
    requires CursorRun(window, pos, [DidSeek(to, answer)] + events, end)
    requires forall e :: e in events ==> !e.DidSeek?
    ensures var from := if answer.Ok? then answer.value else pos;
            && end == from + |BytesRead(events)|
            && (from >= |window| ==> BytesRead(events) == [])
            && (BytesRead(events) != [] ==> end <= |window| && BytesRead(events) == window[from..end])
  {
    var all := [DidSeek(to, answer)] + events;
    assert all[1..] == events;
    ReadsConcatenate(window, CursorNext(pos, all[0]), events, end);
  }

  // Seeking `k` bytes back from the end, the reads deliver a prefix of the last `k`
  // bytes; seeking back further than the window is long fails and moves nothing.
  lemma ReadsFromEnd(window: seq<byte>, pos: nat, k: int, answer: VfsResult<u64>, events: seq<CursorEvent>, end: nat)
    requires 0 <= k < 0x8000_0000_0000_0000 && |window| < U64_MODULUS
    requires CursorRun(window, pos, [DidSeek(FromEnd(-k), answer)] + events, end)
    requires forall e :: e in events ==> !e.DidSeek?
    ensures k <= |window| ==> answer == Ok(|window| - k) && BytesRead(events) <= window[|window| - k..]
    ensures k > |window| ==>
              && answer == Err(InvalidInput)
              && BytesRead(events) <= if pos < |window| then window[pos..] else []
  {
    var all := [DidSeek(FromEnd(-k), answer)] + events;
    assert all[0] == DidSeek(FromEnd(-k), answer);
    assert CursorAllows(window, pos, all[0]);
    ReadsAfterSeek(window, pos, FromEnd(-k), answer, events, end);
  }

  // A seek relative to the position lands that far from it, so one and its reverse
  // cancel, while neither end is met.
  lemma SeekAndBack(window: seq<byte>, pos: u64, delta: i64, there: VfsResult<u64>, back: VfsResult<u64>)
    requires -0x8000_0000_0000_0000 < delta && 0 <= pos + delta < U64_MODULUS
    requires CursorAllows(window, pos, DidSeek(FromCurrent(delta), there))
    requires CursorAllows(window, CursorNext(pos, DidSeek(FromCurrent(delta), there)),
                          DidSeek(FromCurrent(-delta), back))
    ensures there == Ok(pos + delta) && back == Ok(pos)
  {
  }
}
