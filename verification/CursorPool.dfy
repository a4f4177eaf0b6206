/** The pool of seeking readers: one checked-out read, and the protocol between threads. */
module CursorPool {
  import opened Basics
  import opened Adapters

  // How many bytes a pool that advertises `len` bytes over `stream` answers with.
  function AnswerLen(stream: nat, len: u64, offset: u64, cap: nat): nat {
    if offset >= len then 0 else Available(stream, offset, Min(cap, len - offset))
  }

  // And which.
  function Answer(stream: seq<byte>, len: u64, offset: u64, cap: nat): seq<byte> {
    var n := AnswerLen(|stream|, len, offset, cap);
    if n == 0 then [] else stream[offset..offset + n]
  }

  // ---- one read, alone ----

  // A legacy reader. It may read short, but returns 0 only when nothing is left or
  // nothing was asked for. Unless reliable it may fail, and then stand anywhere.
  class Reader {
    const stream: seq<byte>
    const reliable: bool
    var pos: nat

    constructor (stream: seq<byte>, reliable: bool)
      ensures this.stream == stream && this.reliable == reliable
    {
      this.stream := stream;
      this.reliable := reliable;
      pos := 0;
    }

    method Seek(offset: u64) returns (r: VfsResult<u64>)
      modifies this
      ensures r.Ok? ==> pos == offset
      ensures reliable ==> r.Ok?
    {
      var fails: bool := *;
      if fails && !reliable {
        pos := *;
        return Err(Io);
      }
      pos := offset;
      return Ok(offset);
    }

    method Read(buf: array<byte>, from: nat, to: nat) returns (r: VfsResult<nat>)
      requires from <= to <= buf.Length
      modifies this, buf
      ensures r.Ok? ==> Delivered(stream, old(pos), to - from, r.value, buf[..], from)
      ensures r.Ok? ==> pos == old(pos) + r.value
      ensures r.Ok? && r.value == 0 ==> Available(|stream|, old(pos), to - from) == 0
      ensures KeptOutside(old(buf[..]), buf[..], from, to)
      ensures reliable ==> r.Ok?
    {
      var fails: bool := *;
      if fails && !reliable {
        pos := *;
        return Err(Io);
      }
      var most := Available(|stream|, pos, to - from);
      var n: nat :| n <= most && (n == 0 ==> most == 0);
      if n > 0 {
        var served := stream[pos..pos + n];
        forall i | from <= i < from + n {
          buf[i] := served[i - from];
        }
        assert buf[from..from + n] == served;
      }
      pos := pos + n;
      return Ok(n);
    }
  }

  class SeekPoolSource {
    const pool: seq<Reader>
    const len: u64
    ghost const stream: seq<byte>

    ghost predicate Valid() {
      forall r :: r in pool ==> r.stream == stream
    }

    constructor (readers: seq<Reader>, len: u64, ghost stream: seq<byte>)
      requires forall r :: r in readers ==> r.stream == stream
      ensures Valid() && pool == readers && this.len == len && this.stream == stream
    {
      this.pool := readers;
      this.len := len;
      this.stream := stream;
    }

    // Which reader is free is the scheduler's choice; the protocol below models it.
    method Checkout() returns (r: Option<Reader>)
      ensures r.None? <==> pool == []
      ensures r.Some? ==> r.value in pool
    {
      if pool == [] {
        return None;
      }
      var i: nat :| i < |pool|;
      return Some(pool[i]);
    }

    // Whatever the readers' positions were before, a read that succeeds answers
    // with exactly the stream's bytes at its own offset, and fills as far as the
    // stream allows; no byte past the wanted ones is touched.
    method ReadAt(offset: u64, buf: array<byte>) returns (r: VfsResult<nat>)
      requires Valid() && buf.Length < U64_MODULUS
      modifies pool, buf
      ensures r.Ok? && pool != [] ==>
                r.value <= buf.Length && buf[..r.value] == Answer(stream, len, offset, buf.Length)
      ensures r.Ok? && pool == [] ==> r.value == 0
      ensures offset >= len ==> r == Ok(0)
      ensures (forall reader :: reader in pool ==> reader.reliable) ==> r.Ok?
      ensures KeptOutside(old(buf[..]), buf[..], 0, if offset >= len then 0 else Min(buf.Length, len - offset))
    {
      if offset >= len {
        return Ok(0);
      }
      var guard := Checkout();
      if guard.None? {
        return Ok(0);
      }
      var reader := guard.value;
      var sought := reader.Seek(offset);
      if sought.Err? {
        return Err(Io);
      }
      var remaining := len - offset;
      var want := Min(buf.Length, remaining);
      var total := 0;
      while total < want
        invariant 0 <= total <= want
        invariant reader.pos == offset + total
        invariant total > 0 ==> offset + total <= |stream|
        invariant total > 0 ==> buf[..total] == stream[offset..offset + total]
        invariant KeptOutside(old(buf[..]), buf[..], 0, want)
      {
        ghost var before := buf[..];
        var n := reader.Read(buf, total, want);
        if n.Err? {
          return Err(Io);
        }
        if n.value == 0 {
          break;
        }
        FillGrows(stream, offset, total, n.value, before, buf[..], want);
        total := total + n.value;
      }
      if total == 0 {
        assert buf[..0] == [];
      }
      return Ok(total);
    }
  }

  lemma FillGrows(stream: seq<byte>, offset: nat, total: nat, n: nat, before: seq<byte>, after: seq<byte>, want: nat)
    requires 0 < n && total + n <= want <= |after| && KeptOutside(before, after, total, want)
    requires Delivered(stream, offset + total, want - total, n, after, total)
    requires total > 0 ==> offset + total <= |stream| && before[..total] == stream[offset..offset + total]
    ensures offset + total + n <= |stream|
    ensures after[..total + n] == stream[offset..offset + total + n]
  {
    assert after[..total] == before[..total];
    assert after[..total + n] == after[..total] + after[total..total + n];
    if total > 0 {
      assert stream[offset..offset + total] + stream[offset + total..offset + total + n]
          == stream[offset..offset + total + n];
    }
  }

  // ---- many threads ----

  // Where a call to `read_at` stands.
  datatype Phase =
    | Ready
    | Trying(next: nat)
    | Blocked
    | Seeking(slot: nat)
    | Filling(slot: nat)
    | Done
    | Failed
    | Panicked

  datatype Call = Call(offset: u64, cap: nat, phase: Phase, got: seq<byte>) {
    predicate Holds(slot: nat) {
      phase == Seeking(slot) || phase == Filling(slot)
    }

    predicate Pending() {
      !phase.Done? && !phase.Failed? && !phase.Panicked?
    }
  }

  // A mutex around one reader: who holds it, whether a panic poisoned it, and
  // where the reader stands.
  datatype Slot = Slot(holder: Option<nat>, poisoned: bool, pos: nat)

  datatype Pool = Pool(slots: seq<Slot>, calls: seq<Call>)

  // What all calls share: the stream behind every reader, and the advertised length.
  datatype Shared = Shared(stream: seq<byte>, len: u64)

  datatype Action =
    | Enter
    | TryLock
    | LockFirst
    | Seek
    | Read(n: nat)
    | Finish
    | Fail(left: nat)
    | Panic(left: nat)

  function Want(env: Shared, c: Call): nat {
    if c.offset >= env.len then 0 else Min(c.cap, env.len - c.offset)
  }

  // What the next read of a filling call can deliver.
  function Next(env: Shared, c: Call, pos: nat): nat {
    Available(|env.stream|, pos, Want(env, c) - Min(|c.got|, Want(env, c)))
  }

  function SetCall(p: Pool, t: nat, c: Call): Pool
    requires t < |p.calls|
  {
    p.(calls := p.calls[t := c])
  }

  function SetSlot(p: Pool, i: nat, s: Slot): Pool
    requires i < |p.slots|
  {
    p.(slots := p.slots[i := s])
  }

  // One atomic step of call `t`, or None when it is not enabled.
  function Step(env: Shared, p: Pool, t: nat, action: Action): Option<Pool>
    requires t < |p.calls|
  {
    var c := p.calls[t];
    match (action, c.phase)
    case (Enter, Ready) =>
      Some(SetCall(p, t, c.(phase := if c.offset >= env.len then Done else Trying(0), got := [])))
    case (TryLock, Trying(i)) =>
      if i >= |p.slots| then
        // every slot was busy or poisoned: block on the first, if there is one
        Some(SetCall(p, t, c.(phase := if p.slots == [] then Done else Blocked)))
      else if p.slots[i].holder.None? && !p.slots[i].poisoned then
        Some(SetSlot(SetCall(p, t, c.(phase := Seeking(i))), i, p.slots[i].(holder := Some(t))))
      else
        Some(SetCall(p, t, c.(phase := Trying(i + 1))))
    case (LockFirst, Blocked) =>
      // a poisoned lock is recovered here rather than refused
      if p.slots != [] && p.slots[0].holder.None? then
        Some(SetSlot(SetCall(p, t, c.(phase := Seeking(0))), 0, p.slots[0].(holder := Some(t))))
      else None
    case (Seek, Seeking(i)) =>
      if i < |p.slots| then
        Some(SetSlot(SetCall(p, t, c.(phase := Filling(i), got := [])), i, p.slots[i].(pos := c.offset)))
      else None
    case (Read(n), Filling(i)) =>
      if i < |p.slots| && 1 <= n <= Next(env, c, p.slots[i].pos) then
        var pos := p.slots[i].pos;
        Some(SetSlot(SetCall(p, t, c.(got := c.got + env.stream[pos..pos + n])), i, p.slots[i].(pos := pos + n)))
      else None
    case (Finish, Filling(i)) =>
      // the window is full, or the reader returned nothing
      if i < |p.slots| && Next(env, c, p.slots[i].pos) == 0 then
        Some(SetSlot(SetCall(p, t, c.(phase := Done)), i, p.slots[i].(holder := None)))
      else None
    case (Fail(left), _) =>
      if Holding(p, c) then
        var i := SlotOf(c);
        Some(SetSlot(SetCall(p, t, c.(phase := Failed)), i, p.slots[i].(holder := None, pos := left)))
      else None
    case (Panic(left), _) =>
      if Holding(p, c) then
        var i := SlotOf(c);
        Some(SetSlot(SetCall(p, t, c.(phase := Panicked)), i, Slot(None, true, left)))
      else None
    case _ => None
  }

  predicate Holding(p: Pool, c: Call) {
    (c.phase.Seeking? || c.phase.Filling?) && c.phase.slot < |p.slots|
  }

  function SlotOf(c: Call): nat
    requires c.phase.Seeking? || c.phase.Filling?
  {
    c.phase.slot
  }

  // A step taken: who, and what.
  datatype Move = Move(t: nat, action: Action)

  // The pool after a schedule, or None if some move was not enabled.
  function Run(env: Shared, p: Pool, schedule: seq<Move>): Option<Pool>
    decreases |schedule|
  {
    if schedule == [] then Some(p)
    else if schedule[0].t >= |p.calls| then None
    else
      match Step(env, p, schedule[0].t, schedule[0].action)
      case None => None
      case Some(next) => Run(env, next, schedule[1..])
  }

  // Before anything runs: no slot is held, every call is ready. Slots may be
  // poisoned and readers may stand anywhere, left so by earlier panics.
  ghost predicate Initial(p: Pool) {
    && (forall i :: 0 <= i < |p.slots| ==> p.slots[i].holder.None?)
    && (forall t :: 0 <= t < |p.calls| ==> p.calls[t].phase.Ready?)
  }

  // ---- the invariant ----

  // A slot is held by `t` exactly when call `t` is inside it: mutual exclusion.
  ghost predicate Exclusive(p: Pool) {
    && (forall t :: 0 <= t < |p.calls| ==> HoldsItsSlot(p, t))
    && (forall i :: 0 <= i < |p.slots| && p.slots[i].holder.Some? ==>
          p.slots[i].holder.value < |p.calls| && p.calls[p.slots[i].holder.value].Holds(i))
  }

  ghost predicate HoldsItsSlot(p: Pool, t: nat)
    requires t < |p.calls|
  {
    var c := p.calls[t];
    c.phase.Seeking? || c.phase.Filling? ==> c.phase.slot < |p.slots| && p.slots[c.phase.slot].holder == Some(t)
  }

  // What a call has so far is a prefix of its answer, and its reader stands right
  // behind it; a finished call has its whole answer.
  ghost predicate Faithful(env: Shared, p: Pool, c: Call) {
    match c.phase
    case Ready => true
    case Trying(_) => c.offset < env.len
    case Blocked => c.offset < env.len
    case Seeking(_) => c.offset < env.len
    case Filling(i) =>
      && c.offset < env.len && i < |p.slots|
      && p.slots[i].pos == c.offset + |c.got|
      && c.got <= Answer(env.stream, env.len, c.offset, c.cap)
    case Done => c.got == Answer(env.stream, env.len, c.offset, c.cap)
    case Failed => true
    case Panicked => true
  }

  ghost predicate Inv(env: Shared, p: Pool) {
    && p.slots != []
    && Exclusive(p)
    && forall t :: 0 <= t < |p.calls| ==> Faithful(env, p, p.calls[t])
  }

  lemma InitialInv(env: Shared, p: Pool)
    requires Initial(p) && p.slots != []
    ensures Inv(env, p)
  {
  }

  lemma StepKeepsShape(env: Shared, p: Pool, t: nat, action: Action)
    requires t < |p.calls| && Step(env, p, t, action).Some?
    ensures var q := Step(env, p, t, action).value;
            && |q.slots| == |p.slots| && |q.calls| == |p.calls|
            && (forall u :: 0 <= u < |p.calls| && u != t ==> q.calls[u] == p.calls[u])
            && q.calls[t].offset == p.calls[t].offset && q.calls[t].cap == p.calls[t].cap
  {
  }

  lemma StepKeepsExclusive(env: Shared, p: Pool, t: nat, action: Action)
    requires t < |p.calls| && Exclusive(p) && Step(env, p, t, action).Some?
    ensures Exclusive(Step(env, p, t, action).value)
  {
    hide Answer;
    var q := Step(env, p, t, action).value;
    StepKeepsShape(env, p, t, action);
    assert HoldsItsSlot(p, t);
    forall u | 0 <= u < |q.calls| ensures HoldsItsSlot(q, u) {
      assert HoldsItsSlot(p, u);
    }
    forall i | 0 <= i < |q.slots| && q.slots[i].holder.Some?
      ensures q.slots[i].holder.value < |q.calls| && q.calls[q.slots[i].holder.value].Holds(i)
    {
      if q.slots[i].holder != Some(t) {
        assert p.slots[i].holder == q.slots[i].holder;
      } else if p.slots[i].holder == Some(t) {
        assert p.calls[t].Holds(i);
      }
    }
  }

  // Only the slot that the acting call holds, or takes, can move.
  lemma StepKeepsOtherReaders(env: Shared, p: Pool, t: nat, action: Action, u: nat)
    requires t < |p.calls| && u < |p.calls| && u != t && Exclusive(p) && Step(env, p, t, action).Some?
    requires p.calls[u].phase.Filling?
    ensures var q := Step(env, p, t, action).value;
            var i := p.calls[u].phase.slot;
            i < |p.slots| && i < |q.slots| && q.slots[i].pos == p.slots[i].pos
  {
    assert HoldsItsSlot(p, u) && HoldsItsSlot(p, t);
  }

  lemma StepKeepsFaithful(env: Shared, p: Pool, t: nat, action: Action)
    requires t < |p.calls| && Inv(env, p) && Step(env, p, t, action).Some?
    ensures var q := Step(env, p, t, action).value; Faithful(env, q, q.calls[t])
  {
    var c := p.calls[t];
    assert HoldsItsSlot(p, t) && Faithful(env, p, c);
    match action
    case Read(n) => ReadGrows(env, c, p.slots[c.phase.slot].pos, n);
    case Finish => FinishIsWhole(env, c, p.slots[c.phase.slot].pos);
    case _ =>
  }

  lemma ReadGrows(env: Shared, c: Call, pos: nat, n: nat)
    requires c.offset < env.len && pos == c.offset + |c.got| && 1 <= n <= Next(env, c, pos)
    requires c.got <= Answer(env.stream, env.len, c.offset, c.cap)
    ensures pos + n <= |env.stream|
    ensures c.got + env.stream[pos..pos + n] <= Answer(env.stream, env.len, c.offset, c.cap)
  {
    var answer := Answer(env.stream, env.len, c.offset, c.cap);
    assert |c.got| + n <= |answer|;
    assert answer == env.stream[c.offset..c.offset + |answer|];
    SliceOfSlice(env.stream, c.offset, |answer|, |c.got|, n);
    assert answer[|c.got|..|c.got| + n] == env.stream[pos..pos + n];
    assert answer[..|c.got| + n] == answer[..|c.got|] + answer[|c.got|..|c.got| + n];
  }

  lemma FinishIsWhole(env: Shared, c: Call, pos: nat)
    requires c.offset < env.len && pos == c.offset + |c.got| && Next(env, c, pos) == 0
    requires c.got <= Answer(env.stream, env.len, c.offset, c.cap)
    ensures c.got == Answer(env.stream, env.len, c.offset, c.cap)
  {
    assert |c.got| >= |Answer(env.stream, env.len, c.offset, c.cap)|;
  }

  lemma StepKeepsInv(env: Shared, p: Pool, t: nat, action: Action)
    requires t < |p.calls| && Inv(env, p) && Step(env, p, t, action).Some?
    ensures Inv(env, Step(env, p, t, action).value)
  {
    hide Step, Exclusive, Answer;
    var q := Step(env, p, t, action).value;
    StepKeepsShape(env, p, t, action);
    StepKeepsExclusive(env, p, t, action);
    forall u | 0 <= u < |q.calls| ensures Faithful(env, q, q.calls[u]) {
      if u == t {
        StepKeepsFaithful(env, p, t, action);
      } else if p.calls[u].phase.Filling? {
        StepKeepsOtherReaders(env, p, t, action, u);
      }
    }
  }

  lemma {:induction false} RunKeepsInv(env: Shared, p: Pool, schedule: seq<Move>)
    requires Inv(env, p) && Run(env, p, schedule).Some?
    ensures Inv(env, Run(env, p, schedule).value)
    decreases |schedule|
  {
    hide Step, Inv;
    if schedule != [] {
      StepKeepsInv(env, p, schedule[0].t, schedule[0].action);
      RunKeepsInv(env, Step(env, p, schedule[0].t, schedule[0].action).value, schedule[1..]);
    }
  }

  // Safety: any number of threads, any non-empty pool, any interleaving, any
  // earlier or later panics: a completed read holds exactly its own bytes, and no
  // slot ever has two calls inside.
  lemma CompletedReadsAreExact(env: Shared, p: Pool, schedule: seq<Move>, t: nat)
    requires Initial(p) && p.slots != [] && Run(env, p, schedule).Some?
    requires t < |Run(env, p, schedule).value.calls|
    ensures var q := Run(env, p, schedule).value;
            var c := q.calls[t];
            && (c.phase.Done? ==> c.got == Answer(env.stream, env.len, c.offset, c.cap))
            && (forall u, i :: 0 <= u < |q.calls| && u != t && c.Holds(i) ==> !q.calls[u].Holds(i))
  {
    InitialInv(env, p);
    RunKeepsInv(env, p, schedule);
    var q := Run(env, p, schedule).value;
    assert Faithful(env, q, q.calls[t]);
    forall u, i | 0 <= u < |q.calls| && u != t && q.calls[t].Holds(i) ensures !q.calls[u].Holds(i) {
      assert HoldsItsSlot(q, t) && HoldsItsSlot(q, u);
    }
  }

  // ---- progress ----

  // A step that is neither a failure nor a panic.
  predicate Productive(action: Action) {
    !action.Fail? && !action.Panic?
  }

  // While a read is pending, some pending read can take a productive step: either
  // this one, or the one that holds the slot it waits for.
  lemma SomeStepIsEnabled(env: Shared, p: Pool, t: nat) returns (u: nat, action: Action)
    requires Inv(env, p) && t < |p.calls| && p.calls[t].Pending()
    ensures u < |p.calls| && p.calls[u].Pending() && Productive(action) && Step(env, p, u, action).Some?
  {
    u := t;
    match p.calls[t].phase
    case Ready => action := Enter;
    case Trying(_) => action := TryLock;
    case Blocked =>
      if p.slots[0].holder.None? {
        action := LockFirst;
      } else {
        u := p.slots[0].holder.value;
        action := InsideStep(env, p, u);
      }
    case Seeking(_) => action := InsideStep(env, p, t);
    case Filling(_) => action := InsideStep(env, p, t);
  }

  lemma InsideStep(env: Shared, p: Pool, t: nat) returns (action: Action)
    requires Inv(env, p) && t < |p.calls| && (p.calls[t].phase.Seeking? || p.calls[t].phase.Filling?)
    ensures Productive(action) && Step(env, p, t, action).Some?
  {
    assert HoldsItsSlot(p, t);
    var c := p.calls[t];
    if c.phase.Seeking? {
      action := Seek;
    } else if Next(env, c, p.slots[c.phase.slot].pos) == 0 {
      action := Finish;
    } else {
      action := Read(1);
    }
  }

  // ---- what a panic costs ----

  // A free, poisoned slot other than the first: `try_lock` refuses it, and only
  // the first is ever blocked on.
  ghost predicate Abandoned(p: Pool, i: nat) {
    0 < i < |p.slots| && p.slots[i].poisoned && p.slots[i].holder.None?
  }

  lemma StepLeavesAbandoned(env: Shared, p: Pool, t: nat, action: Action, i: nat)
    requires t < |p.calls| && Inv(env, p) && Step(env, p, t, action).Some? && Abandoned(p, i)
    ensures Abandoned(Step(env, p, t, action).value, i)
  {
    assert HoldsItsSlot(p, t);
  }

  // So after a panic the pool is smaller for good: the slot is never used again.
  lemma {:induction false} AbandonedForever(env: Shared, p: Pool, schedule: seq<Move>, i: nat)
    requires Inv(env, p) && Run(env, p, schedule).Some? && Abandoned(p, i)
    ensures Abandoned(Run(env, p, schedule).value, i)
    ensures forall t :: 0 <= t < |Run(env, p, schedule).value.calls| ==>
              !Run(env, p, schedule).value.calls[t].Holds(i)
    decreases |schedule|
  {
    if schedule == [] {
      forall t | 0 <= t < |p.calls| ensures !p.calls[t].Holds(i) {
        assert HoldsItsSlot(p, t);
      }
    } else {
      hide Step, Inv, Abandoned;
      StepKeepsInv(env, p, schedule[0].t, schedule[0].action);
      StepLeavesAbandoned(env, p, schedule[0].t, schedule[0].action, i);
      AbandonedForever(env, Step(env, p, schedule[0].t, schedule[0].action).value, schedule[1..], i);
    }
  }

  // ---- every schedule is finite ----

  // How many more steps a call can take.
  function Effort(env: Shared, slots: nat, c: Call): nat {
    var want := Want(env, c);
    match c.phase
    case Ready => slots + want + 6
    case Trying(i) => (if i <= slots then slots - i else 0) + want + 4
    case Blocked => want + 3
    case Seeking(_) => want + 2
    case Filling(_) => 1 + want - Min(|c.got|, want)
    case _ => 0
  }

  function TotalEffort(env: Shared, slots: nat, calls: seq<Call>): nat {
    if calls == [] then 0
    else TotalEffort(env, slots, calls[..|calls| - 1]) + Effort(env, slots, calls[|calls| - 1])
  }

  lemma {:induction false} EffortOfUpdate(env: Shared, slots: nat, calls: seq<Call>, t: nat, c: Call)
    requires t < |calls|
    ensures TotalEffort(env, slots, calls[t := c])
         == TotalEffort(env, slots, calls) - Effort(env, slots, calls[t]) + Effort(env, slots, c)
  {
    hide Effort;
    var front := calls[..|calls| - 1];
    if t == |calls| - 1 {
      assert calls[t := c][..|calls| - 1] == front;
    } else {
      EffortOfUpdate(env, slots, front, t, c);
      assert calls[t := c][..|calls| - 1] == front[t := c];
    }
  }

  lemma StepCosts(env: Shared, p: Pool, t: nat, action: Action)
    requires t < |p.calls| && Inv(env, p) && Step(env, p, t, action).Some?
    ensures Effort(env, |p.slots|, Step(env, p, t, action).value.calls[t]) < Effort(env, |p.slots|, p.calls[t])
  {
    assert HoldsItsSlot(p, t) && Faithful(env, p, p.calls[t]);
  }

  lemma StepUpdatesOne(env: Shared, p: Pool, t: nat, action: Action)
    requires t < |p.calls| && Step(env, p, t, action).Some?
    ensures var q := Step(env, p, t, action).value;
            |q.slots| == |p.slots| && |q.calls| == |p.calls| && q.calls == p.calls[t := q.calls[t]]
  {
    hide Step;
    StepKeepsShape(env, p, t, action);
    var q := Step(env, p, t, action).value;
    assert q.calls == p.calls[t := q.calls[t]];
  }

  // Every move spends effort, so no schedule is longer than the effort at hand:
  // nothing is retried forever.
  lemma {:induction false} SchedulesAreBounded(env: Shared, p: Pool, schedule: seq<Move>)
    requires Inv(env, p) && Run(env, p, schedule).Some?
    ensures |schedule| + TotalEffort(env, |p.slots|, Run(env, p, schedule).value.calls)
         <= TotalEffort(env, |p.slots|, p.calls)
    decreases |schedule|
  {
    hide Step, Inv, Effort;
    if schedule != [] {
      var t, action := schedule[0].t, schedule[0].action;
      var q := Step(env, p, t, action).value;
      StepKeepsInv(env, p, t, action);
      StepUpdatesOne(env, p, t, action);
      StepCosts(env, p, t, action);
      EffortOfUpdate(env, |p.slots|, p.calls, t, q.calls[t]);
      SchedulesAreBounded(env, q, schedule[1..]);
    }
  }

  // A schedule that cannot be continued has settled every call: no deadlock.
  lemma MaximalSchedulesSettle(env: Shared, p: Pool, schedule: seq<Move>, t: nat)
    requires Initial(p) && p.slots != [] && Run(env, p, schedule).Some?
    requires var q := Run(env, p, schedule).value;
             forall u, action :: 0 <= u < |q.calls| ==> Step(env, q, u, action).None?
    requires t < |Run(env, p, schedule).value.calls|
    ensures !Run(env, p, schedule).value.calls[t].Pending()
  {
    InitialInv(env, p);
    RunKeepsInv(env, p, schedule);
    var q := Run(env, p, schedule).value;
    if q.calls[t].Pending() {
      var u, action := SomeStepIsEnabled(env, q, t);
    }
  }
}
