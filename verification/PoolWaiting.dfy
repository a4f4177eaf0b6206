/** Whom a blocked read waits for, and exactly when it waits beside a slot it could have had. */
module PoolWaiting {
  import opened Basics
  import opened Adapters
  import opened CursorPool
  import opened PoolScaling

  // A blocked read can move exactly when the first slot is free, whatever the others are.
  lemma BlockedWaitsForFirst(env: Shared, p: Pool, t: nat)
    requires t < |p.calls| && p.calls[t].phase.Blocked? && p.slots != []
    ensures (exists action :: Step(env, p, t, action).Some?) <==> p.slots[0].holder.None?
  {
    if p.slots[0].holder.None? {
      assert Step(env, p, t, LockFirst).Some?;
    }
  }

  // Call `t` is blocked on the held first slot, and slot `i` could be taken.
  ghost predicate WaitsBeside(p: Pool, t: nat, i: nat) {
    && t < |p.calls| && p.calls[t].phase.Blocked?
    && p.slots != [] && p.slots[0].holder.Some?
    && Takeable(p, i)
  }

  ghost predicate SomeLaterClean(p: Pool) {
    exists i :: 0 < i < |p.slots| && !p.slots[i].poisoned
  }

  ghost function EagerReads(env: Shared, p: Pool): set<nat> {
    set t: nat | t < |p.calls| && Eager(env, p, t)
  }

  // ---- reaching it ----

  lemma {:induction false} SetToCrew(env: Shared, p: Pool, calls: set<nat>, n: nat) returns (crew: seq<nat>)
    requires calls <= EagerReads(env, p) && n <= |calls|
    ensures |crew| == n && Crew(env, p, crew)
    ensures forall t :: t in crew ==> t in calls
    decreases n
  {
    if n == 0 {
      crew := [];
    } else {
      var t :| t in calls;
      var rest := SetToCrew(env, p, calls - {t}, n - 1);
      crew := [t] + rest;
    }
  }

  // The pool after call `t` has found every slot refused.
  function BlockedIn(p: Pool, t: nat): Pool
    requires t < |p.calls|
  {
    SetCall(p, t, p.calls[t].(phase := Blocked, got := []))
  }

  lemma AllRefuse(env: Shared, p: Pool, t: nat) returns (schedule: seq<Move>)
    requires Eager(env, p, t) && p.slots != [] && NoneTakeable(p, 0, |p.slots|)
    ensures Run(env, p, schedule) == Some(BlockedIn(p, t))
  {
    var looking := Looking(p, t, |p.slots|);
    assert looking.calls[t := BlockedIn(p, t).calls[t]] == BlockedIn(p, t).calls;
    assert Step(env, looking, t, TryLock) == Some(BlockedIn(p, t));
    hide Step, Run;
    EnterLooks(env, p, t);
    RunOne(env, p, t, Enter);
    var passing := LookOn(env, p, t, 0, |p.slots|);
    RunOne(env, looking, t, TryLock);
    RunAppend(env, Looking(p, t, 0), passing, [Move(t, TryLock)]);
    RunAppend(env, p, [Move(t, Enter)], passing + [Move(t, TryLock)]);
    schedule := [Move(t, Enter)] + (passing + [Move(t, TryLock)]);
  }

  // `q` differs from `p` in call `t` and slot `i` only, and the slot is as poisoned as it was.
  ghost predicate OnlyMoves(p: Pool, q: Pool, t: nat, i: nat)
    requires i < |p.slots|
  {
    && |q.slots| == |p.slots| && |q.calls| == |p.calls|
    && (forall j :: 0 <= j < |p.slots| && j != i ==> q.slots[j] == p.slots[j])
    && (forall u :: 0 <= u < |p.calls| && u != t ==> q.calls[u] == p.calls[u])
    && q.slots[i].poisoned == p.slots[i].poisoned
  }

  // A call that has just entered its slot can seek, read all there is, and let go.
  lemma SeekerFinishes(env: Shared, p: Pool, t: nat, i: nat) returns (schedule: seq<Move>, q: Pool)
    requires SeeksIn(p, t, i) && i < |p.slots|
    ensures Run(env, p, schedule) == Some(q) && OnlyMoves(p, q, t, i) && q.slots[i].holder.None?
  {
    hide Run;
    RunOne(env, p, t, CursorPool.Seek);
    var sought := Step(env, p, t, CursorPool.Seek).value;
    var c := sought.calls[t];
    var n := Next(env, c, sought.slots[i].pos);
    schedule := [Move(t, CursorPool.Seek)];
    var filled := sought;
    if n > 0 {
      RunOne(env, sought, t, CursorPool.Read(n));
      filled := Step(env, sought, t, CursorPool.Read(n)).value;
      RunAppend(env, p, schedule, [Move(t, CursorPool.Read(n))]);
      schedule := schedule + [Move(t, CursorPool.Read(n))];
    }
    RunOne(env, filled, t, Finish);
    RunAppend(env, p, schedule, [Move(t, Finish)]);
    q := Step(env, filled, t, Finish).value;
    schedule := schedule + [Move(t, Finish)];
  }

  lemma FullPoolRefuses(p: Pool)
    requires FreeUsable(p) == {}
    ensures NoneTakeable(p, 0, |p.slots|)
    ensures forall i :: i in Usable(p) ==> p.slots[i].holder.Some?
  {
    forall i | i in Usable(p) ensures p.slots[i].holder.Some? {
      assert i !in FreeUsable(p);
    }
    forall i | 0 <= i < |p.slots| ensures !Takeable(p, i) {
      assert Takeable(p, i) ==> i in Usable(p);
    }
  }

  // With one read more than usable slots, one of them ends up waiting beside slot `i`.
  lemma WaiterCanBeLeft(env: Shared, p: Pool, i: nat) returns (schedule: seq<Move>, t: nat)
    requires Initial(p) && 0 < i < |p.slots| && !p.slots[i].poisoned
    requires |EagerReads(env, p)| > |Usable(p)|
    ensures Run(env, p, schedule).Some? && WaitsBeside(Run(env, p, schedule).value, t, i)
  {
    hide Run, Step, Crew, AllSeeking;
    InitialIsFree(p);
    var n := |Usable(p)|;
    assert i in Usable(p) && 0 in Usable(p);
    var crew := SetToCrew(env, p, EagerReads(env, p), n + 1);
    var filling, full := CrewFillsUsable(env, p, crew);
    t := crew[n];
    LeftOver(env, full, crew, n);
    FullPoolRefuses(full);
    var blocking := AllRefuse(env, full, t);
    var holder := full.slots[i].holder.value;
    HolderSeeks(full, i);
    var finishing, q := SeekerFinishes(env, BlockedIn(full, t), holder, i);
    RunAppend(env, p, filling, blocking);
    RunAppend(env, p, filling + blocking, finishing);
    schedule := filling + blocking + finishing;
    assert i in Usable(full) && 0 in Usable(full);
    assert t != holder && q.calls[t].phase.Blocked?;
  }

  lemma LeftOver(env: Shared, p: Pool, crew: seq<nat>, n: nat)
    requires n < |crew| && Crew(env, p, crew[n..])
    ensures Eager(env, p, crew[n])
  {
    assert crew[n..][0] == crew[n];
  }

  lemma HolderSeeks(p: Pool, i: nat)
    requires AllSeeking(p) && i < |p.slots| && p.slots[i].holder.Some?
    ensures SeeksIn(p, p.slots[i].holder.value, i)
  {
  }

  // ---- what it takes ----

  // The slot that each call has taken, for the calls that have taken one.
  type History = map<nat, nat>

  // A call that has taken no slot yet.
  predicate Outside(c: Call) {
    c.phase.Ready? || c.phase.Trying? || c.phase.Blocked?
  }

  // The call has found slot `j` refused.
  predicate Refused(c: Call, j: nat) {
    c.phase.Blocked? || (c.phase.Trying? && j < c.phase.next)
  }

  ghost predicate HistoryHolds(p: Pool, h: History) {
    && (forall t :: t in h ==> t < |p.calls| && !Outside(p.calls[t]))
    && (forall t :: 0 <= t < |p.calls| ==> InsideIsRecorded(p.calls[t], t, h))
  }

  ghost predicate InsideIsRecorded(c: Call, t: nat, h: History) {
    c.phase.Seeking? || c.phase.Filling? ==> t in h && h[t] == c.phase.slot
  }

  // Slot `j` was poisoned to begin with, or some call has taken it.
  ghost predicate Accounted(bad: set<nat>, h: History, j: nat) {
    j in bad || j in h.Values
  }

  ghost predicate PoisonIsAccounted(p: Pool, bad: set<nat>, h: History) {
    forall j :: 0 <= j < |p.slots| && p.slots[j].poisoned ==> Accounted(bad, h, j)
  }

  ghost predicate RefusalsAreAccounted(p: Pool, bad: set<nat>, h: History) {
    forall t, j :: 0 <= t < |p.calls| && 0 <= j < |p.slots| && Refused(p.calls[t], j) ==> Accounted(bad, h, j)
  }

  // Whatever is under way was eager at the start.
  ghost predicate MoversAreEager(env: Shared, p: Pool, eager: set<nat>) {
    forall t :: 0 <= t < |p.calls| ==> MoverIsEager(env, p.calls[t], t, eager)
  }

  ghost predicate MoverIsEager(env: Shared, c: Call, t: nat, eager: set<nat>) {
    match c.phase
    case Ready => c.offset < env.len ==> t in eager
    case Done => true
    case _ => t in eager
  }

  ghost predicate Recorded(env: Shared, p: Pool, bad: set<nat>, eager: set<nat>, h: History) {
    && HistoryHolds(p, h) && PoisonIsAccounted(p, bad, h) && RefusalsAreAccounted(p, bad, h)
    && MoversAreEager(env, p, eager) && h.Keys <= eager
  }

  // The step records the slot it takes, if it takes one.
  ghost function Record(p: Pool, q: Pool, t: nat, h: History): History
    requires t < |p.calls| && t < |q.calls|
  {
    if Outside(p.calls[t]) && q.calls[t].phase.Seeking? then h[t := q.calls[t].phase.slot] else h
  }

  lemma RecordGrows(p: Pool, q: Pool, t: nat, h: History)
    requires t < |p.calls| && t < |q.calls| && HistoryHolds(p, h)
    ensures h.Values <= Record(p, q, t, h).Values
  {
    forall v | v in h.Values ensures v in Record(p, q, t, h).Values {
      var u :| u in h && h[u] == v;
      assert u in Record(p, q, t, h) && Record(p, q, t, h)[u] == v;
    }
  }

  lemma StepKeepsHistory(env: Shared, p: Pool, t: nat, action: Action, h: History)
    requires t < |p.calls| && Step(env, p, t, action).Some? && HistoryHolds(p, h)
    ensures var q := Step(env, p, t, action).value;
            |q.calls| == |p.calls| && HistoryHolds(q, Record(p, q, t, h))
  {
    hide Answer;
    StepKeepsShape(env, p, t, action);
    assert InsideIsRecorded(p.calls[t], t, h);
    var q := Step(env, p, t, action).value;
    forall u | 0 <= u < |q.calls| ensures InsideIsRecorded(q.calls[u], u, Record(p, q, t, h)) {
      assert InsideIsRecorded(p.calls[u], u, h);
    }
  }

  lemma StepKeepsPoisonAccount(env: Shared, p: Pool, t: nat, action: Action, bad: set<nat>, h: History)
    requires t < |p.calls| && Step(env, p, t, action).Some?
    requires HistoryHolds(p, h) && PoisonIsAccounted(p, bad, h)
    ensures var q := Step(env, p, t, action).value;
            |q.calls| == |p.calls| && PoisonIsAccounted(q, bad, Record(p, q, t, h))
  {
    StepKeepsShape(env, p, t, action);
    var q := Step(env, p, t, action).value;
    RecordGrows(p, q, t, h);
    assert InsideIsRecorded(p.calls[t], t, h);
    forall j | 0 <= j < |q.slots| && q.slots[j].poisoned ensures Accounted(bad, Record(p, q, t, h), j) {
      if p.slots[j].poisoned {
        assert Accounted(bad, h, j);
      } else {
        assert p.calls[t].Holds(j);
      }
    }
  }

  lemma StepKeepsRefusalAccount(env: Shared, p: Pool, t: nat, action: Action, bad: set<nat>, h: History)
    requires t < |p.calls| && Step(env, p, t, action).Some? && Exclusive(p)
    requires HistoryHolds(p, h) && PoisonIsAccounted(p, bad, h) && RefusalsAreAccounted(p, bad, h)
    ensures var q := Step(env, p, t, action).value;
            |q.calls| == |p.calls| && RefusalsAreAccounted(q, bad, Record(p, q, t, h))
  {
    StepKeepsShape(env, p, t, action);
    var q := Step(env, p, t, action).value;
    RecordGrows(p, q, t, h);
    forall u, j | 0 <= u < |q.calls| && 0 <= j < |q.slots| && Refused(q.calls[u], j)
      ensures Accounted(bad, Record(p, q, t, h), j)
    {
      if Refused(p.calls[u], j) {
        assert Accounted(bad, h, j);
      } else {
        NewRefusal(env, p, t, action, u, j);
        RefusedIsAccounted(p, bad, h, j);
      }
    }
  }

  lemma NewRefusal(env: Shared, p: Pool, t: nat, action: Action, u: nat, j: nat)
    requires t < |p.calls| && u < |p.calls| && j < |p.slots| && Step(env, p, t, action).Some?
    requires u < |Step(env, p, t, action).value.calls| && Refused(Step(env, p, t, action).value.calls[u], j)
    requires !Refused(p.calls[u], j)
    ensures !Takeable(p, j)
  {
    StepKeepsShape(env, p, t, action);
  }

  lemma RefusedIsAccounted(p: Pool, bad: set<nat>, h: History, j: nat)
    requires j < |p.slots| && !Takeable(p, j) && Exclusive(p) && HistoryHolds(p, h) && PoisonIsAccounted(p, bad, h)
    ensures Accounted(bad, h, j)
  {
    if p.slots[j].holder.Some? {
      HeldIsTaken(p, h, j);
    }
  }

  lemma HeldIsTaken(p: Pool, h: History, j: nat)
    requires j < |p.slots| && p.slots[j].holder.Some? && Exclusive(p) && HistoryHolds(p, h)
    ensures j in h.Values
  {
    var u := p.slots[j].holder.value;
    assert InsideIsRecorded(p.calls[u], u, h);
    assert h[u] == j;
  }

  lemma StepKeepsMovers(env: Shared, p: Pool, t: nat, action: Action, eager: set<nat>, h: History)
    requires t < |p.calls| && Step(env, p, t, action).Some? && MoversAreEager(env, p, eager) && h.Keys <= eager
    ensures var q := Step(env, p, t, action).value;
            |q.calls| == |p.calls| && MoversAreEager(env, q, eager) && Record(p, q, t, h).Keys <= eager
  {
    hide Answer;
    StepKeepsShape(env, p, t, action);
    assert MoverIsEager(env, p.calls[t], t, eager);
    var q := Step(env, p, t, action).value;
    forall u | 0 <= u < |q.calls| ensures MoverIsEager(env, q.calls[u], u, eager) {
      assert MoverIsEager(env, p.calls[u], u, eager);
    }
  }

  lemma {:induction false} RunRecords(env: Shared, p: Pool, schedule: seq<Move>, bad: set<nat>, eager: set<nat>,
                                      h: History)
    returns (final: History)
    requires Inv(env, p) && Run(env, p, schedule).Some? && Recorded(env, p, bad, eager, h)
    ensures Recorded(env, Run(env, p, schedule).value, bad, eager, final)
    decreases |schedule|
  {
    hide Step, HistoryHolds, PoisonIsAccounted, RefusalsAreAccounted, MoversAreEager, Exclusive;
    if schedule == [] {
      final := h;
    } else {
      var t, action := schedule[0].t, schedule[0].action;
      var q := Step(env, p, t, action).value;
      StepKeepsInv(env, p, t, action);
      StepKeepsHistory(env, p, t, action, h);
      StepKeepsPoisonAccount(env, p, t, action, bad, h);
      StepKeepsRefusalAccount(env, p, t, action, bad, h);
      StepKeepsMovers(env, p, t, action, eager, h);
      final := RunRecords(env, q, schedule[1..], bad, eager, Record(p, q, t, h));
    }
  }

  lemma {:induction false} ValuesCount(h: History)
    ensures |h.Values| <= |h.Keys|
    decreases |h|
  {
    if h.Keys == {} {
      assert h.Values == {};
    } else {
      var t :| t in h.Keys;
      var rest := h - {t};
      ValuesCount(rest);
      assert rest.Keys == h.Keys - {t};
      forall v | v in h.Values ensures v in rest.Values + {h[t]} {
        var u :| u in h && h[u] == v;
        if u != t {
          assert u in rest && rest[u] == v;
        }
      }
      SubsetCount(h.Values, rest.Values + {h[t]});
    }
  }

  // Every usable slot was taken by some other read, each by its own.
  lemma WaiterNeedsCrew(env: Shared, p: Pool, schedule: seq<Move>, t: nat, i: nat)
    requires Initial(p) && p.slots != [] && Run(env, p, schedule).Some?
    requires WaitsBeside(Run(env, p, schedule).value, t, i)
    ensures SomeLaterClean(p) && |EagerReads(env, p)| > |Usable(p)|
  {
    hide Run, Step;
    var q := Run(env, p, schedule).value;
    var bad := set j: nat | j < |p.slots| && p.slots[j].poisoned;
    InitialInv(env, p);
    RunKeepsInv(env, p, schedule);
    RunKeepsShape(env, p, schedule);
    var h := RunRecords(env, p, schedule, bad, EagerReads(env, p), map[]);
    assert HeldAreUsable(p);
    RunKeepsUsable(env, p, schedule);
    assert i in Usable(q) && i in Usable(p);
    forall j | j in Usable(p) ensures j in h.Values {
      if j == 0 {
        HeldIsTaken(q, h, 0);
      } else {
        assert Refused(q.calls[t], j);
        assert Accounted(bad, h, j);
      }
    }
    SubsetCount(Usable(p), h.Values);
    ValuesCount(h);
    assert MoverIsEager(env, q.calls[t], t, EagerReads(env, p));
    assert h.Keys <= EagerReads(env, p) - {t};
    SubsetCount(h.Keys, EagerReads(env, p) - {t});
  }

  // From a fresh pool a read can be left blocked on the held first slot beside one
  // it could have taken exactly when some later slot is unpoisoned and there are more
  // reads with something to read than usable slots.
  lemma WaiterIsLeftExactlyWhen(env: Shared, p: Pool)
    requires Initial(p) && p.slots != []
    ensures (exists schedule, t, i :: Run(env, p, schedule).Some? && WaitsBeside(Run(env, p, schedule).value, t, i))
            <==> SomeLaterClean(p) && |EagerReads(env, p)| > |Usable(p)|
  {
    hide Run, WaitsBeside, Initial, EagerReads, Usable;
    if schedule, t, i :| Run(env, p, schedule).Some? && WaitsBeside(Run(env, p, schedule).value, t, i) {
      WaiterNeedsCrew(env, p, schedule, t, i);
    }
    if SomeLaterClean(p) && |EagerReads(env, p)| > |Usable(p)| {
      var i :| 0 < i < |p.slots| && !p.slots[i].poisoned;
      var schedule, t := WaiterCanBeLeft(env, p, i);
    }
  }

  // ---- a concrete run ----

  // Of three reads over two readers the third finds both busy and blocks on the
  // first; the second is then released, and the third still waits beside it.
  lemma WaiterIgnoresAFreedSlot() returns (schedule: seq<Move>)
    ensures Run(ONE_BYTE, CLEAN_POOL, schedule).Some?
    ensures var q := Run(ONE_BYTE, CLEAN_POOL, schedule).value;
            && |q.calls| == 3 && q.calls[2].phase.Blocked? && q.calls[1].phase.Done? && Takeable(q, 1)
            && forall action :: Step(ONE_BYTE, q, 2, action).None?
  {
    var busy, p := BothSlotsTaken();
    var waiting, q := ThirdBlocks(p);
    var released := SecondFinishes(q);
    RunAppend(ONE_BYTE, CLEAN_POOL, busy, waiting);
    RunAppend(ONE_BYTE, CLEAN_POOL, busy + waiting, released);
    schedule := busy + waiting + released;
    BlockedWaitsForFirst(ONE_BYTE, Run(ONE_BYTE, CLEAN_POOL, schedule).value, 2);
  }

  lemma ThirdBlocks(p: Pool) returns (schedule: seq<Move>, q: Pool)
    requires Crowded(p, Ready)
    ensures Run(ONE_BYTE, p, schedule) == Some(q) && Crowded(q, Blocked)
  {
    hide Run;
    EnterLooks(ONE_BYTE, p, 2);
    RunOne(ONE_BYTE, p, 2, Enter);
    var looking := LookOn(ONE_BYTE, p, 2, 0, 2);
    RunOne(ONE_BYTE, Looking(p, 2, 2), 2, TryLock);
    RunAppend(ONE_BYTE, Looking(p, 2, 0), looking, [Move(2, TryLock)]);
    RunAppend(ONE_BYTE, p, [Move(2, Enter)], looking + [Move(2, TryLock)]);
    schedule := [Move(2, Enter)] + (looking + [Move(2, TryLock)]);
    q := Step(ONE_BYTE, Looking(p, 2, 2), 2, TryLock).value;
  }

  // The call in slot 1 seeks, reads its byte and lets go.
  lemma SecondFinishes(p: Pool) returns (schedule: seq<Move>)
    requires Crowded(p, Blocked)
    ensures Run(ONE_BYTE, p, schedule).Some?
    ensures var q := Run(ONE_BYTE, p, schedule).value;
            && q.slots == [p.slots[0], Slot(None, false, 1)]
            && |q.calls| == 3 && q.calls[2] == p.calls[2] && q.calls[1].phase.Done?
  {
    hide Run;
    var seek, read := Move(1, CursorPool.Seek), Move(1, CursorPool.Read(1));
    RunOne(ONE_BYTE, p, 1, CursorPool.Seek);
    var sought := Step(ONE_BYTE, p, 1, CursorPool.Seek).value;
    RunOne(ONE_BYTE, sought, 1, CursorPool.Read(1));
    var filled := Step(ONE_BYTE, sought, 1, CursorPool.Read(1)).value;
    RunOne(ONE_BYTE, filled, 1, Finish);
    RunAppend(ONE_BYTE, p, [seek], [read]);
    RunAppend(ONE_BYTE, p, [seek] + [read], [Move(1, Finish)]);
    schedule := [seek] + [read] + [Move(1, Finish)];
  }
}
