/** What panics cost the reader pool: they, and nothing else, poison slots. */
module PoolPanics {
  import opened Basics
  import opened CursorPool
  import opened PoolScaling

  // The move is a panic of the call inside slot `i`.
  ghost predicate PanicsInSlot(p: Pool, m: Move, i: nat) {
    m.action.Panic? && m.t < |p.calls| && p.calls[m.t].Holds(i)
  }

  // Some move of the schedule is.
  ghost predicate PanickedIn(env: Shared, p: Pool, schedule: seq<Move>, i: nat)
    requires Run(env, p, schedule).Some?
    decreases |schedule|
  {
    schedule != [] &&
    (PanicsInSlot(p, schedule[0], i)
     || PanickedIn(env, Step(env, p, schedule[0].t, schedule[0].action).value, schedule[1..], i))
  }

  lemma StepPoisonsExactly(env: Shared, p: Pool, m: Move, i: nat)
    requires m.t < |p.calls| && i < |p.slots| && Step(env, p, m.t, m.action).Some?
    ensures var q := Step(env, p, m.t, m.action).value;
            |q.slots| == |p.slots| && (q.slots[i].poisoned <==> p.slots[i].poisoned || PanicsInSlot(p, m, i))
  {
  }

  // Over every run: a slot is poisoned at the end exactly when it was at the start,
  // or a call panicked inside it.
  lemma {:induction false} RunPoisonsExactly(env: Shared, p: Pool, schedule: seq<Move>, i: nat)
    requires i < |p.slots| && Run(env, p, schedule).Some?
    ensures var q := Run(env, p, schedule).value;
            |q.slots| == |p.slots| && (q.slots[i].poisoned <==> p.slots[i].poisoned || PanickedIn(env, p, schedule, i))
    decreases |schedule|
  {
    hide Step, PanicsInSlot;
    if schedule != [] {
      StepPoisonsExactly(env, p, schedule[0], i);
      RunPoisonsExactly(env, Step(env, p, schedule[0].t, schedule[0].action).value, schedule[1..], i);
    }
  }

  // The later slots in which a call panicked.
  ghost function LostSlots(env: Shared, p: Pool, schedule: seq<Move>): set<nat>
    requires Run(env, p, schedule).Some?
  {
    set i: nat | 0 < i < |p.slots| && PanickedIn(env, p, schedule, i)
  }

  lemma UsableAfterPanics(env: Shared, p: Pool, schedule: seq<Move>)
    requires LaterSlotsClean(p) && Run(env, p, schedule).Some?
    ensures Usable(Run(env, p, schedule).value) == Below(|p.slots|) - LostSlots(env, p, schedule)
  {
    hide Run, PanickedIn;
    var q := Run(env, p, schedule).value;
    RunKeepsShape(env, p, schedule);
    forall i: nat | i < |p.slots|
      ensures i in Usable(q) <==> i in Below(|p.slots|) - LostSlots(env, p, schedule)
    {
      RunPoisonsExactly(env, p, schedule, i);
    }
  }

  lemma DifferenceCount(whole: set<nat>, part: set<nat>)
    requires part <= whole
    ensures |whole - part| == |whole| - |part|
  {
    assert whole == (whole - part) + part;
  }

  // From a clean pool, at the end of every run the reads inside number at most the
  // slots less the later ones in which a call has panicked.
  lemma PanicsShrinkThePool(env: Shared, p: Pool, schedule: seq<Move>)
    requires Initial(p) && p.slots != [] && LaterSlotsClean(p) && Run(env, p, schedule).Some?
    ensures |Inside(Run(env, p, schedule).value)| <= |p.slots| - |LostSlots(env, p, schedule)|
  {
    hide Run, PanickedIn, Inside, Usable, Initial;
    InsideIsBounded(env, p, schedule);
    UsableAfterPanics(env, p, schedule);
    assert LostSlots(env, p, schedule) <= Below(|p.slots|);
    DifferenceCount(Below(|p.slots|), LostSlots(env, p, schedule));
  }

  lemma {:induction false} PanicStays(env: Shared, p: Pool, schedule: seq<Move>, more: seq<Move>, i: nat)
    requires Run(env, p, schedule).Some? && Run(env, p, schedule + more).Some? && PanickedIn(env, p, schedule, i)
    ensures PanickedIn(env, p, schedule + more, i)
    decreases |schedule|
  {
    hide Step, PanicsInSlot;
    assert (schedule + more)[0] == schedule[0] && (schedule + more)[1..] == schedule[1..] + more;
    if !PanicsInSlot(p, schedule[0], i) {
      PanicStays(env, Step(env, p, schedule[0].t, schedule[0].action).value, schedule[1..], more, i);
    }
  }

  // Over two clean readers the second read panics in the second one. However the run
  // goes on, no two reads are inside together again: the pool has become one mutex.
  lemma OnePanicHalvesThePool() returns (schedule: seq<Move>)
    ensures Run(ONE_BYTE, CLEAN_POOL, schedule).Some? && PanickedIn(ONE_BYTE, CLEAN_POOL, schedule, 1)
    ensures Eager(ONE_BYTE, Run(ONE_BYTE, CLEAN_POOL, schedule).value, 2)
    ensures forall more :: Run(ONE_BYTE, CLEAN_POOL, schedule + more).Some? ==>
              |Inside(Run(ONE_BYTE, CLEAN_POOL, schedule + more).value)| <= 1
  {
    var taken, p := BothSlotsTaken();
    RunOne(ONE_BYTE, p, 1, Panic(0));
    RunAppend(ONE_BYTE, CLEAN_POOL, taken, [Move(1, Panic(0))]);
    schedule := taken + [Move(1, Panic(0))];
    assert Run(ONE_BYTE, CLEAN_POOL, schedule) == Step(ONE_BYTE, p, 1, Panic(0));
    RunPoisonsExactly(ONE_BYTE, CLEAN_POOL, schedule, 1);
    forall more | Run(ONE_BYTE, CLEAN_POOL, schedule + more).Some?
      ensures |Inside(Run(ONE_BYTE, CLEAN_POOL, schedule + more).value)| <= 1
    {
      SlotOneIsLost(schedule, more);
    }
  }

  lemma SlotOneIsLost(schedule: seq<Move>, more: seq<Move>)
    requires Run(ONE_BYTE, CLEAN_POOL, schedule).Some? && PanickedIn(ONE_BYTE, CLEAN_POOL, schedule, 1)
    requires Run(ONE_BYTE, CLEAN_POOL, schedule + more).Some?
    ensures |Inside(Run(ONE_BYTE, CLEAN_POOL, schedule + more).value)| <= 1
  {
    hide Run, PanickedIn, Inside;
    PanicStays(ONE_BYTE, CLEAN_POOL, schedule, more, 1);
    PanicsShrinkThePool(ONE_BYTE, CLEAN_POOL, schedule + more);
    assert 1 in LostSlots(ONE_BYTE, CLEAN_POOL, schedule + more);
  }
}
