/**
 How far the reader pool lets reads run in parallel: the checkout takes the first
 slot it can, and all slots can be busy at once exactly when no later one is poisoned.
 */
module PoolScaling {
  import opened Basics
  import opened Adapters
  import opened CursorPool

  lemma {:induction false} RunAppend(env: Shared, p: Pool, a: seq<Move>, b: seq<Move>)
    requires Run(env, p, a).Some?
    ensures Run(env, p, a + b) == Run(env, Run(env, p, a).value, b)
    decreases |a|
  {
    hide Step;
    if a == [] {
      assert a + b == b;
    } else {
      assert (a + b)[0] == a[0] && (a + b)[1..] == a[1..] + b;
      RunAppend(env, Step(env, p, a[0].t, a[0].action).value, a[1..], b);
    }
  }

  lemma RunOne(env: Shared, p: Pool, t: nat, action: Action)
    requires t < |p.calls|
    ensures Run(env, p, [Move(t, action)]) == Step(env, p, t, action)
  {
    hide Step;
    assert [Move(t, action)][1..] == [];
  }

  // ---- the checkout, alone ----

  // `try_lock` takes this slot.
  predicate Takeable(p: Pool, i: nat) {
    i < |p.slots| && p.slots[i].holder.None? && !p.slots[i].poisoned
  }

  ghost predicate NoneTakeable(p: Pool, from: nat, to: nat) {
    forall i :: from <= i < to ==> !Takeable(p, i)
  }

  // Call `t` is inside slot `i`, and nothing else has changed.
  function Taken(p: Pool, t: nat, i: nat): Pool
    requires t < |p.calls| && i < |p.slots|
  {
    SetSlot(SetCall(p, t, p.calls[t].(phase := Seeking(i), got := [])), i, p.slots[i].(holder := Some(t)))
  }

  // A call that starts afresh and has something to read.
  ghost predicate Eager(env: Shared, p: Pool, t: nat) {
    t < |p.calls| && p.calls[t].phase.Ready? && p.calls[t].offset < env.len
  }

  // The pool while call `t` looks at slot `k`.
  function Looking(p: Pool, t: nat, k: nat): Pool
    requires t < |p.calls|
  {
    SetCall(p, t, p.calls[t].(phase := Trying(k), got := []))
  }

  lemma EnterLooks(env: Shared, p: Pool, t: nat)
    requires Eager(env, p, t)
    ensures Step(env, p, t, Enter) == Some(Looking(p, t, 0))
  {
  }

  lemma LookPasses(env: Shared, p: Pool, t: nat, k: nat)
    requires t < |p.calls| && k < |p.slots| && !Takeable(p, k)
    ensures Step(env, Looking(p, t, k), t, TryLock) == Some(Looking(p, t, k + 1))
  {
    assert Looking(p, t, k).calls[t := Looking(p, t, k + 1).calls[t]] == Looking(p, t, k + 1).calls;
  }

  lemma LookTakes(env: Shared, p: Pool, t: nat, k: nat)
    requires t < |p.calls| && Takeable(p, k)
    ensures Step(env, Looking(p, t, k), t, TryLock) == Some(Taken(p, t, k))
  {
    assert Looking(p, t, k).calls[t := Taken(p, t, k).calls[t]] == Taken(p, t, k).calls;
  }

  // Every slot refused, the call blocks on the first and takes it, poisoned or not.
  lemma LookGivesUp(env: Shared, p: Pool, t: nat) returns (schedule: seq<Move>)
    requires t < |p.calls| && p.slots != [] && p.slots[0].holder.None?
    ensures Run(env, Looking(p, t, |p.slots|), schedule) == Some(Taken(p, t, 0))
    ensures Solo(schedule, t)
  {
    var looking := Looking(p, t, |p.slots|);
    var blocked := Step(env, looking, t, TryLock).value;
    assert looking.calls[t := blocked.calls[t]][t := Taken(p, t, 0).calls[t]] == Taken(p, t, 0).calls;
    RunOne(env, looking, t, TryLock);
    RunOne(env, blocked, t, LockFirst);
    RunAppend(env, looking, [Move(t, TryLock)], [Move(t, LockFirst)]);
    schedule := [Move(t, TryLock)] + [Move(t, LockFirst)];
  }

  // Only call `t` moves.
  ghost predicate Solo(schedule: seq<Move>, t: nat) {
    forall m :: m in schedule ==> m.t == t
  }

  // Looking on from slot `k` past slots that refuse.
  lemma {:induction false} LookOn(env: Shared, p: Pool, t: nat, k: nat, to: nat) returns (schedule: seq<Move>)
    requires t < |p.calls| && k <= to <= |p.slots| && NoneTakeable(p, k, to)
    ensures Run(env, Looking(p, t, k), schedule) == Some(Looking(p, t, to))
    ensures Solo(schedule, t)
    decreases if k <= to then to - k else 0
  {
    hide Step;
    if k == to {
      schedule := [];
    } else {
      LookPasses(env, p, t, k);
      var rest := LookOn(env, p, t, k + 1, to);
      RunOne(env, Looking(p, t, k), t, TryLock);
      RunAppend(env, Looking(p, t, k), [Move(t, TryLock)], rest);
      schedule := [Move(t, TryLock)] + rest;
    }
  }

  // The slot that a call running alone ends up in: the first takeable one, or else
  // the first of all.
  ghost predicate Choice(p: Pool, i: nat) {
    && i < |p.slots| && p.slots[i].holder.None?
    && NoneTakeable(p, 0, i)
    && (Takeable(p, i) || (i == 0 && NoneTakeable(p, 0, |p.slots|)))
  }

  lemma {:induction false} FirstTakeable(p: Pool, from: nat) returns (i: nat)
    requires from <= |p.slots|
    ensures from <= i <= |p.slots| && NoneTakeable(p, from, i)
    ensures i < |p.slots| ==> Takeable(p, i)
    decreases |p.slots| - from
  {
    if from == |p.slots| || Takeable(p, from) {
      i := from;
    } else {
      i := FirstTakeable(p, from + 1);
    }
  }

  // A read that runs alone checks out the first free unpoisoned slot; when there is
  // none, the first slot, if that is free. Nothing else moves.
  lemma CheckoutTakesFirst(env: Shared, p: Pool, t: nat) returns (schedule: seq<Move>, i: nat)
    requires Eager(env, p, t) && p.slots != []
    requires p.slots[0].holder.None? || exists k :: Takeable(p, k)
    ensures Choice(p, i) && Run(env, p, schedule) == Some(Taken(p, t, i))
    ensures Solo(schedule, t)
  {
    hide Step;
    var first := FirstTakeable(p, 0);
    var passing := LookOn(env, p, t, 0, first);
    var last: seq<Move>;
    if first < |p.slots| {
      i := first;
      LookTakes(env, p, t, first);
      RunOne(env, Looking(p, t, first), t, TryLock);
      last := [Move(t, TryLock)];
    } else {
      i := 0;
      last := LookGivesUp(env, p, t);
    }
    EnterLooks(env, p, t);
    RunOne(env, p, t, Enter);
    RunAppend(env, Looking(p, t, 0), passing, last);
    RunAppend(env, p, [Move(t, Enter)], passing + last);
    schedule := [Move(t, Enter)] + (passing + last);
  }

  // ---- all slots at once ----

  ghost predicate AllHeld(p: Pool) {
    forall i :: 0 <= i < |p.slots| ==> p.slots[i].holder.Some?
  }

  ghost predicate LaterSlotsClean(p: Pool) {
    forall i :: 0 < i < |p.slots| ==> !p.slots[i].poisoned
  }

  // Distinct calls that start afresh and have something to read.
  ghost predicate Crew(env: Shared, p: Pool, crew: seq<nat>) {
    && (forall k :: 0 <= k < |crew| ==> Eager(env, p, crew[k]))
    && (forall j, k :: 0 <= j < k < |crew| ==> crew[j] != crew[k])
  }

  // The slots that can still be entered.
  ghost function Usable(p: Pool): set<nat> {
    set i: nat | i < |p.slots| && (i == 0 || !p.slots[i].poisoned)
  }

  ghost function FreeUsable(p: Pool): set<nat> {
    set i | i in Usable(p) && p.slots[i].holder.None?
  }

  // Whoever holds a slot has only just entered it.
  ghost predicate AllSeeking(p: Pool) {
    forall i :: 0 <= i < |p.slots| && p.slots[i].holder.Some? ==> SeeksIn(p, p.slots[i].holder.value, i)
  }

  ghost predicate SeeksIn(p: Pool, t: nat, i: nat) {
    t < |p.calls| && p.calls[t].phase == Seeking(i)
  }

  // While a usable slot is free, the next call of the crew takes one, and the others
  // are left as they were.
  lemma NextTakes(env: Shared, p: Pool, crew: seq<nat>) returns (schedule: seq<Move>, q: Pool)
    requires crew != [] && Crew(env, p, crew) && FreeUsable(p) != {} && AllSeeking(p)
    ensures Run(env, p, schedule) == Some(q)
    ensures |q.slots| == |p.slots| && Usable(q) == Usable(p) && Crew(env, q, crew[1..]) && AllSeeking(q)
    ensures |FreeUsable(q)| == |FreeUsable(p)| - 1
  {
    hide Run;
    var free :| free in FreeUsable(p);
    assert free > 0 ==> Takeable(p, free);
    assert Eager(env, p, crew[0]);
    var i;
    schedule, i := CheckoutTakesFirst(env, p, crew[0]);
    q := Taken(p, crew[0], i);
    assert FreeUsable(q) == FreeUsable(p) - {i} && i in FreeUsable(p);
    forall k | 0 <= k < |crew[1..]| ensures Eager(env, q, crew[1..][k]) {
      assert Eager(env, p, crew[k + 1]) && crew[0] != crew[k + 1];
    }
    forall j | 0 <= j < |q.slots| && q.slots[j].holder.Some? ensures SeeksIn(q, q.slots[j].holder.value, j) {
      if j != i {
        assert SeeksIn(p, p.slots[j].holder.value, j);
      }
    }
  }

  // A crew that is large enough fills every usable slot, and whoever is left over
  // is as fresh as before.
  lemma {:induction false} CrewFillsUsable(env: Shared, p: Pool, crew: seq<nat>)
    returns (schedule: seq<Move>, q: Pool)
    requires Crew(env, p, crew) && |crew| >= |FreeUsable(p)| && AllSeeking(p)
    ensures Run(env, p, schedule) == Some(q)
    ensures |q.slots| == |p.slots| && Usable(q) == Usable(p) && FreeUsable(q) == {} && AllSeeking(q)
    ensures Crew(env, q, crew[|FreeUsable(p)|..])
    decreases |crew|
  {
    hide Step, Crew, FreeUsable, Usable, AllSeeking;
    if |FreeUsable(p)| == 0 {
      schedule, q := [], p;
      assert crew[0..] == crew;
    } else {
      var first, mid := NextTakes(env, p, crew);
      var rest;
      rest, q := CrewFillsUsable(env, mid, crew[1..]);
      RunAppend(env, p, first, rest);
      schedule := first + rest;
      assert crew[1..][|FreeUsable(mid)|..] == crew[|FreeUsable(p)|..];
    }
  }

  lemma NothingFreeIsAllHeld(p: Pool)
    requires forall i :: 0 <= i < |p.slots| ==> i in Usable(p)
    requires FreeUsable(p) == {}
    ensures AllHeld(p)
  {
    forall i | 0 <= i < |p.slots| ensures p.slots[i].holder.Some? {
      assert i in Usable(p);
      assert i !in FreeUsable(p);
    }
  }

  lemma {:induction false} RunKeepsShape(env: Shared, p: Pool, schedule: seq<Move>)
    requires Run(env, p, schedule).Some?
    ensures var q := Run(env, p, schedule).value;
            && |q.slots| == |p.slots| && |q.calls| == |p.calls|
            && forall t :: 0 <= t < |p.calls| ==> q.calls[t].offset == p.calls[t].offset
    decreases |schedule|
  {
    hide Step;
    if schedule != [] {
      StepKeepsShape(env, p, schedule[0].t, schedule[0].action);
      RunKeepsShape(env, Step(env, p, schedule[0].t, schedule[0].action).value, schedule[1..]);
    }
  }

  // Whoever holds the slots at one moment is a crew.
  lemma HoldersAreCrew(env: Shared, p: Pool, schedule: seq<Move>) returns (crew: seq<nat>)
    requires Initial(p) && p.slots != [] && Run(env, p, schedule).Some? && AllHeld(Run(env, p, schedule).value)
    ensures |crew| == |p.slots| && Crew(env, p, crew)
  {
    hide Step, Run, Initial;
    var q := Run(env, p, schedule).value;
    InitialInv(env, p);
    RunKeepsInv(env, p, schedule);
    RunKeepsShape(env, p, schedule);
    crew := seq(|q.slots|, i requires 0 <= i < |q.slots| => q.slots[i].holder.value);
    forall k | 0 <= k < |crew| ensures Eager(env, p, crew[k]) {
      assert q.calls[crew[k]].Holds(k) && Faithful(env, q, q.calls[crew[k]]);
      InitialIsReady(p, crew[k]);
    }
    forall j, k | 0 <= j < k < |crew| ensures crew[j] != crew[k] {
      assert q.calls[crew[j]].Holds(j) && q.calls[crew[k]].Holds(k);
    }
  }

  lemma InitialIsReady(p: Pool, t: nat)
    requires Initial(p) && t < |p.calls|
    ensures p.calls[t].phase.Ready?
  {
  }

  lemma InitialIsFree(p: Pool)
    requires Initial(p)
    ensures FreeUsable(p) == Usable(p) && AllSeeking(p)
    ensures forall i :: 0 <= i < |p.slots| ==> p.slots[i].holder.None?
  {
  }

  lemma CleanIsAllUsable(p: Pool)
    requires LaterSlotsClean(p)
    ensures Usable(p) == Below(|p.slots|)
  {
  }

  ghost function Below(n: nat): (r: set<nat>)
    ensures |r| == n && forall i :: i in r <==> 0 <= i < n
  {
    if n == 0 then {} else Below(n - 1) + {n - 1}
  }

  // From a fresh pool all slots can be busy at once exactly when no slot but the
  // first is poisoned and there are as many reads with something to read.
  lemma PoolScalesExactlyWhen(env: Shared, p: Pool)
    requires Initial(p) && p.slots != []
    ensures (exists schedule :: Run(env, p, schedule).Some? && AllHeld(Run(env, p, schedule).value))
            <==> LaterSlotsClean(p) && exists crew :: |crew| == |p.slots| && Crew(env, p, crew)
  {
    hide Step, Crew, Usable, FreeUsable, AllSeeking;
    InitialIsFree(p);
    if schedule :| Run(env, p, schedule).Some? && AllHeld(Run(env, p, schedule).value) {
      var crew := HoldersAreCrew(env, p, schedule);
      forall i | 0 < i < |p.slots| ensures !p.slots[i].poisoned {
        InitialInv(env, p);
        RunKeepsShape(env, p, schedule);
        if p.slots[i].poisoned {
          AbandonedForever(env, p, schedule, i);
        }
      }
    }
    if crew :| LaterSlotsClean(p) && |crew| == |p.slots| && Crew(env, p, crew) {
      CleanIsAllUsable(p);
      var schedule, q := CrewFillsUsable(env, p, crew);
      NothingFreeIsAllHeld(q);
    }
  }

  // ---- how many reads at most ----

  // The calls that are inside some slot.
  ghost function Inside(p: Pool): set<nat> {
    set t: nat | t < |p.calls| && (p.calls[t].phase.Seeking? || p.calls[t].phase.Filling?)
  }

  ghost predicate HeldAreUsable(p: Pool) {
    forall i :: 0 <= i < |p.slots| && p.slots[i].holder.Some? ==> i == 0 || !p.slots[i].poisoned
  }

  lemma StepKeepsUsable(env: Shared, p: Pool, t: nat, action: Action)
    requires t < |p.calls| && HeldAreUsable(p) && Step(env, p, t, action).Some?
    ensures HeldAreUsable(Step(env, p, t, action).value)
    ensures Usable(Step(env, p, t, action).value) <= Usable(p)
  {
  }

  lemma {:induction false} RunKeepsUsable(env: Shared, p: Pool, schedule: seq<Move>)
    requires HeldAreUsable(p) && Run(env, p, schedule).Some?
    ensures HeldAreUsable(Run(env, p, schedule).value)
    ensures Usable(Run(env, p, schedule).value) <= Usable(p)
    decreases |schedule|
  {
    hide Step, HeldAreUsable, Usable;
    if schedule != [] {
      StepKeepsUsable(env, p, schedule[0].t, schedule[0].action);
      RunKeepsUsable(env, Step(env, p, schedule[0].t, schedule[0].action).value, schedule[1..]);
    }
  }

  // Calls in different slots are no more than the slots.
  lemma {:induction false} HoldersCount(p: Pool, calls: set<nat>, slots: set<nat>)
    requires Exclusive(p) && calls <= Inside(p)
    requires forall t :: t in calls ==> p.calls[t].phase.slot in slots
    ensures |calls| <= |slots|
    decreases calls
  {
    hide Exclusive;
    if calls != {} {
      var t :| t in calls;
      var others := calls - {t};
      forall u | u in others ensures p.calls[u].phase.slot in slots - {p.calls[t].phase.slot} {
        DifferentSlots(p, t, u);
      }
      HoldersCount(p, others, slots - {p.calls[t].phase.slot});
    }
  }

  lemma DifferentSlots(p: Pool, t: nat, u: nat)
    requires Exclusive(p) && t in Inside(p) && u in Inside(p) && t != u
    ensures p.calls[t].phase.slot != p.calls[u].phase.slot
  {
    assert HoldsItsSlot(p, t) && HoldsItsSlot(p, u);
  }

  lemma {:induction false} SubsetCount(part: set<nat>, whole: set<nat>)
    requires part <= whole
    ensures |part| <= |whole|
  {
    if part != {} {
      var x :| x in part;
      SubsetCount(part - {x}, whole - {x});
    }
  }

  // In every run, at every moment, the reads inside number at most the slots that
  // are first or unpoisoned, and those only ever become fewer.
  lemma InsideIsBounded(env: Shared, p: Pool, schedule: seq<Move>)
    requires Initial(p) && p.slots != [] && Run(env, p, schedule).Some?
    ensures |Inside(Run(env, p, schedule).value)| <= |Usable(Run(env, p, schedule).value)| <= |Usable(p)|
  {
    hide Step, Run;
    var q := Run(env, p, schedule).value;
    InitialInv(env, p);
    RunKeepsInv(env, p, schedule);
    assert HeldAreUsable(p);
    RunKeepsUsable(env, p, schedule);
    forall t | t in Inside(q) ensures q.calls[t].phase.slot in Usable(q) {
      assert HoldsItsSlot(q, t);
    }
    HoldersCount(q, Inside(q), Usable(q));
    SubsetCount(Usable(q), Usable(p));
  }

  // ---- a small pool ----

  // Three reads of one byte over two clean readers.
  const ONE_BYTE: Shared := Shared([7], 1)
  const FRESH: Call := Call(0, 1, Ready, [])
  const CLEAN_POOL: Pool := Pool([Slot(None, false, 0), Slot(None, false, 0)], [FRESH, FRESH, FRESH])

  // Calls 0 and 1 sit in slots 0 and 1; call 2 stands where `third` says.
  ghost predicate Crowded(p: Pool, third: Phase) {
    && p.slots == [Slot(Some(0), false, 0), Slot(Some(1), false, 0)]
    && p.calls == [FRESH.(phase := Seeking(0)), FRESH.(phase := Seeking(1)), FRESH.(phase := third)]
  }

  lemma BothSlotsTaken() returns (schedule: seq<Move>, p: Pool)
    ensures Run(ONE_BYTE, CLEAN_POOL, schedule) == Some(p) && Crowded(p, Ready)
  {
    hide Run, Step;
    var first, i := CheckoutTakesFirst(ONE_BYTE, CLEAN_POOL, 0);
    assert Takeable(CLEAN_POOL, 0);
    p := Taken(CLEAN_POOL, 0, 0);
    assert Takeable(p, 1) && !Takeable(p, 0);
    var second, j := CheckoutTakesFirst(ONE_BYTE, p, 1);
    p := Taken(p, 1, 1);
    RunAppend(ONE_BYTE, CLEAN_POOL, first, second);
    schedule := first + second;
  }
}
