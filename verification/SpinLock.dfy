/** The spinlock of the dual-core demo, for any number of harts: every load-reserved and every
    store-conditional is a step of its own, and harts interleave freely. */
module SpinLock {

  /** The lock word while the lock is held: -1. */
  const LOCKED: nat := 0xFFFF_FFFF

  /** Where a hart is. Between calls it is `Outside` or, having the lock, `Inside`. */
  datatype Pc = Outside | LockLoad | LockStore | Inside | UnlockLoad | UnlockStore

  /** The shared word, and per hart its place and whether it holds a valid reservation on the word. */
  datatype State = State(lock: nat, pc: seq<Pc>, reserved: seq<bool>)

  /** What a hart does next, with what `spin_check` returns. The result of a store-conditional, and losing a reservation,
      are up to the hardware. */
  datatype Step =
    | CallLock | LoadForLock | StoreForLock(success: bool)
    | CallUnlock | LoadForUnlock | StoreForUnlock(success: bool)
    | Check(locked: bool) | LoseReservation

  predicate Holds(pc: Pc) {
    pc == Inside || pc == UnlockLoad || pc == UnlockStore
  }

  ghost predicate Init(s: State) {
    && s.lock == 0 && |s.reserved| == |s.pc|
    && (forall h :: 0 <= h < |s.pc| ==> s.pc[h] == Outside)
    && (forall h :: 0 <= h < |s.pc| ==> !s.reserved[h])
  }

  /** Load-reserved: the hart gets a reservation. */
  function LoadReserved(s: State, h: nat, next: Pc): State
    requires h < |s.pc| == |s.reserved|
  {
    s.(pc := s.pc[h := next], reserved := s.reserved[h := true])
  }

  /** A store-conditional that succeeds writes the word and ends every reservation on it. */
  function StoreSuccess(s: State, h: nat, value: nat, next: Pc): State
    requires h < |s.pc| == |s.reserved|
  {
    State(value, s.pc[h := next], seq(|s.pc|, _ => false))
  }

  /** A store-conditional that fails writes nothing; the hart's own reservation is gone. */
  function StoreFailure(s: State, h: nat, next: Pc): State
    requires h < |s.pc| == |s.reserved|
  {
    s.(pc := s.pc[h := next], reserved := s.reserved[h := false])
  }

  /** Hart `h` may take this step. A store-conditional succeeds only under a valid reservation, but may fail at any time. */
  predicate Enabled(s: State, h: nat, step: Step) {
    && h < |s.pc| == |s.reserved|
    && match step
       case CallLock => s.pc[h] == Outside
       case LoadForLock => s.pc[h] == LockLoad
       case StoreForLock(success) => s.pc[h] == LockStore && (success ==> s.reserved[h])
       case CallUnlock => s.pc[h] == Inside
       case LoadForUnlock => s.pc[h] == UnlockLoad
       case StoreForUnlock(success) => s.pc[h] == UnlockStore && (success ==> s.reserved[h])
       case Check(locked) => (s.pc[h] == Outside || s.pc[h] == Inside) && (locked <==> s.lock != 0)
       case LoseReservation => s.reserved[h]
  }

  /** The state after the step. */
  function After(s: State, h: nat, step: Step): State
    requires Enabled(s, h, step)
  {
    match step
    case CallLock => s.(pc := s.pc[h := LockLoad])
    // compare-and-swap: go on to the store only if the word read is 0, else start over
    case LoadForLock => LoadReserved(s, h, if s.lock == 0 then LockStore else LockLoad)
    case StoreForLock(success) => if success then StoreSuccess(s, h, LOCKED, Inside) else StoreFailure(s, h, LockLoad)
    case CallUnlock => s.(pc := s.pc[h := UnlockLoad])
    case LoadForUnlock => LoadReserved(s, h, UnlockStore)
    case StoreForUnlock(success) => if success then StoreSuccess(s, h, 0, Outside) else StoreFailure(s, h, UnlockLoad)
    case Check(_) => LoadReserved(s, h, s.pc[h])
    case LoseReservation => s.(reserved := s.reserved[h := false])
  }

  /** A run: the states it goes through and the steps between them. */
  datatype Run = Run(states: seq<State>, harts: seq<nat>, steps: seq<Step>)

  ghost predicate IsRun(r: Run) {
    && |r.states| == |r.steps| + 1 && |r.harts| == |r.steps| && Init(r.states[0])
    && forall i :: 0 <= i < |r.steps| ==>
         Enabled(r.states[i], r.harts[i], r.steps[i]) && r.states[i + 1] == After(r.states[i], r.harts[i], r.steps[i])
  }

  // ---- The invariant ---------------------------------------------------------------------

  /** At most one hart is between acquiring and releasing the lock. */
  ghost predicate Exclusive(s: State) {
    forall g, h :: 0 <= g < |s.pc| && 0 <= h < |s.pc| && Holds(s.pc[g]) && Holds(s.pc[h]) ==> g == h
  }

  ghost predicate SomeoneHolds(s: State) {
    exists h :: 0 <= h < |s.pc| && Holds(s.pc[h])
  }

  ghost predicate Inv(s: State) {
    && |s.reserved| == |s.pc|
    && (s.lock == 0 || s.lock == LOCKED)
    && Exclusive(s)
    && (s.lock != 0 <==> SomeoneHolds(s))
    // a hart about to take the lock under a valid reservation has not missed anyone taking it
    && (forall h :: 0 <= h < |s.pc| && s.pc[h] == LockStore && s.reserved[h] ==> s.lock == 0)
  }

  lemma StepKeepsInv(s: State, h: nat, step: Step)
    requires Inv(s) && Enabled(s, h, step)
    ensures Inv(After(s, h, step))
  {
    var t := After(s, h, step);
    forall g | 0 <= g < |t.pc|
      ensures g != h ==> t.pc[g] == s.pc[g]
    {
    }
    OwnerStep(s, h, step);
  }

  // ---- The lock a reader has in mind -----------------------------------------------------

  /** Who has the lock: a hart, or nobody. */
  datatype Owner = Nobody | Hart(h: nat)

  ghost function OwnerOf(s: State): Owner {
    if SomeoneHolds(s) then var h: nat :| h < |s.pc| && Holds(s.pc[h]); Hart(h) else Nobody
  }

  lemma OwnerIs(s: State, h: nat)
    requires Exclusive(s) && h < |s.pc| && Holds(s.pc[h])
    ensures OwnerOf(s) == Hart(h)
  {
  }

  /** Taking the lock turns nobody into the hart, releasing it turns the hart into nobody, all else leaves the owner. */
  function AbstractStep(owner: Owner, h: nat, step: Step): Owner {
    match step
    case StoreForLock(true) => Hart(h)
    case StoreForUnlock(true) => Nobody
    case _ => owner
  }

  /** The lock can only be taken when free and only be released by its owner, and no step changes the owner otherwise. */
  lemma Refines(s: State, h: nat, step: Step)
    requires Inv(s) && Enabled(s, h, step)
    ensures OwnerOf(After(s, h, step)) == AbstractStep(OwnerOf(s), h, step)
    ensures step == StoreForLock(true) ==> OwnerOf(s) == Nobody
    ensures step == StoreForUnlock(true) ==> OwnerOf(s) == Hart(h)
  {
    OwnerStep(s, h, step);
    if step == StoreForLock(true) {
      OwnerIs(After(s, h, step), h);
    } else if step == StoreForUnlock(true) {
      OwnerIs(s, h);
    } else {
      SameHolders(s, After(s, h, step));
    }
  }

  lemma SameHolders(s: State, t: State)
    requires Exclusive(s) && Exclusive(t) && |s.pc| == |t.pc|
    requires forall g :: 0 <= g < |s.pc| ==> (Holds(t.pc[g]) <==> Holds(s.pc[g]))
    ensures OwnerOf(t) == OwnerOf(s)
  {
    if g: nat :| g < |s.pc| && Holds(s.pc[g]) {
      OwnerIs(s, g);
      OwnerIs(t, g);
    }
  }

  /** Holding changes only for the hart that stores successfully. */
  lemma OwnerStep(s: State, h: nat, step: Step)
    requires Inv(s) && Enabled(s, h, step)
    ensures var t := After(s, h, step);
      && |t.pc| == |s.pc| == |t.reserved|
      && (forall g :: 0 <= g < |s.pc| && g != h ==> t.pc[g] == s.pc[g])
      && (Holds(t.pc[h]) <==> step == StoreForLock(true) || (Holds(s.pc[h]) && step != StoreForUnlock(true)))
      && Exclusive(t) && (t.lock != 0 <==> SomeoneHolds(t))
  {
    var t := After(s, h, step);
    if step == StoreForLock(true) {
      assert !SomeoneHolds(s);
      assert Holds(t.pc[h]);
    } else if step == StoreForUnlock(true) {
      assert Holds(s.pc[h]);
    } else {
      forall g | 0 <= g < |s.pc|
        ensures Holds(t.pc[g]) <==> Holds(s.pc[g])
      {
      }
    }
  }

  // ---- Whole runs ------------------------------------------------------------------------

  lemma {:induction false} RunKeepsInv(r: Run, i: nat)
    requires IsRun(r) && i < |r.states|
    ensures Inv(r.states[i])
  {
    if i > 0 {
      RunKeepsInv(r, i - 1);
      StepKeepsInv(r.states[i - 1], r.harts[i - 1], r.steps[i - 1]);
    }
  }

  /** In every state of every run, at most one hart has the lock, and the word is non-zero exactly while one has. */
  lemma MutualExclusion(r: Run)
    requires IsRun(r)
    ensures forall i :: 0 <= i < |r.states| ==> Exclusive(r.states[i]) && (r.states[i].lock != 0 <==> SomeoneHolds(r.states[i]))
  {
    forall i | 0 <= i < |r.states|
      ensures Exclusive(r.states[i]) && (r.states[i].lock != 0 <==> SomeoneHolds(r.states[i]))
    {
      RunKeepsInv(r, i);
    }
  }

  /** Whoever checks, at any point of any run, is told "locked" exactly if some hart has the lock; its owner always is. */
  lemma CheckTells(r: Run, i: nat)
    requires IsRun(r) && i < |r.steps| && r.steps[i].Check?
    ensures r.steps[i].locked <==> SomeoneHolds(r.states[i])
    ensures Holds(r.states[i].pc[r.harts[i]]) ==> r.steps[i].locked
    ensures OwnerOf(r.states[i + 1]) == OwnerOf(r.states[i]) && r.states[i + 1].pc == r.states[i].pc
  {
    RunKeepsInv(r, i);
    Refines(r.states[i], r.harts[i], r.steps[i]);
  }

  /** What a run does to the owner is what its successful stores say, in their order. */
  ghost function AbstractRun(r: Run, i: nat): Owner
    requires |r.harts| == |r.steps| && i <= |r.steps|
  {
    if i == 0 then Nobody else AbstractStep(AbstractRun(r, i - 1), r.harts[i - 1], r.steps[i - 1])
  }

  lemma {:induction false} RunRefines(r: Run, i: nat)
    requires IsRun(r) && i < |r.states|
    ensures OwnerOf(r.states[i]) == AbstractRun(r, i)
  {
    if i > 0 {
      RunRefines(r, i - 1);
      RunKeepsInv(r, i - 1);
      Refines(r.states[i - 1], r.harts[i - 1], r.steps[i - 1]);
    }
  }

  // ---- A call returns only when its work is done -----------------------------------------

  /** The hart is within `spin_lock`, or within `spin_unlock`. */
  predicate Acquiring(pc: Pc) {
    pc == LockLoad || pc == LockStore
  }

  predicate Releasing(pc: Pc) {
    pc == UnlockLoad || pc == UnlockStore
  }

  /** Between the states `i` and `j` of the run, a successful store of the hart takes it to where the call ends. */
  ghost predicate Returns(r: Run, h: nat, step: Step, end: Pc, i: nat, j: nat)
    requires |r.harts| == |r.steps| && |r.states| == |r.steps| + 1
  {
    exists k :: i <= k < j && k < |r.steps| && r.harts[k] == h && r.steps[k] == step
             && h < |r.states[k + 1].pc| && r.states[k + 1].pc[h] == end
  }

  /** One step: a hart within a call stays there, unless it is its own successful store, which ends the call. */
  lemma CallGoesOn(s: State, g: nat, step: Step, h: nat)
    requires Enabled(s, g, step) && h < |s.pc|
    ensures var t := After(s, g, step);
      && |t.pc| == |s.pc| && (step != StoreForLock(true) && step != StoreForUnlock(true) ==> t.lock == s.lock)
      && (Releasing(s.pc[h]) ==> if g == h && step == StoreForUnlock(true) then t.pc[h] == Outside && t.lock == 0 else Releasing(t.pc[h]))
      && (Acquiring(s.pc[h]) ==> if g == h && step == StoreForLock(true) then t.pc[h] == Inside && t.lock == LOCKED else Acquiring(t.pc[h]))
      && (s.pc[h] == Inside ==> t.pc[h] == if g == h && step == CallUnlock then UnlockLoad else Inside)
      && (s.pc[h] == Outside ==> t.pc[h] == if g == h && step == CallLock then LockLoad else Outside)
  {
  }

  /** In every run, a hart that is releasing the lock does so until a store of its own has succeeded. */
  lemma {:induction false} UnlockReturnsWhenDone(r: Run, h: nat, i: nat, j: nat)
    requires IsRun(r) && i <= j < |r.states| && h < |r.states[i].pc| && Releasing(r.states[i].pc[h])
    ensures |r.states[j].pc| == |r.states[i].pc|
    ensures Returns(r, h, StoreForUnlock(true), Outside, i, j) || Releasing(r.states[j].pc[h])
  {
    if i < j {
      UnlockReturnsWhenDone(r, h, i, j - 1);
      CallGoesOn(r.states[j - 1], r.harts[j - 1], r.steps[j - 1], h);
    }
  }

  /** In every run, a hart that is trying for the lock does so until a store of its own has succeeded. */
  lemma {:induction false} LockReturnsWhenDone(r: Run, h: nat, i: nat, j: nat)
    requires IsRun(r) && i <= j < |r.states| && h < |r.states[i].pc| && Acquiring(r.states[i].pc[h])
    ensures |r.states[j].pc| == |r.states[i].pc|
    ensures Returns(r, h, StoreForLock(true), Inside, i, j) || Acquiring(r.states[j].pc[h])
  {
    if i < j {
      LockReturnsWhenDone(r, h, i, j - 1);
      CallGoesOn(r.states[j - 1], r.harts[j - 1], r.steps[j - 1], h);
    }
  }

  /** Whether the hart, trying for the lock or releasing it, can bring the call to its end by its own two steps. */
  ghost predicate CanLock(s: State, h: nat) {
    && Enabled(s, h, LoadForLock) && Enabled(After(s, h, LoadForLock), h, StoreForLock(true))
    && OwnerOf(After(After(s, h, LoadForLock), h, StoreForLock(true))) == Hart(h)
  }

  ghost predicate CanUnlock(s: State, h: nat) {
    && Enabled(s, h, LoadForUnlock) && Enabled(After(s, h, LoadForUnlock), h, StoreForUnlock(true))
    && OwnerOf(After(After(s, h, LoadForUnlock), h, StoreForUnlock(true))) == Nobody
    && After(After(s, h, LoadForUnlock), h, StoreForUnlock(true)).lock == 0
  }

  /** No deadlock: while the lock is free any hart trying for it can get it by its own two steps, and the hart releasing
      it can always do so by its own two steps; after a failed store the same two steps can follow. */
  lemma CanProceed(s: State, h: nat)
    requires Inv(s) && h < |s.pc|
    ensures s.pc[h] == LockLoad && s.lock == 0 ==> CanLock(s, h)
    ensures s.pc[h] == LockStore && s.lock == 0 ==> Enabled(s, h, StoreForLock(false)) && CanLock(After(s, h, StoreForLock(false)), h)
    ensures s.pc[h] == UnlockLoad ==> CanUnlock(s, h)
    ensures s.pc[h] == UnlockStore ==> Enabled(s, h, StoreForUnlock(false)) && CanUnlock(After(s, h, StoreForUnlock(false)), h)
  {
    if s.pc[h] == LockStore && s.lock == 0 {
      StepKeepsInv(s, h, StoreForLock(false));
      LockInTwo(After(s, h, StoreForLock(false)), h);
    }
    if s.pc[h] == LockLoad && s.lock == 0 { LockInTwo(s, h); }
    if s.pc[h] == UnlockStore {
      StepKeepsInv(s, h, StoreForUnlock(false));
      UnlockInTwo(After(s, h, StoreForUnlock(false)), h);
    }
    if s.pc[h] == UnlockLoad { UnlockInTwo(s, h); }
  }

  lemma LockInTwo(s: State, h: nat)
    requires Inv(s) && h < |s.pc| && s.pc[h] == LockLoad && s.lock == 0
    ensures CanLock(s, h)
  {
    StepKeepsInv(s, h, LoadForLock);
    Refines(After(s, h, LoadForLock), h, StoreForLock(true));
  }

  lemma UnlockInTwo(s: State, h: nat)
    requires Inv(s) && h < |s.pc| && s.pc[h] == UnlockLoad
    ensures CanUnlock(s, h)
  {
    StepKeepsInv(s, h, LoadForUnlock);
    Refines(After(s, h, LoadForUnlock), h, StoreForUnlock(true));
  }
}
