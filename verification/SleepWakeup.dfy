/** sleep and wakeup of proc.c, interleaved lock step by lock step, for any number of
    processes, channels and locks.

    A process tests its channel's condition while holding the channel's lock and
    calls sleep if it is false; another makes it true under the same lock and then
    calls wakeup. One step below is one acquire, one release, or one change made
    while holding a lock; acquire waits until the lock is free. */
module SleepWakeup {

  type Pid = nat
  type Chan = nat
  type Lock = nat

  const PTABLE: Lock := 0   // &ptable.lock

  datatype Pc =
    | Outside              // holds nothing
    | Inside(c: Chan)      // holds c's lock
    | Tested(c: Chan)      // found the condition false and called sleep
    | Both(c: Chan)        // sleep: also holds ptable.lock
    | Committed(c: Chan)   // sleep: has released c's lock
    | Asleep(c: Chan)      // SLEEPING; the scheduler has let go of ptable.lock
    | Runnable(c: Chan)    // woken, not yet running
    | Resumed(c: Chan)     // running again, holds ptable.lock
    | Returning(c: Chan)   // sleep: has released ptable.lock, wants c's lock
    | Changed(c: Chan)     // made the condition true, still holds c's lock
    | Changed'(c: Chan)    // made the condition true and released c's lock
    | Waking(c: Chan)      // wakeup: holds c's lock and ptable.lock
    | Waking'(c: Chan)     // wakeup: holds ptable.lock only

  /** lockOf[c] is the lock protecting channel c's condition; `holder` the owner of
      each held lock; `ready` the channels whose condition is true. */
  datatype State = State(lockOf: map<Chan, Lock>, pc: map<Pid, Pc>, holder: map<Lock, Pid>, ready: set<Chan>)

  function PcOf(s: State, p: Pid): Pc { if p in s.pc then s.pc[p] else Outside }

  function LockOf(s: State, c: Chan): Lock { if c in s.lockOf then s.lockOf[c] else PTABLE }

  predicate Holds(s: State, p: Pid, l: Lock) {
    match PcOf(s, p)
    case Outside | Asleep(_) | Runnable(_) | Returning(_) | Changed'(_) => false
    case Inside(c) => l == LockOf(s, c)
    case Tested(c) => l == LockOf(s, c)
    case Changed(c) => l == LockOf(s, c)
    case Both(c) => l == LockOf(s, c) || l == PTABLE
    case Waking(c) => l == LockOf(s, c) || l == PTABLE
    case Committed(_) | Resumed(_) | Waking'(_) => l == PTABLE
  }

  datatype Step =
    | Acquire(p: Pid, c: Chan)       // take c's lock
    | Release(p: Pid)                // leave the critical section
    | MakeTrue(p: Pid)
    | MakeFalse(p: Pid)
    | Test(p: Pid)                   // the condition is false: call sleep
    | SleepAcquire(p: Pid)           // acquire(&ptable.lock)
    | SleepRelease(p: Pid)           // release(lk)
    | GoToSleep(p: Pid)              // state = SLEEPING; sched()
    | Schedule(p: Pid)               // scheduler(): acquire(&ptable.lock), run p
    | SleepReturn(p: Pid)            // chan = 0; release(&ptable.lock) unless it is lk
    | ChangedRelease(p: Pid)         // release the lock before calling wakeup
    | WakeupAcquire(p: Pid)          // wakeup: acquire(&ptable.lock)
    | Wakeup1(p: Pid)                // all sleepers on c become RUNNABLE
    | Kill(p: Pid, q: Pid)           // kill: a sleeper becomes RUNNABLE

  predicate Free(s: State, l: Lock) { l !in s.holder }

  predicate Enabled(s: State, step: Step) {
    match step
    case Acquire(p, c) =>
      Free(s, LockOf(s, c)) && (PcOf(s, p).Outside? || PcOf(s, p) == Returning(c))
    case Release(p) => PcOf(s, p).Inside?
    case MakeTrue(p) => PcOf(s, p).Inside?
    case MakeFalse(p) => PcOf(s, p).Inside?
    case Test(p) => PcOf(s, p).Inside? && PcOf(s, p).c !in s.ready
    case SleepAcquire(p) => PcOf(s, p).Tested? && LockOf(s, PcOf(s, p).c) != PTABLE && Free(s, PTABLE)
    case SleepRelease(p) => PcOf(s, p).Both?
    case GoToSleep(p) => PcOf(s, p).Committed? || (PcOf(s, p).Tested? && LockOf(s, PcOf(s, p).c) == PTABLE)
    case Schedule(p) => PcOf(s, p).Runnable? && Free(s, PTABLE)
    case SleepReturn(p) => PcOf(s, p).Resumed?
    case ChangedRelease(p) => PcOf(s, p).Changed?
    case WakeupAcquire(p) =>
      Free(s, PTABLE) && ((PcOf(s, p).Changed? && LockOf(s, PcOf(s, p).c) != PTABLE) || PcOf(s, p).Changed'?)
    case Wakeup1(p) =>
      PcOf(s, p).Waking? || PcOf(s, p).Waking'? || (PcOf(s, p).Changed? && LockOf(s, PcOf(s, p).c) == PTABLE)
    case Kill(p, q) => PcOf(s, p).Outside? && Free(s, PTABLE) && PcOf(s, q).Asleep?
  }

  function Set(s: State, p: Pid, pc: Pc): State { s.(pc := s.pc[p := pc]) }

  /** wakeup1(c) */
  function WakeAll(pc: map<Pid, Pc>, c: Chan): map<Pid, Pc> {
    map p | p in pc :: if pc[p] == Asleep(c) then Runnable(c) else pc[p]
  }

  function Next(s: State, step: Step): (t: State)
    requires Enabled(s, step)
  {
    match step
    case Acquire(p, c) => Set(s, p, Inside(c)).(holder := s.holder[LockOf(s, c) := p])
    case Release(p) => Set(s, p, Outside).(holder := s.holder - {LockOf(s, PcOf(s, p).c)})
    case MakeTrue(p) => Set(s, p, Changed(PcOf(s, p).c)).(ready := s.ready + {PcOf(s, p).c})
    case MakeFalse(p) => s.(ready := s.ready - {PcOf(s, p).c})
    case Test(p) => Set(s, p, Tested(PcOf(s, p).c))
    case SleepAcquire(p) => Set(s, p, Both(PcOf(s, p).c)).(holder := s.holder[PTABLE := p])
    case SleepRelease(p) => Set(s, p, Committed(PcOf(s, p).c)).(holder := s.holder - {LockOf(s, PcOf(s, p).c)})
    case GoToSleep(p) => Set(s, p, Asleep(PcOf(s, p).c)).(holder := s.holder - {PTABLE})
    case Schedule(p) => Set(s, p, Resumed(PcOf(s, p).c)).(holder := s.holder[PTABLE := p])
    case SleepReturn(p) =>
      var c := PcOf(s, p).c;
      if LockOf(s, c) == PTABLE then Set(s, p, Inside(c))
      else Set(s, p, Returning(c)).(holder := s.holder - {PTABLE})
    case ChangedRelease(p) => Set(s, p, Changed'(PcOf(s, p).c)).(holder := s.holder - {LockOf(s, PcOf(s, p).c)})
    case WakeupAcquire(p) =>
      var c := PcOf(s, p).c;
      Set(s, p, if PcOf(s, p).Changed? then Waking(c) else Waking'(c)).(holder := s.holder[PTABLE := p])
    case Wakeup1(p) =>
      var c := PcOf(s, p).c;
      var t := s.(pc := WakeAll(s.pc, c));
      if PcOf(s, p).Changed? then Set(t, p, Inside(c))
      else if PcOf(s, p).Waking? then Set(t, p, Inside(c)).(holder := s.holder - {PTABLE})
      else Set(t, p, Outside).(holder := s.holder - {PTABLE})
    case Kill(p, q) => Set(s, q, Runnable(PcOf(s, q).c))
  }

  /** A process that has made c's condition true and not yet finished its wakeup. */
  predicate Owes(s: State, w: Pid, c: Chan) {
    var pc := PcOf(s, w);
    pc == Changed(c) || pc == Changed'(c) || pc == Waking(c) || pc == Waking'(c)
  }

  ghost predicate SomeoneOwes(s: State, c: Chan) { exists w :: Owes(s, w, c) }

  /** Between its test and its sleep. */
  predicate Deciding(s: State, p: Pid, c: Chan) { PcOf(s, p) == Tested(c) || PcOf(s, p) == Both(c) }

  predicate Exposed(s: State, p: Pid, c: Chan) { PcOf(s, p) == Committed(c) || PcOf(s, p) == Asleep(c) }

  /** Locks exclude. */
  ghost predicate Exclusion(s: State) {
    && (forall p, l :: Holds(s, p, l) ==> l in s.holder && s.holder[l] == p)
    && (forall l :: l in s.holder ==> Holds(s, s.holder[l], l))
    && (forall p :: (PcOf(s, p).Both? || PcOf(s, p).Committed? || PcOf(s, p).Waking?) ==> LockOf(s, PcOf(s, p).c) != PTABLE)
  }

  ghost predicate Inv(s: State) {
    && Exclusion(s)
    && (forall p, c :: Deciding(s, p, c) ==> c !in s.ready)
    && (forall p, c :: Exposed(s, p, c) && c in s.ready ==> SomeoneOwes(s, c))
  }

  // -------------------------------------------------------------- exclusion

  ghost predicate OnlyMoves(s: State, t: State, p: Pid) {
    t.lockOf == s.lockOf && forall q :: q != p ==> PcOf(t, q) == PcOf(s, q)
  }

  /** t's lock table is s's with p's entries brought up to date. */
  ghost predicate Rebooked(s: State, t: State, p: Pid) {
    && (forall l :: Holds(t, p, l) ==> l in t.holder && t.holder[l] == p)
    && (forall l :: l in t.holder && t.holder[l] == p ==> Holds(t, p, l))
    && (forall l :: l in t.holder && t.holder[l] != p ==> l in s.holder && s.holder[l] == t.holder[l])
    && (forall l :: l in s.holder && s.holder[l] != p ==> l in t.holder && t.holder[l] == s.holder[l])
  }

  predicate TwoLocksDiffer(s: State, p: Pid) {
    (PcOf(s, p).Both? || PcOf(s, p).Committed? || PcOf(s, p).Waking?) ==> LockOf(s, PcOf(s, p).c) != PTABLE
  }

  lemma {:induction false} MoveExcludes(s: State, t: State, p: Pid)
    requires Exclusion(s) && OnlyMoves(s, t, p) && Rebooked(s, t, p) && TwoLocksDiffer(t, p)
    ensures Exclusion(t)
  {
    forall q, l | Holds(t, q, l) ensures l in t.holder && t.holder[l] == q {
      if q != p { assert Holds(s, q, l); }
    }
    forall l | l in t.holder ensures Holds(t, t.holder[l], l) {
      var q := t.holder[l];
      if q != p { assert Holds(s, q, l); }
    }
  }

  lemma {:induction false} StepExcludes(s: State, step: Step)
    requires Exclusion(s) && Enabled(s, step) && !step.Wakeup1? && !step.Kill?
    ensures Exclusion(Next(s, step))
  {
    hide Exclusion;
    var t := Next(s, step);
    StepBooks(s, step);
    MoveExcludes(s, t, step.p);
  }

  predicate Takes(step: Step) { step.Acquire? || step.SleepAcquire? || step.Schedule? || step.WakeupAcquire? }

  predicate Drops(step: Step) { step.Release? || step.SleepRelease? || step.GoToSleep? || step.SleepReturn? || step.ChangedRelease? }

  lemma {:induction false} StepBooks(s: State, step: Step)
    requires Exclusion(s) && Enabled(s, step) && !step.Wakeup1? && !step.Kill?
    ensures OnlyMoves(s, Next(s, step), step.p) && Rebooked(s, Next(s, step), step.p) && TwoLocksDiffer(Next(s, step), step.p)
  {
    hide Exclusion, Next, Enabled, Rebooked, TwoLocksDiffer, OnlyMoves;
    if Takes(step) { TakeBooks(s, step); } else if Drops(step) { DropBooks(s, step); } else { KeepBooks(s, step); }
  }

  lemma {:induction false} OwnLocks(s: State, p: Pid)
    requires Exclusion(s)
    ensures forall l :: Holds(s, p, l) <==> l in s.holder && s.holder[l] == p
    ensures TwoLocksDiffer(s, p)
  {
  }

  lemma {:induction false} TakeBooks(s: State, step: Step)
    requires Exclusion(s) && Enabled(s, step) && Takes(step)
    ensures OnlyMoves(s, Next(s, step), step.p) && Rebooked(s, Next(s, step), step.p) && TwoLocksDiffer(Next(s, step), step.p)
  {
    hide Exclusion;
    OwnLocks(s, step.p);
  }

  lemma {:induction false} DropBooks(s: State, step: Step)
    requires Exclusion(s) && Enabled(s, step) && Drops(step)
    ensures OnlyMoves(s, Next(s, step), step.p) && Rebooked(s, Next(s, step), step.p) && TwoLocksDiffer(Next(s, step), step.p)
  {
    hide Exclusion;
    OwnLocks(s, step.p);
  }

  lemma {:induction false} KeepBooks(s: State, step: Step)
    requires Exclusion(s) && Enabled(s, step) && !Takes(step) && !Drops(step) && !step.Wakeup1? && !step.Kill?
    ensures OnlyMoves(s, Next(s, step), step.p) && Rebooked(s, Next(s, step), step.p) && TwoLocksDiffer(Next(s, step), step.p)
  {
    hide Exclusion;
    OwnLocks(s, step.p);
  }

  /** Waking a sleeper moves no lock. */
  lemma {:induction false} WakeAllExcludes(s: State, c: Chan)
    requires Exclusion(s)
    ensures Exclusion(s.(pc := WakeAll(s.pc, c)))
  {
    var t := s.(pc := WakeAll(s.pc, c));
    assert forall q :: PcOf(t, q) == if PcOf(s, q) == Asleep(c) then Runnable(c) else PcOf(s, q);
    assert forall q, l :: Holds(t, q, l) <==> Holds(s, q, l);
  }

  lemma {:induction false} Wakeup1Excludes(s: State, p: Pid)
    requires Exclusion(s) && Enabled(s, Wakeup1(p))
    ensures Exclusion(Next(s, Wakeup1(p)))
  {
    hide Exclusion;
    var c := PcOf(s, p).c;
    var u := s.(pc := WakeAll(s.pc, c));
    WakeAllExcludes(s, c);
    OwnLocks(u, p);
    assert PcOf(u, p) == PcOf(s, p);
    MoveExcludes(u, Next(s, Wakeup1(p)), p);
  }

  lemma {:induction false} KillExcludes(s: State, p: Pid, q: Pid)
    requires Exclusion(s) && Enabled(s, Kill(p, q))
    ensures Exclusion(Next(s, Kill(p, q)))
  {
    hide Exclusion;
    OwnLocks(s, q);
    MoveExcludes(s, Next(s, Kill(p, q)), q);
  }

  // ------------------------------------------------------------ the protocol

  /** Only the holder of c's lock changes c's condition, so a condition found false
      stays false until the sleeper lets go of the lock. */
  lemma {:induction false} DecidingKeeps(s: State, step: Step, p: Pid, c: Chan)
    requires Inv(s) && Enabled(s, step) && Deciding(Next(s, step), p, c)
    ensures c !in Next(s, step).ready
  {
    if Deciding(s, p, c) {
      assert Holds(s, p, LockOf(s, c));
      if step.MakeTrue? && PcOf(s, step.p).c == c {
        assert Holds(s, step.p, LockOf(s, c));
      }
    }
  }

  /** Whoever is exposed while the condition is true has a waker still to come. */
  lemma {:induction false} ExposedKeeps(s: State, step: Step, p: Pid, c: Chan)
    requires Inv(s) && Enabled(s, step) && Exposed(Next(s, step), p, c) && c in Next(s, step).ready
    ensures SomeoneOwes(Next(s, step), c)
  {
    var t := Next(s, step);
    if step.MakeTrue? && PcOf(s, step.p).c == c {
      assert Owes(t, step.p, c);
    } else if Exposed(s, p, c) {
      var w :| Owes(s, w, c);
      if !Owes(t, w, c) {
        WakerRan(s, step, p, w, c);
        assert false;
      }
    } else {
      assert Deciding(s, p, c);
    }
  }

  /** A process stops owing only by running wakeup1, and then nobody sleeps on c:
      no sleeper can be half way, because the waker holds ptable.lock. */
  lemma {:induction false} WakerRan(s: State, step: Step, p: Pid, w: Pid, c: Chan)
    requires Inv(s) && Enabled(s, step) && Owes(s, w, c) && !Owes(Next(s, step), w, c)
    ensures !Exposed(Next(s, step), p, c)
  {
    assert step == Wakeup1(w);
    assert Holds(s, w, PTABLE);
    assert PcOf(s, p) == Committed(c) ==> Holds(s, p, PTABLE);
  }

  lemma {:induction false} StepKeeps(s: State, step: Step)
    requires Inv(s) && Enabled(s, step)
    ensures Inv(Next(s, step))
  {
    var t := Next(s, step);
    match step {
      case Wakeup1(p) => Wakeup1Excludes(s, p);
      case Kill(p, q) => KillExcludes(s, p, q);
      case _ => StepExcludes(s, step);
    }
    forall p, c | Deciding(t, p, c) ensures c !in t.ready { DecidingKeeps(s, step, p, c); }
    forall p, c | Exposed(t, p, c) && c in t.ready ensures SomeoneOwes(t, c) { ExposedKeeps(s, step, p, c); }
  }

  // ------------------------------------------------------------- whole runs

  /** Everybody outside, every lock free. */
  predicate Init(s: State) { s.pc == map[] && s.holder == map[] }

  ghost predicate IsRun(states: seq<State>, steps: seq<Step>) {
    && |states| == |steps| + 1 && Init(states[0])
    && forall i :: 0 <= i < |steps| ==> Enabled(states[i], steps[i]) && states[i+1] == Next(states[i], steps[i])
  }

  lemma {:induction false} RunKeeps(states: seq<State>, steps: seq<Step>, k: nat)
    requires IsRun(states, steps) && k < |states|
    ensures Inv(states[k])
  {
    if k > 0 {
      RunKeeps(states, steps, k-1);
      StepKeeps(states[k-1], steps[k-1]);
    }
  }

  /** No lost wakeup: in every state of every run, a process asleep on c although
      c's condition is true is one whose waker has not finished wakeup(c) yet. */
  lemma {:induction false} NoLostWakeup(states: seq<State>, steps: seq<Step>, k: nat, p: Pid, c: Chan)
    requires IsRun(states, steps) && k < |states|
    requires PcOf(states[k], p) == Asleep(c) && c in states[k].ready
    ensures exists w :: Owes(states[k], w, c)
  {
    RunKeeps(states, steps, k);
    assert Exposed(states[k], p, c);
  }

  /** The moment a waker finishes, nobody is asleep on its channel any more. */
  lemma {:induction false} WakeupReachesAll(states: seq<State>, steps: seq<Step>, k: nat, w: Pid, p: Pid, c: Chan)
    requires IsRun(states, steps) && k < |steps|
    requires Owes(states[k], w, c) && !Owes(states[k+1], w, c)
    ensures PcOf(states[k+1], p) != Asleep(c) && PcOf(states[k+1], p) != Committed(c)
  {
    RunKeeps(states, steps, k);
    WakerRan(states[k], steps[k], p, w, c);
  }

  /** In a call of sleep on c, not woken yet. */
  predicate Dozing(s: State, p: Pid, c: Chan) {
    var pc := PcOf(s, p);
    pc == Tested(c) || pc == Both(c) || pc == Committed(c) || pc == Asleep(c)
  }

  /** In a call of sleep on c. */
  predicate InSleep(s: State, p: Pid, c: Chan) {
    var pc := PcOf(s, p);
    Dozing(s, p, c) || pc == Runnable(c) || pc == Resumed(c) || pc == Returning(c)
  }

  /** A step that wakes p from its sleep on c: somebody's wakeup of c, or a kill of p. */
  predicate Wakes(s: State, step: Step, p: Pid, c: Chan) {
    (step.Wakeup1? && Owes(s, step.p, c)) || (step.Kill? && step.q == p)
  }

  /** sleep ends inside the critical section, and begins to end only when p is woken from SLEEPING. */
  lemma {:induction false} SleepStep(s: State, step: Step, p: Pid, c: Chan)
    requires Enabled(s, step) && InSleep(s, p, c)
    ensures InSleep(Next(s, step), p, c) || PcOf(Next(s, step), p) == Inside(c)
    ensures Dozing(s, p, c) && !Dozing(Next(s, step), p, c) ==> PcOf(s, p) == Asleep(c) && Wakes(s, step, p, c)
    ensures !Dozing(s, p, c) ==> !Dozing(Next(s, step), p, c)
  {
    var t := Next(s, step);
    if step.Wakeup1? {
      assert step.p != p;
      assert PcOf(t, p) == if PcOf(s, p) == Asleep(PcOf(s, step.p).c) then Runnable(c) else PcOf(s, p);
    } else if step.Kill? || step.p != p {
      assert PcOf(t, p) == if step.Kill? && step.q == p then Runnable(c) else PcOf(s, p);
    }
  }

  /** sleep returns with lk held: when a process that called sleep on c is done with it, it is inside
      c's critical section again, whether lk is ptable.lock or not. */
  lemma {:induction false} SleepReturnsHolding(states: seq<State>, steps: seq<Step>, i: nat, j: nat, p: Pid, c: Chan)
    requires IsRun(states, steps) && i < j < |states| && PcOf(states[i], p) == Tested(c)
    requires (forall t :: i <= t < j ==> InSleep(states[t], p, c)) && !InSleep(states[j], p, c)
    ensures PcOf(states[j], p) == Inside(c) && Holds(states[j], p, LockOf(states[j], c))
    ensures LockOf(states[j], c) in states[j].holder && states[j].holder[LockOf(states[j], c)] == p
  {
    hide Enabled, Next, Inv, Holds, InSleep, Dozing;
    RunKeeps(states, steps, j);
    assert InSleep(states[j - 1], p, c);
    SleepStep(states[j - 1], steps[j - 1], p, c);
    InsideHolds(states[j], p, c);
  }

  lemma {:induction false} InsideHolds(s: State, p: Pid, c: Chan)
    requires Inv(s) && PcOf(s, p) == Inside(c)
    ensures Holds(s, p, LockOf(s, c)) && LockOf(s, c) in s.holder && s.holder[LockOf(s, c)] == p
  {
    hide SomeoneOwes, Deciding, Exposed;
    assert Holds(s, p, LockOf(s, c));
  }

  /** And not before it was woken, from SLEEPING. */
  lemma {:induction false} SleepsUntilWoken(states: seq<State>, steps: seq<Step>, i: nat, j: nat, p: Pid, c: Chan) returns (t: nat)
    requires IsRun(states, steps) && i < j < |states| && Dozing(states[i], p, c)
    requires (forall u :: i <= u < j ==> InSleep(states[u], p, c)) && !InSleep(states[j], p, c)
    ensures i <= t < j && PcOf(states[t], p) == Asleep(c) && Wakes(states[t], steps[t], p, c)
    decreases j - i
  {
    hide Enabled, Next, InSleep, Dozing;
    assert InSleep(states[i], p, c);
    SleepStep(states[i], steps[i], p, c);
    if Dozing(states[i + 1], p, c) {
      DozingSleeps(states[i + 1], p, c);
      t := SleepsUntilWoken(states, steps, i + 1, j, p, c);
    } else {
      t := i;
    }
  }

  lemma {:induction false} DozingSleeps(s: State, p: Pid, c: Chan)
    requires Dozing(s, p, c)
    ensures InSleep(s, p, c)
  {
  }

  /** wakeup returns to a caller that holds what it held: c's lock if it had kept it. A kill of a
      sleeper, too, makes it runnable at once. */
  lemma {:induction false} WakeupReturns(states: seq<State>, steps: seq<Step>, k: nat, w: Pid, c: Chan)
    requires IsRun(states, steps) && k < |steps|
    ensures Owes(states[k], w, c) && !Owes(states[k+1], w, c) ==>
      if PcOf(states[k], w).Changed? || PcOf(states[k], w).Waking?
      then PcOf(states[k+1], w) == Inside(c) && Holds(states[k+1], w, LockOf(states[k+1], c))
      else PcOf(states[k+1], w) == Outside
    ensures steps[k].Kill? ==>
      PcOf(states[k], steps[k].q).Asleep? && PcOf(states[k+1], steps[k].q) == Runnable(PcOf(states[k], steps[k].q).c)
  {
    hide Enabled, Next, Owes;
    WakeStep(states[k], steps[k], w, c);
  }

  lemma {:induction false} WakeStep(s: State, step: Step, w: Pid, c: Chan)
    requires Enabled(s, step)
    ensures Owes(s, w, c) && !Owes(Next(s, step), w, c) ==>
      PcOf(Next(s, step), w) == if PcOf(s, w).Changed? || PcOf(s, w).Waking? then Inside(c) else Outside
    ensures step.Kill? ==> PcOf(s, step.q).Asleep? && PcOf(Next(s, step), step.q) == Runnable(PcOf(s, step.q).c)
  {
    if Owes(s, w, c) && !Owes(Next(s, step), w, c) { assert step == Wakeup1(w); }
  }

  /** After k steps, c's condition is as the last change of it left it. */
  function ReadyAfter(states: seq<State>, steps: seq<Step>, k: nat, c: Chan): bool
    requires k <= |steps| && |states| == |steps| + 1
  {
    if k == 0 then c in states[0].ready
    else if steps[k - 1].MakeTrue? && PcOf(states[k - 1], steps[k - 1].p) == Inside(c) then true
    else if steps[k - 1].MakeFalse? && PcOf(states[k - 1], steps[k - 1].p) == Inside(c) then false
    else ReadyAfter(states, steps, k - 1, c)
  }

  lemma {:induction false} ReadyTold(states: seq<State>, steps: seq<Step>, k: nat, c: Chan)
    requires IsRun(states, steps) && k < |states|
    ensures c in states[k].ready <==> ReadyAfter(states, steps, k, c)
  {
    if k > 0 {
      hide Enabled, Next;
      ReadyTold(states, steps, k - 1, c);
      NextReady(states[k - 1], steps[k - 1], c);
    }
  }

  lemma {:induction false} NextReady(s: State, step: Step, c: Chan)
    requires Enabled(s, step)
    ensures c in Next(s, step).ready <==>
      if step.MakeTrue? && PcOf(s, step.p) == Inside(c) then true
      else if step.MakeFalse? && PcOf(s, step.p) == Inside(c) then false
      else c in s.ready
  {
  }

  /** In the middle of a critical section, of sleep or of wakeup, and not asleep. */
  predicate Busy(s: State, p: Pid) { !PcOf(s, p).Outside? && !PcOf(s, p).Asleep? }

  /** The step that brings p nearer to the end of what it is in. */
  function Onward(s: State, p: Pid): Step
    requires Busy(s, p)
  {
    match PcOf(s, p)
    case Inside(c) => Release(p)
    case Tested(c) => if LockOf(s, c) == PTABLE then GoToSleep(p) else SleepAcquire(p)
    case Both(c) => SleepRelease(p)
    case Committed(c) => GoToSleep(p)
    case Runnable(c) => Schedule(p)
    case Resumed(c) => SleepReturn(p)
    case Returning(c) => Acquire(p, c)
    case Changed(c) => if LockOf(s, c) == PTABLE then Wakeup1(p) else WakeupAcquire(p)
    case Changed'(c) => WakeupAcquire(p)
    case Waking(c) => Wakeup1(p)
    case Waking'(c) => Wakeup1(p)
  }

  ghost predicate CanGoOn(s: State, p: Pid) { Busy(s, p) && Enabled(s, Onward(s, p)) }

  /** Whoever holds ptable.lock waits for nothing. */
  lemma {:induction false} TableHolderRuns(s: State)
    requires Exclusion(s) && PTABLE in s.holder
    ensures CanGoOn(s, s.holder[PTABLE])
  {
    assert Holds(s, s.holder[PTABLE], PTABLE);
  }

  /** Whoever holds another lock waits for ptable.lock at most. */
  lemma {:induction false} HolderRuns(s: State, l: Lock)
    requires Exclusion(s) && l in s.holder
    ensures CanGoOn(s, s.holder[l]) || PTABLE in s.holder
  {
    assert Holds(s, s.holder[l], l);
  }

  /** No deadlock: in every state of every run, as long as some process is in the middle of something,
      some process can go on, whatever locks the others wait for. */
  lemma {:induction false} NoDeadlock(states: seq<State>, steps: seq<Step>, k: nat, p: Pid)
    requires IsRun(states, steps) && k < |states| && Busy(states[k], p)
    ensures exists q :: CanGoOn(states[k], q)
  {
    var s := states[k];
    RunKeeps(states, steps, k);
    if PTABLE in s.holder {
      TableHolderRuns(s);
    } else if !CanGoOn(s, p) {
      HolderRuns(s, LockOf(s, PcOf(s, p).c));
    }
  }

  /** acquire and release give mutual exclusion on every lock. */
  lemma {:induction false} MutualExclusion(states: seq<State>, steps: seq<Step>, k: nat, p: Pid, q: Pid, l: Lock)
    requires IsRun(states, steps) && k < |states| && Holds(states[k], p, l) && Holds(states[k], q, l)
    ensures p == q
  {
    RunKeeps(states, steps, k);
  }
}
