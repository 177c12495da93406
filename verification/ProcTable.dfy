/** The process table of proc.c. Each method is one stretch of code run under
    ptable.lock (or, where the source takes no lock, one store), by any process, so
    what every method keeps holds in every interleaving. */
module ProcTable {

  datatype PState = UNUSED | EMBRYO | SLEEPING | RUNNABLE | RUNNING | ZOMBIE

  /** wait() sleeps on the address of the caller's own slot; all other sleeps use other addresses. */
  datatype Chan = NoChan | Slot(i: nat) | Other(x: nat)

  const NOBODY := -1

  datatype Proc = Proc(state: PState, pid: nat, parent: int, chan: Chan, killed: bool)

  datatype WaitOutcome = Reaped(pid: nat) | NoChild | WasKilled | WaitAsleep

  predicate Live(p: Proc) { p.state.SLEEPING? || p.state.RUNNABLE? || p.state.RUNNING? }

  /** wakeup1(chan) */
  function Awake(p: Proc, c: Chan): Proc {
    if p.state.SLEEPING? && p.chan == c then p.(state := RUNNABLE) else p
  }

  ghost predicate WokenFrom(before: seq<Proc>, after: seq<Proc>, c: Chan) {
    |after| == |before| && forall i :: 0 <= i < |before| ==> after[i] == Awake(before[i], c)
  }

  // -------------------------------------------------------------- invariant

  ghost predicate PidsDistinct(ps: seq<Proc>) {
    forall i, j :: 0 <= i < j < |ps| && !ps[i].state.UNUSED? && !ps[j].state.UNUSED? ==> ps[i].pid != ps[j].pid
  }

  /** Every parent pointer names a process that can still call wait. */
  ghost predicate ParentsLive(ps: seq<Proc>) {
    forall i :: 0 <= i < |ps| && ps[i].parent != NOBODY ==>
      0 <= ps[i].parent < |ps| && Live(ps[ps[i].parent])
  }

  /** Everybody but init has a parent; free slots have none. */
  ghost predicate Parented(ps: seq<Proc>, init: nat) {
    && init < |ps| && Live(ps[init]) && ps[init].parent == NOBODY
    && (forall i :: 0 <= i < |ps| && i != init && (Live(ps[i]) || ps[i].state.ZOMBIE?) ==> ps[i].parent != NOBODY)
    && (forall i :: 0 <= i < |ps| && ps[i].state.UNUSED? ==> ps[i].parent == NOBODY)
    && (forall i :: 0 <= i < |ps| ==> ps[i].parent != i)
  }

  /** Nobody asleep in wait has a child to collect. */
  ghost predicate NoZombieWaits(ps: seq<Proc>) {
    forall i :: 0 <= i < |ps| && ps[i].state.ZOMBIE? && 0 <= ps[i].parent < |ps| ==>
      !WaitingIn(ps, ps[i].parent)
  }

  ghost predicate Tree(ps: seq<Proc>, init: nat) {
    PidsDistinct(ps) && ParentsLive(ps) && Parented(ps, init) && NoZombieWaits(ps)
  }

  /** Pids below nextpid; exactly the zombies are exited and not yet reaped. */
  ghost predicate Books(ps: seq<Proc>, nextpid: nat, exited: set<nat>, reaped: set<nat>) {
    && (forall i :: 0 <= i < |ps| && !ps[i].state.UNUSED? ==> ps[i].pid < nextpid)
    && (forall x :: x in exited ==> x < nextpid)
    && reaped <= exited
    && (forall i :: 0 <= i < |ps| ==> (ps[i].state.ZOMBIE? ==> ps[i].pid in exited && ps[i].pid !in reaped))
    && (forall i :: 0 <= i < |ps| && (Live(ps[i]) || ps[i].state.EMBRYO?) ==> ps[i].pid !in exited)
  }

  function InUse(ps: seq<Proc>): nat {
    if ps == [] then 0
    else InUse(ps[..|ps|-1]) + if ps[|ps|-1].state.UNUSED? then 0 else 1
  }

  // ------------------------------------------------------------ the table

  class PTable {
    const proc: array<Proc>
    const initproc: nat
    var nextpid: nat
    ghost var exited: set<nat>    // pids that have called exit
    ghost var reaped: set<nat>    // pids wait has returned
    ghost var taken: nat      // slots ever taken
    ghost var givenBack: nat       // slots ever given back

    ghost predicate Valid()
      reads this, proc
    {
      && Tree(proc[..], initproc) && Books(proc[..], nextpid, exited, reaped)
      && InUse(proc[..]) + givenBack == taken
    }

    /** After userinit: process 1 in slot 0, everything else unused. */
    constructor (nproc: nat)
      requires nproc > 0
      ensures Valid() && fresh(proc) && proc.Length == nproc && exited == {} && reaped == {} && taken == 1 && givenBack == 0
      ensures initproc == 0 && nextpid == 2 && proc[0] == Proc(RUNNABLE, 1, NOBODY, NoChan, false)
      ensures forall i :: 0 < i < nproc ==> proc[i].state.UNUSED?
    {
      var a := new Proc[nproc](i => Proc(if i == 0 then RUNNABLE else UNUSED, if i == 0 then 1 else 0, NOBODY, NoChan, false));
      proc := a;
      initproc, nextpid := 0, 2;
      exited, reaped, taken, givenBack := {}, {}, 1, 0;
      new;
      OnlyFirst(proc[..]);
    }

    /** allocproc: take the first unused slot. Pids stay distinct until nextpid wraps. */
    method AllocProc() returns (i: int)
      requires Valid() && nextpid < 0x7fff_ffff
      modifies proc, this`nextpid, this`taken
      ensures Valid()
      ensures i == -1 <==> forall k :: 0 <= k < proc.Length ==> !old(proc[k]).state.UNUSED?
      ensures i == -1 ==> proc[..] == old(proc[..]) && nextpid == old(nextpid) && taken == old(taken)
      ensures i != -1 ==>
                && 0 <= i < proc.Length && old(proc[i]).state.UNUSED? && (forall k :: 0 <= k < i ==> !old(proc[k]).state.UNUSED?)
                && proc[..] == old(proc[..])[i := old(proc[i]).(state := EMBRYO, pid := old(nextpid))]
                && nextpid == old(nextpid) + 1 && taken == old(taken) + 1
    {
      hide Tree, Books, InUse;
      i := 0;
      while i < proc.Length
        invariant 0 <= i <= proc.Length
        invariant forall k :: 0 <= k < i ==> !proc[k].state.UNUSED?
      {
        if proc[i].state.UNUSED? {
          ghost var ps := proc[..];
          AllocKeeps(ps, initproc, nextpid, exited, reaped, i);
          proc[i] := proc[i].(state := EMBRYO);
          proc[i] := proc[i].(pid := nextpid);
          assert proc[..] == ps[i := ps[i].(state := EMBRYO, pid := nextpid)];
          nextpid := nextpid + 1;
          taken := taken + 1;
          return i;
        }
        i := i + 1;
      }
      return -1;
    }

    /** No memory for the new process: its slot goes back. */
    method AbortAlloc(i: nat)
      requires Valid() && i < proc.Length && proc[i].state.EMBRYO? && proc[i].parent == NOBODY
      modifies proc, this`givenBack
      ensures Valid() && proc[..] == old(proc[..])[i := old(proc[i]).(state := UNUSED)] && givenBack == old(givenBack) + 1
    {
      hide Tree, Books, InUse;
      ghost var ps := proc[..];
      AbortKeeps(ps, initproc, nextpid, exited, reaped, i);
      proc[i] := proc[i].(state := UNUSED);
      assert proc[..] == ps[i := ps[i].(state := UNUSED)];
      givenBack := givenBack + 1;
    }

    /** fork: np->parent = proc, made before the child can run. */
    method ForkParent(me: nat, np: nat)
      requires Valid() && me < proc.Length && proc[me].state.RUNNING?
      requires np < proc.Length && proc[np].state.EMBRYO?
      modifies proc
      ensures Valid() && proc[..] == old(proc[..])[np := old(proc[np]).(parent := me)]
    {
      hide Tree, Books, InUse;
      ghost var ps := proc[..];
      ForkParentKeeps(ps, initproc, nextpid, exited, reaped, me, np);
      proc[np] := proc[np].(parent := me);
      assert proc[..] == ps[np := ps[np].(parent := me)];
    }

    /** fork: the child becomes runnable. */
    method ForkFinish(np: nat)
      requires Valid() && np < proc.Length && proc[np].state.EMBRYO? && proc[np].parent != NOBODY
      modifies proc
      ensures Valid() && proc[..] == old(proc[..])[np := old(proc[np]).(state := RUNNABLE)]
    {
      hide Tree, Books, InUse;
      ghost var ps := proc[..];
      StateKeeps(ps, initproc, nextpid, exited, reaped, np, RUNNABLE, ps[np].chan);
      proc[np] := proc[np].(state := RUNNABLE);
      assert proc[..] == ps[np := ps[np].(state := RUNNABLE, chan := ps[np].chan)];
    }
  
    /** wakeup1: every sleeper on c becomes runnable, and nothing else changes. */
    method Wakeup1(c: Chan)
      modifies proc
      ensures WokenFrom(old(proc[..]), proc[..], c)
      ensures forall i :: 0 <= i < proc.Length ==>
        proc[i] == if old(proc[i]).state.SLEEPING? && old(proc[i]).chan == c then old(proc[i]).(state := RUNNABLE) else old(proc[i])
    {
      var p := 0;
      while p < proc.Length
        invariant 0 <= p <= proc.Length
        invariant forall i :: 0 <= i < p ==> proc[i] == Awake(old(proc[i]), c)
        invariant forall i :: p <= i < proc.Length ==> proc[i] == old(proc[i])
      {
        if proc[p].state.SLEEPING? && proc[p].chan == c {
          proc[p] := proc[p].(state := RUNNABLE);
        }
        p := p + 1;
      }
    }

    method Wakeup(c: Chan)
      requires Valid()
      modifies proc
      ensures Valid() && WokenFrom(old(proc[..]), proc[..], c)
    {
      hide Tree, Books, InUse;
      ghost var ps := proc[..];
      Wakeup1(c);
      WokenKeeps(ps, proc[..], initproc, nextpid, exited, reaped, c);
    }

    /** A running process gives up the CPU: yield, or sleep on something other than its children. */
    method Suspend(me: nat, sleeping: bool, c: Chan)
      requires Valid() && me < proc.Length && proc[me].state.RUNNING? && (sleeping ==> !c.Slot?)
      modifies proc
      ensures Valid()
      ensures proc[..] == old(proc[..])[me := if sleeping then old(proc[me]).(state := SLEEPING, chan := c)
                                              else old(proc[me]).(state := RUNNABLE)]
    {
      hide Tree, Books, InUse;
      ghost var ps := proc[..];
      if sleeping {
        StateKeeps(ps, initproc, nextpid, exited, reaped, me, SLEEPING, c);
        proc[me] := proc[me].(chan := c);
        proc[me] := proc[me].(state := SLEEPING);
        assert proc[..] == ps[me := ps[me].(state := SLEEPING, chan := c)];
      } else {
        StateKeeps(ps, initproc, nextpid, exited, reaped, me, RUNNABLE, ps[me].chan);
        proc[me] := proc[me].(state := RUNNABLE);
        assert proc[..] == ps[me := ps[me].(state := RUNNABLE, chan := ps[me].chan)];
      }
    }

    /** scheduler: a runnable process runs. */
    method Schedule(i: nat)
      requires Valid() && i < proc.Length && proc[i].state.RUNNABLE?
      modifies proc
      ensures Valid() && proc[..] == old(proc[..])[i := old(proc[i]).(state := RUNNING)]
    {
      hide Tree, Books, InUse;
      ghost var ps := proc[..];
      StateKeeps(ps, initproc, nextpid, exited, reaped, i, RUNNING, ps[i].chan);
      proc[i] := proc[i].(state := RUNNING);
      assert proc[..] == ps[i := ps[i].(state := RUNNING, chan := ps[i].chan)];
    }

    /** kill: the first slot with that pid is marked, and woken if asleep. */
    method Kill(pid: nat) returns (found: bool)
      requires Valid()
      modifies proc
      ensures Valid()
      ensures found <==> exists i :: 0 <= i < proc.Length && old(proc[i]).pid == pid
      ensures !found ==> proc[..] == old(proc[..])
      ensures found ==>
        exists i ::
          && KilledAt(old(proc[..]), proc[..], i, pid) && proc[i].killed
          && proc[i].state == if old(proc[i]).state.SLEEPING? then RUNNABLE else old(proc[i]).state
    {
      hide Tree, Books, InUse;
      var p := 0;
      ghost var ps := proc[..];
      while p < proc.Length
        invariant 0 <= p <= proc.Length && proc[..] == ps
        invariant forall j :: 0 <= j < p ==> ps[j].pid != pid
      {
        if proc[p].pid == pid {
          KillKeeps(ps, initproc, nextpid, exited, reaped, p);
          proc[p] := proc[p].(killed := true);
          if proc[p].state.SLEEPING? {
            proc[p] := proc[p].(state := RUNNABLE);
          }
          assert proc[..] == ps[p := Killed(ps[p])];
          assert KilledAt(ps, proc[..], p, pid);
          return true;
        }
        p := p + 1;
      }
      return false;
    }

    /** exit: wake the parent, hand the children to init, become a zombie.
        init itself must not exit. */
    method Exit(me: nat) returns (ok: bool)
      requires Valid() && me < proc.Length && proc[me].state.RUNNING?
      modifies proc, this`exited
      ensures Valid()
      ensures ok <==> me != initproc
      ensures !ok ==> proc[..] == old(proc[..]) && exited == old(exited)
      ensures ok ==>
                && exited == old(exited) + {old(proc[me]).pid}
                && LeftFrom(old(proc[..]), proc[..], me, initproc)
                && proc[me] == old(proc[me]).(state := ZOMBIE)
                && forall i :: 0 <= i < proc.Length && i != me ==> LeftBehind(old(proc[..]), proc[i], i, me, initproc)
    {
      hide Tree, Books, InUse;
      if me == initproc {
        return false;
      }
      ghost var ps := proc[..];
      SelfFacts(ps, initproc, me);
      Wakeup1(if proc[me].parent == NOBODY then NoChan else Slot(proc[me].parent));
      ghost var qs := proc[..];
      ghost var z := PassChildren(me);
      proc[me] := proc[me].(state := ZOMBIE);
      assert LeftFrom(ps, proc[..], me, initproc);
      LeftAll(ps, proc[..], me, initproc);
      ExitKeeps(ps, proc[..], initproc, nextpid, exited, reaped, me);
      exited := exited + {ps[me].pid};
      return true;
    }

    /** exit's loop over the table; z tells whether a zombie child was passed on. */
    method PassChildren(me: nat) returns (ghost z: bool)
      requires initproc < proc.Length
      modifies proc
      ensures z <==> exists j :: 0 <= j < proc.Length && old(proc[j]).parent == me && old(proc[j]).state.ZOMBIE?
      ensures forall i :: 0 <= i < proc.Length ==> proc[i] == Adopted(old(proc[i]), me, initproc, z)
    {
      z := false;
      var p := 0;
      while p < proc.Length
        invariant 0 <= p <= proc.Length
        invariant z <==> exists j :: 0 <= j < p && old(proc[j]).parent == me && old(proc[j]).state.ZOMBIE?
        invariant forall i :: 0 <= i < p ==> proc[i] == Adopted(old(proc[i]), me, initproc, z)
        invariant forall i :: p <= i < proc.Length ==> proc[i] == if z then Awake(old(proc[i]), Slot(initproc)) else old(proc[i])
      {
        if proc[p].parent == me {
          proc[p] := proc[p].(parent := initproc);
          if proc[p].state.ZOMBIE? {
            z := true;
            Wakeup1(Slot(initproc));
          }
        }
        p := p + 1;
      }
    }
  
    /** wait: collect a zombie child, or give up, or sleep until one exits. */
    method Wait(me: nat) returns (r: WaitOutcome)
      requires Valid() && me < proc.Length && proc[me].state.RUNNING?
      modifies proc, this`reaped, this`givenBack
      ensures Valid()
      ensures r.Reaped? ==>
                && r.pid in exited && r.pid !in old(reaped) && reaped == old(reaped) + {r.pid}
                && givenBack == old(givenBack) + 1
                && exists k ::
                     && Collected(old(proc[..]), proc[..], me, k) && old(proc[..])[k].pid == r.pid
                     && (forall j :: 0 <= j < k ==> !(old(proc[j]).parent == me && old(proc[j]).state.ZOMBIE?))
                     && proc[k].state.UNUSED? && proc[k].parent == NOBODY && proc[k].pid == 0 && !proc[k].killed
      ensures !r.Reaped? ==>
                && reaped == old(reaped) && givenBack == old(givenBack)
                && forall k :: 0 <= k < proc.Length ==> !(old(proc[k]).parent == me && old(proc[k]).state.ZOMBIE?)
      ensures r.NoChild? <==> forall k :: 0 <= k < proc.Length ==> old(proc[k]).parent != me
      ensures r.WasKilled? ==> old(proc[me]).killed
      ensures r.WaitAsleep? ==> !old(proc[me]).killed
      ensures r.NoChild? || r.WasKilled? ==> proc[..] == old(proc[..])
      ensures r.WaitAsleep? ==> proc[..] == old(proc[..])[me := old(proc[me]).(state := SLEEPING, chan := Slot(me))]
    {
      hide Tree, Books, InUse;
      var havekids := false;
      ghost var ps := proc[..];
      var p := 0;
      while p < proc.Length
        invariant 0 <= p <= proc.Length && proc[..] == ps && reaped == old(reaped) && givenBack == old(givenBack)
        invariant havekids <==> exists k :: 0 <= k < p && ps[k].parent == me
        invariant forall k :: 0 <= k < p ==> !(ps[k].parent == me && ps[k].state.ZOMBIE?)
      {
        if proc[p].parent == me {
          havekids := true;
          if proc[p].state.ZOMBIE? {
            var pid := proc[p].pid;
            ReapKeeps(ps, initproc, nextpid, exited, reaped, me, p);
            proc[p] := proc[p].(state := UNUSED);
            proc[p] := proc[p].(pid := 0);
            proc[p] := proc[p].(parent := NOBODY);
            proc[p] := proc[p].(killed := false);
            assert proc[..] == ps[p := Emptied(ps[p])];
            assert Collected(ps, proc[..], me, p);
            reaped := reaped + {pid};
            givenBack := givenBack + 1;
            return Reaped(pid);
          }
        }
        p := p + 1;
      }
      if !havekids {
        return NoChild;
      }
      if proc[me].killed {
        return WasKilled;
      }
      WaitKeeps(ps, initproc, nextpid, exited, reaped, me);
      proc[me] := proc[me].(chan := Slot(me));
      proc[me] := proc[me].(state := SLEEPING);
      assert proc[..] == ps[me := ps[me].(state := SLEEPING, chan := Slot(me))];
      return WaitAsleep;
    }

    /** sys_getpcount: slots taken minus slots given back. */
    method GetPCount() returns (count: nat)
      requires Valid()
      ensures count + givenBack == taken
      ensures count == |set i | 0 <= i < proc.Length && !proc[i].state.UNUSED?|
    {
      hide Tree, Books;
      count := 0;
      var p := 0;
      while p < proc.Length
        invariant 0 <= p <= proc.Length && count == InUse(proc[..p])
      {
        assert proc[..p+1][..p] == proc[..p];
        if proc[p].state.EMBRYO? { count := count + 1; }
        else if proc[p].state.SLEEPING? { count := count + 1; }
        else if proc[p].state.RUNNABLE? { count := count + 1; }
        else if proc[p].state.RUNNING? { count := count + 1; }
        else if proc[p].state.ZOMBIE? { count := count + 1; }
        p := p + 1;
      }
      assert proc[..p] == proc[..];
      InUseCounts(proc[..]);
      assert (set i | 0 <= i < proc.Length && !proc[i].state.UNUSED?) == Occupied(proc[..]);
    }
  }

  /** The slot of a collected child. */
  function Emptied(p: Proc): Proc {
    p.(state := UNUSED, pid := 0, parent := NOBODY, killed := false)
  }

  /** Slot k, a zombie child of me and the first such, was emptied. */
  ghost predicate Collected(ps: seq<Proc>, qs: seq<Proc>, me: nat, k: int) {
    && 0 <= k < |ps| && ps[k].parent == me && ps[k].state.ZOMBIE?
    && (forall j :: 0 <= j < k ==> !(ps[j].parent == me && ps[j].state.ZOMBIE?))
    && qs == ps[k := Emptied(ps[k])]
  }

  ghost function Occupied(ps: seq<Proc>): set<int> { set i | 0 <= i < |ps| && !ps[i].state.UNUSED? }

  function Killed(p: Proc): Proc {
    p.(killed := true, state := if p.state.SLEEPING? then RUNNABLE else p.state)
  }

  /** Slot i is the first with that pid, and the only one changed. */
  ghost predicate KilledAt(ps: seq<Proc>, qs: seq<Proc>, i: int, pid: nat) {
    && 0 <= i < |ps| && ps[i].pid == pid && (forall j :: 0 <= j < i ==> ps[j].pid != pid)
    && qs == ps[i := Killed(ps[i])]
  }

  /** What exit does to another process's slot. */
  function Adopted(p: Proc, me: nat, init: nat, z: bool): Proc {
    (if z then Awake(p, Slot(init)) else p).(parent := if p.parent == me then init else p.parent)
  }

  /** The table before and after exit(me). */
  ghost predicate LeftFrom(ps: seq<Proc>, qs: seq<Proc>, me: nat, init: nat) {
    && |qs| == |ps| && me < |ps| && ps[me].parent >= 0
    && var z := exists j :: 0 <= j < |ps| && ps[j].parent == me && ps[j].state.ZOMBIE?;
    && (forall i :: 0 <= i < |ps| && i != me ==> qs[i] == Adopted(Awake(ps[i], Slot(ps[me].parent)), me, init, z))
    && qs[me] == ps[me].(state := ZOMBIE)
  }

  /** Slot i after exit(me): its parent is init if it was me; it is awake if it waited for me, being
      my parent, or if it is init waiting and I leave it a zombie. */
  ghost predicate LeftBehind(ps: seq<Proc>, q: Proc, i: nat, me: nat, init: nat)
    requires i < |ps| && me < |ps|
  {
    var p := ps[i];
    var woken := p.state.SLEEPING? && (p.chan == Slot'(ps[me].parent) || (p.chan == Slot(init) && LeavesZombie(ps, me)));
    && q.pid == p.pid && q.killed == p.killed && q.chan == p.chan
    && q.parent == (if p.parent == me then init else p.parent)
    && q.state == if woken then RUNNABLE else p.state
  }

  ghost predicate LeavesZombie(ps: seq<Proc>, me: nat) {
    exists j :: 0 <= j < |ps| && ps[j].parent == me && ps[j].state.ZOMBIE?
  }

  /** Where the process in slot i sleeps in wait. */
  function Slot'(i: int): Chan { if i < 0 then NoChan else Slot(i) }

  lemma {:induction false} LeftAll(ps: seq<Proc>, qs: seq<Proc>, me: nat, init: nat)
    requires LeftFrom(ps, qs, me, init)
    ensures forall i :: 0 <= i < |ps| && i != me ==> LeftBehind(ps, qs[i], i, me, init)
  {
    assert LeavesZombie(ps, me) <==> exists j :: 0 <= j < |ps| && ps[j].parent == me && ps[j].state.ZOMBIE?;
  }

  // ---------------------------------------------------------- preservation

  lemma {:induction false} OnlyFirst(ps: seq<Proc>)
    requires |ps| > 0
    requires forall i :: 0 <= i < |ps| ==>
      ps[i] == Proc(if i == 0 then RUNNABLE else UNUSED, if i == 0 then 1 else 0, NOBODY, NoChan, false)
    ensures InUse(ps) == 1
  {
    if |ps| > 1 {
      OnlyFirst(ps[..|ps|-1]);
    } else {
      assert ps[..0] == [];
    }
  }

  /** Changing one slot changes the count by that slot. */
  lemma {:induction false} InUseUpdate(ps: seq<Proc>, i: nat, p: Proc)
    requires i < |ps|
    ensures InUse(ps[i := p]) == InUse(ps) - (if ps[i].state.UNUSED? then 0 else 1) + (if p.state.UNUSED? then 0 else 1)
  {
    var n := |ps| - 1;
    if i == n {
      assert ps[i := p][..n] == ps[..n];
    } else {
      InUseUpdate(ps[..n], i, p);
      assert ps[i := p][..n] == ps[..n][i := p];
    }
  }

  lemma {:induction false} AllocKeeps(ps: seq<Proc>, init: nat, nextpid: nat, exited: set<nat>, reaped: set<nat>, i: nat)
    requires Tree(ps, init) && Books(ps, nextpid, exited, reaped) && i < |ps| && ps[i].state.UNUSED?
    ensures var qs := ps[i := ps[i].(state := EMBRYO, pid := nextpid)];
            Tree(qs, init) && Books(qs, nextpid + 1, exited, reaped) && InUse(qs) == InUse(ps) + 1
  {
    hide Tree, Books, InUse;
    AllocTree(ps, init, nextpid, exited, reaped, i);
    AllocBooks(ps, init, nextpid, exited, reaped, i);
    InUseUpdate(ps, i, ps[i].(state := EMBRYO, pid := nextpid));
  }

  lemma {:induction false} AllocTree(ps: seq<Proc>, init: nat, nextpid: nat, exited: set<nat>, reaped: set<nat>, i: nat)
    requires Tree(ps, init) && Books(ps, nextpid, exited, reaped) && i < |ps| && ps[i].state.UNUSED?
    ensures Tree(ps[i := ps[i].(state := EMBRYO, pid := nextpid)], init)
  {
  }

  lemma {:induction false} AllocBooks(ps: seq<Proc>, init: nat, nextpid: nat, exited: set<nat>, reaped: set<nat>, i: nat)
    requires Tree(ps, init) && Books(ps, nextpid, exited, reaped) && i < |ps| && ps[i].state.UNUSED?
    ensures Books(ps[i := ps[i].(state := EMBRYO, pid := nextpid)], nextpid + 1, exited, reaped)
  {
    hide ParentsLive, Parented, NoZombieWaits;
  }

  lemma {:induction false} AbortKeeps(ps: seq<Proc>, init: nat, nextpid: nat, exited: set<nat>, reaped: set<nat>, i: nat)
    requires Tree(ps, init) && Books(ps, nextpid, exited, reaped) && i < |ps| && ps[i].state.EMBRYO? && ps[i].parent == NOBODY
    ensures var qs := ps[i := ps[i].(state := UNUSED)];
            Tree(qs, init) && Books(qs, nextpid, exited, reaped) && InUse(qs) == InUse(ps) - 1
  {
    hide Tree, Books, InUse;
    AbortTree(ps, init, nextpid, exited, reaped, i);
    AbortBooks(ps, init, nextpid, exited, reaped, i);
    InUseUpdate(ps, i, ps[i].(state := UNUSED));
  }

  lemma {:induction false} AbortTree(ps: seq<Proc>, init: nat, nextpid: nat, exited: set<nat>, reaped: set<nat>, i: nat)
    requires Tree(ps, init) && Books(ps, nextpid, exited, reaped) && i < |ps| && ps[i].state.EMBRYO? && ps[i].parent == NOBODY
    ensures Tree(ps[i := ps[i].(state := UNUSED)], init)
  {
    hide Books;
  }

  lemma {:induction false} AbortBooks(ps: seq<Proc>, init: nat, nextpid: nat, exited: set<nat>, reaped: set<nat>, i: nat)
    requires Tree(ps, init) && Books(ps, nextpid, exited, reaped) && i < |ps| && ps[i].state.EMBRYO? && ps[i].parent == NOBODY
    ensures Books(ps[i := ps[i].(state := UNUSED)], nextpid, exited, reaped)
  {
    hide ParentsLive, Parented, NoZombieWaits;
  }

  lemma {:induction false} ForkParentKeeps(ps: seq<Proc>, init: nat, nextpid: nat, exited: set<nat>, reaped: set<nat>, me: nat,
                                           np: nat)
    requires Tree(ps, init) && Books(ps, nextpid, exited, reaped) && me < |ps| && ps[me].state.RUNNING?
    requires np < |ps| && ps[np].state.EMBRYO?
    ensures var qs := ps[np := ps[np].(parent := me)];
            Tree(qs, init) && Books(qs, nextpid, exited, reaped) && InUse(qs) == InUse(ps)
  {
    hide Tree, Books, InUse;
    ForkParentTree(ps, init, nextpid, exited, reaped, me, np);
    ForkParentBooks(ps, init, nextpid, exited, reaped, me, np);
    InUseUpdate(ps, np, ps[np].(parent := me));
  }

  lemma {:induction false} ForkParentTree(ps: seq<Proc>, init: nat, nextpid: nat, exited: set<nat>, reaped: set<nat>, me: nat,
                                          np: nat)
    requires Tree(ps, init) && Books(ps, nextpid, exited, reaped) && me < |ps| && ps[me].state.RUNNING?
    requires np < |ps| && ps[np].state.EMBRYO?
    ensures Tree(ps[np := ps[np].(parent := me)], init)
  {
    hide Books;
  }

  lemma {:induction false} ForkParentBooks(ps: seq<Proc>, init: nat, nextpid: nat, exited: set<nat>, reaped: set<nat>, me: nat,
                                           np: nat)
    requires Tree(ps, init) && Books(ps, nextpid, exited, reaped) && me < |ps| && ps[me].state.RUNNING?
    requires np < |ps| && ps[np].state.EMBRYO?
    ensures Books(ps[np := ps[np].(parent := me)], nextpid, exited, reaped)
  {
    hide ParentsLive, Parented, NoZombieWaits;
  }

  /** A process with a parent may change between the live states, as long as it
      does not fall asleep in wait. */
  lemma {:induction false} StateKeeps(ps: seq<Proc>, init: nat, nextpid: nat, exited: set<nat>, reaped: set<nat>, i: nat,
                                      st: PState, c: Chan)
    requires Tree(ps, init) && Books(ps, nextpid, exited, reaped) && i < |ps|
    requires Live(ps[i]) || (ps[i].state.EMBRYO? && ps[i].parent != NOBODY)
    requires Live(ps[i].(state := st)) && (st.SLEEPING? ==> c != Slot(i))
    ensures var qs := ps[i := ps[i].(state := st, chan := c)];
            Tree(qs, init) && Books(qs, nextpid, exited, reaped) && InUse(qs) == InUse(ps)
  {
    hide Tree, Books, InUse;
    StateTree(ps, init, nextpid, exited, reaped, i, st, c);
    StateBooks(ps, init, nextpid, exited, reaped, i, st, c);
    InUseUpdate(ps, i, ps[i].(state := st, chan := c));
  }

  lemma {:induction false} StateTree(ps: seq<Proc>, init: nat, nextpid: nat, exited: set<nat>, reaped: set<nat>, i: nat,
                                     st: PState, c: Chan)
    requires Tree(ps, init) && Books(ps, nextpid, exited, reaped) && i < |ps|
    requires Live(ps[i]) || (ps[i].state.EMBRYO? && ps[i].parent != NOBODY)
    requires Live(ps[i].(state := st)) && (st.SLEEPING? ==> c != Slot(i))
    ensures Tree(ps[i := ps[i].(state := st, chan := c)], init)
  {
    hide Books;
  }

  lemma {:induction false} StateBooks(ps: seq<Proc>, init: nat, nextpid: nat, exited: set<nat>, reaped: set<nat>, i: nat,
                                      st: PState, c: Chan)
    requires Tree(ps, init) && Books(ps, nextpid, exited, reaped) && i < |ps|
    requires Live(ps[i]) || (ps[i].state.EMBRYO? && ps[i].parent != NOBODY)
    requires Live(ps[i].(state := st))
    ensures Books(ps[i := ps[i].(state := st, chan := c)], nextpid, exited, reaped)
  {
    hide ParentsLive, Parented, NoZombieWaits;
  }

  lemma {:induction false} InUseSame(ps: seq<Proc>, qs: seq<Proc>)
    requires |ps| == |qs| && forall i :: 0 <= i < |ps| ==> (ps[i].state.UNUSED? <==> qs[i].state.UNUSED?)
    ensures InUse(ps) == InUse(qs)
  {
    if ps != [] {
      InUseSame(ps[..|ps|-1], qs[..|qs|-1]);
    }
  }

  /** At most, some sleepers have become runnable. */
  ghost predicate Softened(ps: seq<Proc>, qs: seq<Proc>) {
    |qs| == |ps| && forall i :: 0 <= i < |ps| ==> qs[i] == ps[i] || (ps[i].state.SLEEPING? && qs[i] == ps[i].(state := RUNNABLE))
  }

  lemma {:induction false} SoftenTree(ps: seq<Proc>, qs: seq<Proc>, init: nat)
    requires Tree(ps, init) && Softened(ps, qs)
    ensures Tree(qs, init)
  {
    hide Tree, PidsDistinct, ParentsLive, Parented, NoZombieWaits;
    assert PidsDistinct(qs) by { SoftenPids(ps, qs, init); }
    SoftenParents(ps, qs, init);
    SoftenZombies(ps, qs, init);
    TreeIntro(qs, init);
  }

  lemma {:induction false} TreeIntro(ps: seq<Proc>, init: nat)
    requires PidsDistinct(ps) && ParentsLive(ps) && Parented(ps, init) && NoZombieWaits(ps)
    ensures Tree(ps, init)
  {
  }

  lemma {:induction false} SoftenPids(ps: seq<Proc>, qs: seq<Proc>, init: nat)
    requires Tree(ps, init) && Softened(ps, qs)
    ensures PidsDistinct(qs)
  {
    hide ParentsLive, Parented, NoZombieWaits;
  }

  lemma {:induction false} SoftenParents(ps: seq<Proc>, qs: seq<Proc>, init: nat)
    requires Tree(ps, init) && Softened(ps, qs)
    ensures ParentsLive(qs) && Parented(qs, init)
  {
    hide PidsDistinct, NoZombieWaits;
  }

  lemma {:induction false} SoftenZombies(ps: seq<Proc>, qs: seq<Proc>, init: nat)
    requires Tree(ps, init) && Softened(ps, qs)
    ensures NoZombieWaits(qs)
  {
    hide PidsDistinct, ParentsLive, Parented;
  }

  lemma {:induction false} SoftenBooks(ps: seq<Proc>, qs: seq<Proc>, nextpid: nat, exited: set<nat>, reaped: set<nat>)
    requires Books(ps, nextpid, exited, reaped) && Softened(ps, qs)
    ensures Books(qs, nextpid, exited, reaped)
  {
  }

  lemma {:induction false} WokenKeeps(ps: seq<Proc>, qs: seq<Proc>, init: nat, nextpid: nat, exited: set<nat>, reaped: set<nat>,
                                      c: Chan)
    requires Tree(ps, init) && Books(ps, nextpid, exited, reaped) && WokenFrom(ps, qs, c)
    ensures Tree(qs, init) && Books(qs, nextpid, exited, reaped) && InUse(qs) == InUse(ps)
  {
    hide Tree, Books, InUse;
    assert Softened(ps, qs);
    SoftenTree(ps, qs, init);
    SoftenBooks(ps, qs, nextpid, exited, reaped);
    InUseSame(ps, qs);
  }

  lemma {:induction false} KillKeeps(ps: seq<Proc>, init: nat, nextpid: nat, exited: set<nat>, reaped: set<nat>, i: nat)
    requires Tree(ps, init) && Books(ps, nextpid, exited, reaped) && i < |ps|
    ensures var qs := ps[i := Killed(ps[i])];
            Tree(qs, init) && Books(qs, nextpid, exited, reaped) && InUse(qs) == InUse(ps)
  {
    hide Tree, Books, InUse;
    KillTree(ps, init, nextpid, exited, reaped, i);
    KillBooks(ps, init, nextpid, exited, reaped, i);
    InUseUpdate(ps, i, Killed(ps[i]));
  }

  lemma {:induction false} KillTree(ps: seq<Proc>, init: nat, nextpid: nat, exited: set<nat>, reaped: set<nat>, i: nat)
    requires Tree(ps, init) && Books(ps, nextpid, exited, reaped) && i < |ps|
    ensures Tree(ps[i := Killed(ps[i])], init)
  {
    hide Books;
  }

  lemma {:induction false} KillBooks(ps: seq<Proc>, init: nat, nextpid: nat, exited: set<nat>, reaped: set<nat>, i: nat)
    requires Tree(ps, init) && Books(ps, nextpid, exited, reaped) && i < |ps|
    ensures Books(ps[i := Killed(ps[i])], nextpid, exited, reaped)
  {
    hide ParentsLive, Parented, NoZombieWaits;
  }

  lemma {:induction false} SelfFacts(ps: seq<Proc>, init: nat, me: nat)
    requires Tree(ps, init) && me < |ps| && ps[me].state.RUNNING? && me != init
    ensures ps[me].parent >= 0 && ps[me].parent != me && init < |ps|
  {
  }

  lemma {:induction false} ExitKeeps(ps: seq<Proc>, qs: seq<Proc>, init: nat, nextpid: nat, exited: set<nat>, reaped: set<nat>,
                                     me: nat)
    requires Tree(ps, init) && Books(ps, nextpid, exited, reaped) && me != init && me < |ps| && ps[me].state.RUNNING?
    requires LeftFrom(ps, qs, me, init)
    ensures Tree(qs, init) && Books(qs, nextpid, exited + {ps[me].pid}, reaped) && InUse(qs) == InUse(ps)
  {
    hide Tree, Books, InUse, PidsDistinct, ParentsLive, Parented, NoZombieWaits;
    ExitPids(ps, qs, init, me);
    ExitParents(ps, qs, init, me);
    ExitZombies(ps, qs, init, me);
    TreeIntro(qs, init);
    ExitBooks(ps, qs, init, nextpid, exited, reaped, me);
    InUseSame(ps, qs);
  }

  lemma {:induction false} ExitPids(ps: seq<Proc>, qs: seq<Proc>, init: nat, me: nat)
    requires Tree(ps, init) && me < |ps| && ps[me].state.RUNNING? && LeftFrom(ps, qs, me, init)
    ensures PidsDistinct(qs)
  {
    hide ParentsLive, Parented, NoZombieWaits;
    assert forall i :: 0 <= i < |ps| ==> qs[i].pid == ps[i].pid && (qs[i].state.UNUSED? <==> ps[i].state.UNUSED?);
  }

  /** What exit leaves of each slot. */
  ghost predicate Remains(p: Proc, q: Proc, me: nat, init: nat) {
    && (q.state == p.state || (p.state.SLEEPING? && q.state.RUNNABLE?))
    && q.chan == p.chan && q.parent == if p.parent == me then init else p.parent
  }

  predicate WaitingIn(ps: seq<Proc>, p: int) {
    0 <= p < |ps| && ps[p].state.SLEEPING? && ps[p].chan == Slot(p)
  }

  lemma {:induction false} LeftFacts(ps: seq<Proc>, qs: seq<Proc>, me: nat, init: nat)
    requires LeftFrom(ps, qs, me, init) && me != init && init < |ps| && ps[me].parent != me
    ensures |qs| == |ps| && qs[me].state.ZOMBIE? && qs[me].parent == ps[me].parent
    ensures forall i :: 0 <= i < |ps| && i != me ==> Remains(ps[i], qs[i], me, init)
    ensures !WaitingIn(qs, ps[me].parent)
    ensures forall j :: 0 <= j < |ps| && ps[j].parent == me && ps[j].state.ZOMBIE? ==> !WaitingIn(qs, init)
  {
  }

  lemma {:induction false} ExitParents(ps: seq<Proc>, qs: seq<Proc>, init: nat, me: nat)
    requires Tree(ps, init) && me != init && me < |ps| && ps[me].state.RUNNING? && LeftFrom(ps, qs, me, init)
    ensures ParentsLive(qs) && Parented(qs, init)
  {
    hide PidsDistinct, NoZombieWaits, LeftFrom;
    LeftFacts(ps, qs, me, init);
    forall i | 0 <= i < |qs| && qs[i].parent != NOBODY ensures 0 <= qs[i].parent < |qs| && Live(qs[qs[i].parent]) {
      var f := qs[i].parent;
      assert i == me || Remains(ps[i], qs[i], me, init);
      assert f != me && 0 <= f < |ps| && Live(ps[f]);
      assert Remains(ps[f], qs[f], me, init);
    }
    ExitParented(ps, qs, init, me);
  }

  lemma {:induction false} ExitParented(ps: seq<Proc>, qs: seq<Proc>, init: nat, me: nat)
    requires Parented(ps, init) && me != init && me < |ps| && ps[me].state.RUNNING? && |qs| == |ps|
    requires qs[me].state.ZOMBIE? && qs[me].parent == ps[me].parent
    requires forall i :: 0 <= i < |ps| && i != me ==> Remains(ps[i], qs[i], me, init)
    ensures Parented(qs, init)
  {
    assert Remains(ps[init], qs[init], me, init);
    forall i | 0 <= i < |qs|
      ensures i != init && (Live(qs[i]) || qs[i].state.ZOMBIE?) ==> qs[i].parent != NOBODY
      ensures (qs[i].state.UNUSED? ==> qs[i].parent == NOBODY) && qs[i].parent != i
    {
      assert i == me || Remains(ps[i], qs[i], me, init);
    }
  }

  /** Every zombie's parent was woken: the exiting process's own, and init for the inherited ones. */
  lemma {:induction false} ExitZombies(ps: seq<Proc>, qs: seq<Proc>, init: nat, me: nat)
    requires Tree(ps, init) && me != init && me < |ps| && ps[me].state.RUNNING? && LeftFrom(ps, qs, me, init)
    ensures NoZombieWaits(qs)
  {
    hide PidsDistinct, LeftFrom;
    LeftFacts(ps, qs, me, init);
    forall i | 0 <= i < |qs| && qs[i].state.ZOMBIE? && 0 <= qs[i].parent < |qs| ensures !WaitingIn(qs, qs[i].parent) {
      if i != me {
        assert Remains(ps[i], qs[i], me, init);
        assert qs[i].parent == me || Remains(ps[qs[i].parent], qs[qs[i].parent], me, init);
      }
    }
  }

  lemma {:induction false} ExitBooks(ps: seq<Proc>, qs: seq<Proc>, init: nat, nextpid: nat, exited: set<nat>, reaped: set<nat>,
                                     me: nat)
    requires Tree(ps, init) && Books(ps, nextpid, exited, reaped) && me < |ps| && ps[me].state.RUNNING?
    requires LeftFrom(ps, qs, me, init)
    ensures Books(qs, nextpid, exited + {ps[me].pid}, reaped)
  {
    hide ParentsLive, Parented, NoZombieWaits;
    assert forall i :: 0 <= i < |ps| ==> qs[i].pid == ps[i].pid;
    assert forall i :: 0 <= i < |ps| && i != me && !ps[i].state.UNUSED? ==> ps[i].pid != ps[me].pid;
  }

  lemma {:induction false} InUseCounts(ps: seq<Proc>)
    ensures InUse(ps) == |Occupied(ps)|
  {
    if ps != [] {
      var n := |ps| - 1;
      InUseCounts(ps[..n]);
      assert Occupied(ps) == Occupied(ps[..n]) + (if ps[n].state.UNUSED? then {} else {n});
    }
  }

  lemma {:induction false} WaitKeeps(ps: seq<Proc>, init: nat, nextpid: nat, exited: set<nat>, reaped: set<nat>, me: nat)
    requires Tree(ps, init) && Books(ps, nextpid, exited, reaped) && me < |ps| && ps[me].state.RUNNING?
    requires forall k :: 0 <= k < |ps| ==> !(ps[k].parent == me && ps[k].state.ZOMBIE?)
    ensures var qs := ps[me := ps[me].(state := SLEEPING, chan := Slot(me))];
            Tree(qs, init) && Books(qs, nextpid, exited, reaped) && InUse(qs) == InUse(ps)
  {
    hide Tree, Books, InUse;
    WaitTree(ps, init, me);
    StateBooks(ps, init, nextpid, exited, reaped, me, SLEEPING, Slot(me));
    InUseUpdate(ps, me, ps[me].(state := SLEEPING, chan := Slot(me)));
  }

  lemma {:induction false} WaitTree(ps: seq<Proc>, init: nat, me: nat)
    requires Tree(ps, init) && me < |ps| && ps[me].state.RUNNING?
    requires forall k :: 0 <= k < |ps| ==> !(ps[k].parent == me && ps[k].state.ZOMBIE?)
    ensures Tree(ps[me := ps[me].(state := SLEEPING, chan := Slot(me))], init)
  {
  }

  lemma {:induction false} ReapKeeps(ps: seq<Proc>, init: nat, nextpid: nat, exited: set<nat>, reaped: set<nat>, me: nat, k: nat)
    requires Tree(ps, init) && Books(ps, nextpid, exited, reaped) && k < |ps| && ps[k].parent == me && ps[k].state.ZOMBIE?
    ensures var qs := ps[k := Emptied(ps[k])];
            Tree(qs, init) && Books(qs, nextpid, exited, reaped + {ps[k].pid}) && InUse(qs) == InUse(ps) - 1
    ensures ps[k].pid in exited && ps[k].pid !in reaped
  {
    hide Tree, InUse;
    ReapTree(ps, init, k);
    ReapBooks(ps, init, nextpid, exited, reaped, k);
    InUseUpdate(ps, k, Emptied(ps[k]));
  }

  lemma {:induction false} ReapTree(ps: seq<Proc>, init: nat, k: nat)
    requires Tree(ps, init) && k < |ps| && ps[k].state.ZOMBIE?
    ensures Tree(ps[k := Emptied(ps[k])], init)
  {
  }

  lemma {:induction false} ReapBooks(ps: seq<Proc>, init: nat, nextpid: nat, exited: set<nat>, reaped: set<nat>, k: nat)
    requires Tree(ps, init) && Books(ps, nextpid, exited, reaped) && k < |ps| && ps[k].state.ZOMBIE?
    ensures Books(ps[k := Emptied(ps[k])], nextpid, exited, reaped + {ps[k].pid})
  {
    hide ParentsLive, Parented, NoZombieWaits;
    var qs := ps[k := Emptied(ps[k])];
    forall i | 0 <= i < |qs| && qs[i].state.ZOMBIE? ensures qs[i].pid in exited && qs[i].pid !in reaped + {ps[k].pid} {
      assert i != k && qs[i] == ps[i];
      assert if i < k then ps[i].pid != ps[k].pid else ps[k].pid != ps[i].pid;
    }
  }
}
