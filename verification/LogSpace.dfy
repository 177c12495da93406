/** How full the log gets: begin_op reserves MAXOPBLOCKS slots per operation, and log_write
    tests for a full log before it takes the lock, so that two processes can both pass the
    test and then fill more than the log holds. */
module LogSpace {
  import opened Blocks
  import opened DiskWrites
  import opened RedoLog
  import opened Sums
  import opened GroupCommit

  /** The callers' promise: an operation takes at most MAXOPBLOCKS new log slots. */
  predicate WithinBudget(s: State, step: Step) {
    step.LogWrite? && step.p in s.ops && step.blockno !in s.lh ==> s.ops[step.p].spent < MAXOPBLOCKS
  }

  ghost function Slack(ops: map<nat, Op>): map<nat, int> {
    map p | p in ops :: MAXOPBLOCKS - ops[p].spent
  }

  /** Slots taken plus slots still promised never exceed the log. */
  ghost predicate Space(s: State) {
    && (forall p :: p in s.ops ==> s.ops[p].spent <= MAXOPBLOCKS)
    && |s.lh| + Sum(Slack(s.ops)) <= LOGSIZE
  }

  lemma {:induction false} SlackBound(ops: map<nat, Op>)
    requires forall p :: p in ops ==> ops[p].spent <= MAXOPBLOCKS
    ensures 0 <= Sum(Slack(ops)) <= MAXOPBLOCKS * |ops|
  {
    SumBound(Slack(ops), MAXOPBLOCKS);
    assert Slack(ops).Keys == ops.Keys;
  }

  /** Entering or re-entering the table changes the slack by one entry. */
  lemma {:induction false} SlackPut(ops: map<nat, Op>, p: nat, op: Op)
    ensures Sum(Slack(ops[p := op])) ==
            Sum(Slack(ops)) + MAXOPBLOCKS - op.spent - (if p in ops then MAXOPBLOCKS - ops[p].spent else 0)
  {
    SumUpdate(Slack(ops), p, MAXOPBLOCKS - op.spent);
    assert Slack(ops[p := op]) == Slack(ops)[p := MAXOPBLOCKS - op.spent];
  }

  lemma {:induction false} SlackDrop(ops: map<nat, Op>, p: nat)
    requires p in ops
    ensures Sum(Slack(ops - {p})) == Sum(Slack(ops)) - (MAXOPBLOCKS - ops[p].spent)
  {
    SumRemove(Slack(ops), p);
    assert Slack(ops - {p}) == Slack(ops) - {p};
  }

  lemma {:induction false} SpaceStep(g: Layout, s: State, step: Step)
    requires Books(g, s) && Space(s) && Enabled(g, s, step) && WithinBudget(s, step)
    ensures Space(Next(g, s, step))
  {
    match step
    case BeginOp(p) =>
      SlackBound(s.ops);
      SlackPut(s.ops, p, Op(s.nextId, 0, false));
    case CheckLog(p) =>
      SlackPut(s.ops, p, s.ops[p].(passed := true));
    case LogWrite(p, b, data) =>
      var op := s.ops[p];
      SlackPut(s.ops, p, op.(spent := op.spent + (if b in s.lh then 0 else 1), passed := false));
    case EndOp(p) =>
      SlackDrop(s.ops, p);
    case _ =>
      SlackBound(s.ops);
  }

  ghost predicate BudgetedRun(g: Layout, base: Disk, states: seq<State>, steps: seq<Step>) {
    IsRun(g, base, states, steps) && forall i :: 0 <= i < |steps| ==> WithinBudget(states[i], steps[i])
  }

  lemma {:induction false} SpaceAlways(g: Layout, base: Disk, states: seq<State>, steps: seq<Step>, k: nat)
    requires BudgetedRun(g, base, states, steps) && k < |states|
    ensures Space(states[k])
  {
    if k > 0 {
      SpaceAlways(g, base, states, steps, k-1);
      RunBooks(g, base, states, steps, k-1);
      SpaceStep(g, states[k-1], steps[k-1]);
    }
  }

  /** Some run that keeps the promise, with nbuf buffers, ends in state s. */
  ghost predicate Reaches(g: Layout, base: Disk, nbuf: nat, s: State) {
    s.nbuf == nbuf && exists states: seq<State>, steps: seq<Step> :: BudgetedRun(g, base, states, steps) && states[|steps|] == s
  }

  lemma {:induction false} ReachInit(g: Layout, base: Disk, nbuf: nat, s: State)
    requires Init(g, base, s) && s.nbuf == nbuf
    ensures Reaches(g, base, nbuf, s)
  {
    assert BudgetedRun(g, base, [s], []);
  }

  lemma {:induction false} StepCache(g: Layout, s: State, step: Step)
    requires Enabled(g, s, step)
    ensures Next(g, s, step).nbuf == s.nbuf
  {
  }

  lemma {:induction false} ReachStep(g: Layout, base: Disk, nbuf: nat, s: State, step: Step)
    requires Reaches(g, base, nbuf, s) && Enabled(g, s, step) && WithinBudget(s, step)
    ensures Reaches(g, base, nbuf, Next(g, s, step))
  {
    hide Enabled, Next, WithinBudget, Init;
    StepCache(g, s, step);
    var states, steps :| BudgetedRun(g, base, states, steps) && states[|steps|] == s;
    assert BudgetedRun(g, base, states + [Next(g, s, step)], steps + [step]);
  }

  lemma {:induction false} ReachedSpace(g: Layout, base: Disk, nbuf: nat, s: State)
    requires Reaches(g, base, nbuf, s)
    ensures Space(s) && Books(g, s) && |s.lh| <= LOGSIZE
  {
    var states, steps :| BudgetedRun(g, base, states, steps) && states[|steps|] == s;
    SpaceAlways(g, base, states, steps, |steps|);
    RunBooks(g, base, states, steps, |steps|);
    SlackBound(s.ops);
  }

  lemma {:induction false} ReachedCache(g: Layout, base: Disk, nbuf: nat, s: State)
    requires Reaches(g, base, nbuf, s)
    ensures s.nbuf == nbuf
  {
  }

  /** The machine leaves one thing out: a write past lh.block. It needs a new block for a log of
      LOGSIZE blocks: an operation beyond its budget, and more than LOGSIZE buffers. */
  lemma {:induction false} ArrayHolds(g: Layout, base: Disk, states: seq<State>, steps: seq<Step>, k: nat, p: nat, b: Word, data: Block)
    requires IsRun(g, base, states, steps) && k < |states|
    requires !states[k].mode.Recovering? && p in states[k].ops && states[k].ops[p].passed && Recordable(g, states[k], b)
    ensures states[k].nbuf <= LOGSIZE ==> Enabled(g, states[k], LogWrite(p, b, data))
    ensures BudgetedRun(g, base, states, steps) && WithinBudget(states[k], LogWrite(p, b, data)) ==>
              Enabled(g, states[k], LogWrite(p, b, data))
  {
    RunBooks(g, base, states, steps, k);
    if BudgetedRun(g, base, states, steps) {
      SpaceAlways(g, base, states, steps, k);
      SlackDrop(states[k].ops, p);
      SlackBound(states[k].ops - {p});
    }
  }

  /** Process p is about to log a new block b, of which it holds a buffer, within its budget. */
  ghost predicate AppendDue(g: Layout, base: Disk, nbuf: nat, s: State, p: nat, b: Word) {
    Reaches(g, base, nbuf, s) && p in s.ops && b !in s.lh && s.ops[p].spent < MAXOPBLOCKS && |s.lh| < nbuf
  }

  /** If every operation keeps its promise, an append that is still within budget
      finds a slot below LOGSIZE; what can still stop it is only the second guard
      of log_write, the one on log.size. */
  lemma {:induction false} AppendFindsSlot(g: Layout, base: Disk, nbuf: nat, s: State, p: nat, b: Word)
    requires AppendDue(g, base, nbuf, s, p, b)
    ensures |s.lh| < LOGSIZE
    ensures TooBig(g, s) <==> |s.lh| >= g.size - 1
  {
    ReachedSpace(g, base, nbuf, s);
    SlackDrop(s.ops, p);
    SlackBound(s.ops - {p});
  }

  // ---------------------------------------- the reservation against log.size

  /** "An append within budget never panics." */
  ghost predicate NeverTooBig(g: Layout, base: Disk, nbuf: nat) {
    forall s: State, p: nat, b: Word :: AppendDue(g, base, nbuf, s, p, b) ==> !TooBig(g, s)
  }

  /** "The log never holds more blocks than it has room for." */
  ghost predicate NeverOverrun(g: Layout, base: Disk, nbuf: nat) {
    forall s: State :: Reaches(g, base, nbuf, s) ==> Fit(g, s)
  }

  /** "Whatever the run, a crash leaves whole operations." */
  ghost predicate AlwaysCrashFine(g: Layout, base: Disk, nbuf: nat) {
    forall s: State, cuts: seq<nat> :: Reaches(g, base, nbuf, s) && CutsOk(g, s.disk, cuts) ==> CrashFine(g, base, s, cuts)
  }

  /** The i-th home block used by the runs below; the block right behind the log is not among them. */
  function Home(g: Layout, i: int): int { g.start + g.size + 1 + i }

  /** k blocks are logged, by three processes in turn; those in `passed` are inside log_write. */
  ghost predicate Filled(g: Layout, base: Disk, s: State, k: nat, passed: set<nat>) {
    && s.mode.Up? && s.lh == seq(k, i => Home(g, i)) && s.outstanding == 3
    && s.ops.Keys == {0, 1, 2} && |s.view| == |base| && s.disk == base && s.durable == 0
    && forall p :: p in {0, 1, 2} ==> s.ops[p].spent == (k + 2 - p) / 3 && (s.ops[p].passed <==> p in passed)
  }

  /** The disk has room for the runs below. */
  predicate Roomy(g: Layout, base: Disk) {
    LogEmpty(g, base) && Home(g, LOGSIZE) <= |base| <= 0x1_0000_0000
  }

  lemma {:induction false} FillingRun(g: Layout, base: Disk, nbuf: nat, k: nat) returns (s: State)
    requires Roomy(g, base) && k <= g.size - 1 && k <= LOGSIZE && k <= nbuf
    ensures Reaches(g, base, nbuf, s) && Filled(g, base, s, k, {})
  {
    if k == 0 {
      s := ThreeBegin(g, base, nbuf);
    } else {
      var r := FillingRun(g, base, nbuf, k-1);
      assert !TooBig(g, r);
      s := LogOne(g, base, nbuf, r, k-1, ZeroBlock());
    }
  }

  lemma {:induction false} ThreeBegin(g: Layout, base: Disk, nbuf: nat) returns (s: State)
    requires Roomy(g, base)
    ensures Reaches(g, base, nbuf, s) && Filled(g, base, s, 0, {})
  {
    s := State(0, false, [], map[], base, base, Up, [], [], 0, {}, 0, nbuf);
    ReachInit(g, base, nbuf, s);
    ReachStep(g, base, nbuf, s, BeginOp(0));
    s := Next(g, s, BeginOp(0));
    ReachStep(g, base, nbuf, s, BeginOp(1));
    s := Next(g, s, BeginOp(1));
    ReachStep(g, base, nbuf, s, BeginOp(2));
    s := Next(g, s, BeginOp(2));
  }

  /** Process k % 3 logs one more block. */
  lemma {:induction false} LogOne(g: Layout, base: Disk, nbuf: nat, s: State, k: nat, data: Block) returns (t: State)
    requires Roomy(g, base) && Reaches(g, base, nbuf, s) && Filled(g, base, s, k, {}) && k < LOGSIZE && k < nbuf && !TooBig(g, s)
    ensures Reaches(g, base, nbuf, t) && Filled(g, base, t, k + 1, {})
  {
    var p := k % 3;
    ReachStep(g, base, nbuf, s, CheckLog(p));
    var m := Next(g, s, CheckLog(p));
    AppendOne(g, base, m, k, data, {p});
    var step := LogWrite(p, Home(g, k), data);
    ReachStep(g, base, nbuf, m, step);
    t := Next(g, m, step);
    assert {p} - {p} == {};
  }

  lemma {:induction false} AppendOne(g: Layout, base: Disk, s: State, k: nat, data: Block, passed: set<nat>)
    requires Roomy(g, base) && Filled(g, base, s, k, passed) && k < LOGSIZE && k < s.nbuf && k % 3 in passed
    ensures var step := LogWrite(k % 3, Home(g, k), data);
            && Enabled(g, s, step) && WithinBudget(s, step)
            && Filled(g, base, Next(g, s, step), k + 1, passed - {k % 3})
            && Home(g, k) < |s.view| && Next(g, s, step).view == s.view[Home(g, k) := data]
  {
    var step := LogWrite(k % 3, Home(g, k), data);
    assert k % 3 in {0, 1, 2};
    assert Home(g, k) !in s.lh;
    var t := Next(g, s, step);
    assert t.lh == seq(k+1, i => Home(g, i));
  }

  // ----------------------------------------------------------- overrunning

  /** One block short of full, two processes pass the test; then both append. */
  lemma {:induction false} OverfullRun(g: Layout, base: Disk, nbuf: nat, data: Block) returns (s: State)
    requires Roomy(g, base) && 2 <= g.size <= LOGSIZE && g.size <= nbuf
    ensures Reaches(g, base, nbuf, s) && Filled(g, base, s, g.size, {})
    ensures s.view[Home(g, g.size - 1)] == data
  {
    hide Enabled, Next, WithinBudget, Reaches, Filled;
    var k := g.size - 2;
    var p, q := k % 3, (k + 1) % 3;
    s := FillingRun(g, base, nbuf, k);
    assert p in {0, 1, 2} && q in {0, 1, 2} && p != q;
    s := BothPass(g, base, nbuf, s, k, p, q);
    ReachedCache(g, base, nbuf, s);
    AppendOne(g, base, s, k, ZeroBlock(), {p, q});
    ReachStep(g, base, nbuf, s, LogWrite(p, Home(g, k), ZeroBlock()));
    s := Next(g, s, LogWrite(p, Home(g, k), ZeroBlock()));
    assert {p, q} - {p} == {q} && {q} - {q} == {};
    ReachedCache(g, base, nbuf, s);
    AppendOne(g, base, s, k + 1, data, {q});
    ReachStep(g, base, nbuf, s, LogWrite(q, Home(g, k + 1), data));
    s := Next(g, s, LogWrite(q, Home(g, k + 1), data));
  }

  lemma {:induction false} BothPass(g: Layout, base: Disk, nbuf: nat, s: State, k: nat, p: nat, q: nat) returns (t: State)
    requires Reaches(g, base, nbuf, s) && Filled(g, base, s, k, {}) && k < LOGSIZE && k < g.size - 1
    requires p in {0, 1, 2} && q in {0, 1, 2} && p != q
    ensures Reaches(g, base, nbuf, t) && Filled(g, base, t, k, {p, q})
  {
    hide Enabled, Next, WithinBudget, Reaches, Filled;
    PassOne(g, base, s, k, p, {});
    ReachStep(g, base, nbuf, s, CheckLog(p));
    t := Next(g, s, CheckLog(p));
    PassOne(g, base, t, k, q, {} + {p});
    ReachStep(g, base, nbuf, t, CheckLog(q));
    t := Next(g, t, CheckLog(q));
    assert {} + {p} + {q} == {p, q};
  }

  lemma {:induction false} PassOne(g: Layout, base: Disk, s: State, k: nat, p: nat, passed: set<nat>)
    requires Filled(g, base, s, k, passed) && k < LOGSIZE && k < g.size - 1 && p in {0, 1, 2} && p !in passed
    ensures Enabled(g, s, CheckLog(p)) && WithinBudget(s, CheckLog(p))
    ensures Filled(g, base, Next(g, s, CheckLog(p)), k, passed + {p})
  {
  }

  /** Commit has made j writes of an overfull log, and has not published it. */
  ghost predicate Spilling(g: Layout, base: Disk, s: State, data: Block, j: nat)
    requires Roomy(g, base) && 2 <= g.size <= LOGSIZE
  {
    && s.mode.Committing? && s.mode.done == j && s.lh == seq(g.size, i => Home(g, i))
    && |s.view| == |s.disk| == |base| && s.durable == 0
    && s.disk[g.start] == base[g.start] && s.view[Home(g, g.size - 1)] == data
    && (j == 0 ==> s.disk == base) && (j == g.size ==> s.disk[g.start + g.size] == data)
  }

  /** All three operations end, and commit begins. */
  lemma {:induction false} ThreeEnd(g: Layout, base: Disk, nbuf: nat, s: State, data: Block) returns (t: State)
    requires Roomy(g, base) && 2 <= g.size <= LOGSIZE && Reaches(g, base, nbuf, s) && Filled(g, base, s, g.size, {})
    requires s.view[Home(g, g.size - 1)] == data
    ensures Reaches(g, base, nbuf, t) && Spilling(g, base, t, data, 0)
  {
    ReachStep(g, base, nbuf, s, EndOp(0));
    t := Next(g, s, EndOp(0));
    ReachStep(g, base, nbuf, t, EndOp(1));
    t := Next(g, t, EndOp(1));
    ReachStep(g, base, nbuf, t, EndOp(2));
    t := Next(g, t, EndOp(2));
  }

  /** write_log goes through the log and one block further. */
  lemma {:induction false} Spill(g: Layout, base: Disk, nbuf: nat, s: State, data: Block, j: nat) returns (t: State)
    requires Roomy(g, base) && 2 <= g.size <= LOGSIZE && g.size < nbuf
    requires Reaches(g, base, nbuf, s) && Spilling(g, base, s, data, j) && j <= g.size
    ensures Reaches(g, base, nbuf, t) && Spilling(g, base, t, data, g.size)
    decreases g.size - j
  {
    t := s;
    if j < g.size {
      SpillStep(g, base, s, data, j);
      ReachStep(g, base, nbuf, s, CommitWrite);
      t := Spill(g, base, nbuf, Next(g, s, CommitWrite), data, j + 1);
    }
  }

  lemma {:induction false} SpillStep(g: Layout, base: Disk, s: State, data: Block, j: nat)
    requires Roomy(g, base) && 2 <= g.size <= LOGSIZE && g.size < s.nbuf && Spilling(g, base, s, data, j) && j < g.size
    ensures Enabled(g, s, CommitWrite) && WithinBudget(s, CommitWrite)
    ensures Spilling(g, base, Next(g, s, CommitWrite), data, j + 1)
  {
    assert s.lh[j] == Home(g, j);
  }

  /** Within the budget, in a log of 2 to LOGSIZE blocks and with more buffers than that, a commit
      can overwrite the block behind the log: nothing was published, and yet recovery leaves that
      block changed. */
  lemma {:induction false} OverrunCorrupts(g: Layout, base: Disk, nbuf: nat) returns (s: State)
    requires Roomy(g, base) && 2 <= g.size <= LOGSIZE && g.size < nbuf
    ensures Reaches(g, base, nbuf, s) && !Fit(g, s) && s.durable == 0 && |s.disk| == |base|
    ensures Recoverable(g, s.disk) && Recovered(g, s.disk)[g.start + g.size] != base[g.start + g.size]
  {
    var h := g.start + g.size;
    var data := OtherBlock(base[h]);
    s := OverfullRun(g, base, nbuf, data);
    s := ThreeEnd(g, base, nbuf, s, data);
    s := Spill(g, base, nbuf, s, data, 0);
    EmptyRecovers(g, s.disk);
  }

  /** With exactly that many buffers, the same run ends in commit's panic, before its first write. */
  lemma {:induction false} OverrunStops(g: Layout, base: Disk, nbuf: nat) returns (s: State)
    requires Roomy(g, base) && 2 <= g.size <= LOGSIZE && g.size == nbuf
    ensures Reaches(g, base, nbuf, s) && !Fit(g, s) && s.disk == base
    ensures s.mode.Committing? && !Enabled(g, s, CommitWrite) && !Enabled(g, s, FinishCommit)
  {
    s := OverfullRun(g, base, nbuf, ZeroBlock());
    s := ThreeEnd(g, base, nbuf, s, ZeroBlock());
  }

  function OtherBlock(b: Block): (r: Block)
    ensures r != b
  {
    if b[0] == 0 then b[0 := 1] else b[0 := 0]
  }

  /** A log without log blocks logs nothing. */
  ghost predicate NothingLogged(s: State) {
    s.lh == [] && forall p :: p in s.ops ==> !s.ops[p].passed
  }

  lemma {:induction false} NoLogBlocks(g: Layout, base: Disk, states: seq<State>, steps: seq<Step>, k: nat)
    requires IsRun(g, base, states, steps) && k < |states| && g.size == 1
    ensures NothingLogged(states[k])
  {
    if k > 0 {
      NoLogBlocks(g, base, states, steps, k-1);
      NothingStep(g, states[k-1], steps[k-1]);
    }
  }

  lemma {:induction false} NothingStep(g: Layout, s: State, step: Step)
    requires NothingLogged(s) && g.size == 1 && Enabled(g, s, step)
    ensures NothingLogged(Next(g, s, step))
  {
  }

  /** A log that takes all that begin_op lets in: a header block and LOGSIZE more, or a header alone. */
  predicate LongEnough(g: Layout) { g.size >= LOGSIZE + 1 || g.size == 1 }

  lemma {:induction false} RunSafe(g: Layout, base: Disk, states: seq<State>, steps: seq<Step>, k: nat)
    requires BudgetedRun(g, base, states, steps) && k < |states|
    ensures LongEnough(g) || g.size > states[k].nbuf ==> Fit(g, states[k])
    ensures LongEnough(g) || g.size >= states[k].nbuf ==> Safe(g, states[k])
  {
    RunBooks(g, base, states, steps, k);
    SpaceAlways(g, base, states, steps, k);
    SlackBound(states[k].ops);
    if g.size == 1 { NoLogBlocks(g, base, states, steps, k); }
  }

  lemma {:induction false} SameCache(g: Layout, base: Disk, states: seq<State>, steps: seq<Step>, i: nat, k: nat)
    requires IsRun(g, base, states, steps) && i <= k < |states|
    ensures states[i].nbuf == states[k].nbuf
  {
    if i < k { SameCache(g, base, states, steps, i, k-1); }
  }

  lemma {:induction false} ReachedSafe(g: Layout, base: Disk, nbuf: nat, s: State, cuts: seq<nat>)
    requires Reaches(g, base, nbuf, s)
    ensures LongEnough(g) || g.size > nbuf ==> Fit(g, s)
    ensures LongEnough(g) || g.size >= nbuf ==> (CutsOk(g, s.disk, cuts) ==> CrashFine(g, base, s, cuts))
  {
    hide Fit, Safe, Enabled, Next, Init, WithinBudget, CrashFine;
    var states, steps :| BudgetedRun(g, base, states, steps) && states[|steps|] == s;
    var k := |steps|;
    RunSafe(g, base, states, steps, k);
    if (LongEnough(g) || g.size >= nbuf) && CutsOk(g, s.disk, cuts) {
      forall i | 0 <= i <= k && i < |states| ensures Safe(g, states[i]) {
        RunSafe(g, base, states, steps, i);
        SameCache(g, base, states, steps, i, k);
      }
      CrashRecoversWholeOperations(g, base, states, steps, k, cuts);
    }
  }

  /** Within the budget, the log is never overrun if and only if it has a header block and LOGSIZE
      more (or no log block at all), or more blocks than there are buffers to fill it from. mkfs makes
      it LOGSIZE blocks long. Crash safety in every run holds if and only if the log is never overrun
      or has as many blocks as there are buffers: then a commit of an overfull log panics before it
      writes anything. */
  lemma {:induction false} CrashSafetyNeeds(g: Layout, base: Disk, nbuf: nat)
    requires Roomy(g, base)
    ensures NeverOverrun(g, base, nbuf) <==> LongEnough(g) || g.size > nbuf
    ensures AlwaysCrashFine(g, base, nbuf) <==> LongEnough(g) || g.size >= nbuf
  {
    if LongEnough(g) || g.size >= nbuf {
      forall s: State, cuts: seq<nat> | Reaches(g, base, nbuf, s) && CutsOk(g, s.disk, cuts) ensures CrashFine(g, base, s, cuts) {
        ReachedSafe(g, base, nbuf, s, cuts);
      }
    } else {
      var s := OverrunCorrupts(g, base, nbuf);
      NotFine(g, base, s);
    }
    if LongEnough(g) || g.size > nbuf {
      forall s: State | Reaches(g, base, nbuf, s) ensures Fit(g, s) {
        ReachedSafe(g, base, nbuf, s, []);
      }
    } else {
      var s := OverfullRun(g, base, nbuf, ZeroBlock());
      assert !Fit(g, s);
    }
  }

  /** The constants of param.h and mkfs: LOGSIZE log.size blocks and LOGSIZE buffers. Two processes
      can overrun the log, but no run loses crash safety. */
  lemma {:induction false} ShippedConstants(base: Disk, start: nat) returns (s: State)
    requires Roomy(Layout(start, LOGSIZE), base)
    ensures AlwaysCrashFine(Layout(start, LOGSIZE), base, NBUF)
    ensures Reaches(Layout(start, LOGSIZE), base, NBUF, s) && !Fit(Layout(start, LOGSIZE), s)
    ensures s.mode.Committing? && !Enabled(Layout(start, LOGSIZE), s, CommitWrite)
  {
    CrashSafetyNeeds(Layout(start, LOGSIZE), base, NBUF);
    s := OverrunStops(Layout(start, LOGSIZE), base, NBUF);
  }

  const NBUF := 30   // MAXOPBLOCKS * 3

  lemma {:induction false} NotFine(g: Layout, base: Disk, s: State)
    requires Fits(g, base) && g.start + g.size < |base| && s.durable == 0
    requires Recoverable(g, s.disk) && g.start + g.size < |s.disk|
    requires Recovered(g, s.disk)[g.start + g.size] != base[g.start + g.size]
    ensures CutsOk(g, s.disk, []) && !CrashFine(g, base, s, [])
  {
    assert s.writes[..0] == [];
    assert !g.InLog(g.start + g.size);
  }

  /** The reservation made by begin_op keeps an append within budget from the panic exactly when
      the log has a header block and LOGSIZE more, or more blocks than there are buffers: otherwise
      three operations that each keep their promise can still panic the kernel. */
  lemma {:induction false} ReservationSuffices(g: Layout, base: Disk, nbuf: nat)
    requires Roomy(g, base)
    ensures NeverTooBig(g, base, nbuf) <==> g.size >= LOGSIZE + 1 || g.size > nbuf
    ensures NeverTooBig(g, base, nbuf) ==> NeverOverrun(g, base, nbuf) && AlwaysCrashFine(g, base, nbuf)
  {
    CrashSafetyNeeds(g, base, nbuf);
    if g.size >= LOGSIZE + 1 || g.size > nbuf {
      forall s: State, p: nat, b: Word | AppendDue(g, base, nbuf, s, p, b) ensures !TooBig(g, s) {
        AppendFindsSlot(g, base, nbuf, s, p, b);
      }
    } else {
      var s := FillingRun(g, base, nbuf, g.size - 1);
      var p, b := (g.size - 1) % 3, Home(g, g.size - 1);
      assert AppendDue(g, base, nbuf, s, p, b) && TooBig(g, s);
    }
  }

  /** Some run within the budget lets a process that rewrites a block already logged meet a full log. */
  ghost predicate AbsorbingPanics(g: Layout, base: Disk, nbuf: nat) {
    exists s: State, p: nat :: Reaches(g, base, nbuf, s) && p in s.ops && !s.ops[p].passed && s.lh != [] && TooBig(g, s)
  }

  /** Absorption does not help a full log, because the test runs before the search. However long the
      log, if the cache can hold as many blocks, a run within the budget fills it, and then rewriting
      a logged block panics although it needs no slot. */
  lemma {:induction false} AbsorbingWritePanics(g: Layout, base: Disk, nbuf: nat)
    requires Roomy(g, base)
    ensures AbsorbingPanics(g, base, nbuf) <==> g.size >= 2 && (nbuf >= g.size - 1 || nbuf >= LOGSIZE)
  {
    if g.size >= 2 && (nbuf >= g.size - 1 || nbuf >= LOGSIZE) {
      var s := FillingRun(g, base, nbuf, if g.size - 1 < LOGSIZE then g.size - 1 else LOGSIZE);
      assert 0 in s.ops && !s.ops[0].passed && TooBig(g, s) && s.lh != [];
    } else {
      forall s: State | Reaches(g, base, nbuf, s) ensures s.lh == [] || !TooBig(g, s) {
        SmallCache(g, base, nbuf, s);
      }
    }
  }

  lemma {:induction false} SmallCache(g: Layout, base: Disk, nbuf: nat, s: State)
    requires Reaches(g, base, nbuf, s)
    ensures |s.lh| <= nbuf && (g.size == 1 ==> s.lh == [])
    ensures Fits(g, base)
  {
    var states, steps :| BudgetedRun(g, base, states, steps) && states[|steps|] == s;
    RunBooks(g, base, states, steps, |steps|);
    if g.size == 1 { NoLogBlocks(g, base, states, steps, |steps|); }
  }
}
