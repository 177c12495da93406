/** begin_op, log_write, end_op and commit run by any number of processes, with
    crashes at every block write.

    Each step is one critical section of log.c, one disk write, or the test that
    log_write makes before it takes the lock; a run is any interleaving. The theorem
    at the end: as long as no commit begins with more blocks than the log has room for, a
    crash now followed by recovery leaves exactly the file system of a prefix of the
    logged writes, and that prefix consists of whole, finished operations. */
module GroupCommit {
  import opened Blocks
  import opened DiskWrites
  import opened RedoLog
  import opened Sums

  /** A process between begin_op and end_op: its operation number, how many log slots
      it has taken, and whether it is in log_write and has passed the test there. */
  datatype Op = Op(id: nat, spent: nat, passed: bool)

  datatype Mode =
    | Up                                  // taking operations
    | Committing(from: Disk, mark: nat, done: nat) // commit() has made `done` writes to `from`
    | Recovering(from: Disk, done: nat)   // recover_from_log() has made `done` writes to `from`

  /** outstanding, committing and lh are the fields of struct log; `ops` are the
      processes inside an operation; `view` is what the buffer cache serves.
      writes[i] is the i-th logged write ever made, by operation author[i]; the first
      `durable` of them are the ones the last commit published. nbuf is the size of the
      buffer cache, which commit needs a place in. */
  datatype State = State(
    outstanding: int, committing: bool, lh: seq<Word>,
    ops: map<nat, Op>,
    view: Disk, disk: Disk, mode: Mode,
    writes: seq<Write<Block>>, author: seq<nat>, durable: nat, ended: set<nat>, nextId: nat,
    nbuf: nat)

  datatype Step =
    | BeginOp(p: nat)
    | CheckLog(p: nat)                                // log_write's test, made without the lock
    | LogWrite(p: nat, blockno: Word, data: Block)    // the rest of log_write
    | EndOp(p: nat)
    | CommitWrite
    | FinishCommit
    | Crash
    | RecoverWrite
    | Boot

  /** begin_op waits while a commit is running or the log might overflow. */
  predicate Admits(s: State) {
    !s.committing && |s.lh| + (s.outstanding + 1) * MAXOPBLOCKS <= LOGSIZE
  }

  /** log_write panics on a full log, before it looks for the block in the log. */
  predicate TooBig(g: Layout, s: State) {
    |s.lh| >= LOGSIZE || |s.lh| >= g.size - 1
  }

  /** commit's k-th write, each block read from the cache when its turn comes. */
  function CommitWriteAt(g: Layout, lh: seq<Word>, view: Disk, k: nat): Write<Block>
    requires CommitRange(g, lh, view) && k < 2 * |lh| + 2
  {
    var n := |lh|;
    if k < n then Write(g.LogBlock(k), view[lh[k]])
    else if k == n then Write(g.start, EncodeHead(view[g.start], lh))
    else if k <= 2 * n then Write(lh[k-n-1], view[g.LogBlock(k-n-1)])
    else Write(g.start, EncodeHead(view[g.start], []))
  }

  /** Every block that commit reads or writes exists; some may lie behind the log. */
  predicate CommitRange(g: Layout, lh: seq<Word>, view: Disk) {
    |lh| <= LOGSIZE && g.start + |lh| < |view| && forall i :: 0 <= i < |lh| ==> lh[i] < |view|
  }

  function Append(lh: seq<Word>, b: Word): (r: seq<Word>) {
    if b in lh then lh else lh + [b]
  }

  /** A process can hold a buffer of home block b: every logged block pins one of its own. */
  predicate Recordable(g: Layout, s: State, b: Word) {
    b < |s.view| && !g.InLog(b) && (b in s.lh || |s.lh| < s.nbuf)
  }

  /** A step of LogWrite puts a new block behind the others in lh.block, which has LOGSIZE entries. */
  predicate Enabled(g: Layout, s: State, step: Step) {
    match step
    case BeginOp(p) => s.mode.Up? && p !in s.ops && Admits(s)
    case CheckLog(p) => !s.mode.Recovering? && p in s.ops && !s.ops[p].passed && !TooBig(g, s)
    case LogWrite(p, b, _) =>
      !s.mode.Recovering? && p in s.ops && s.ops[p].passed && Recordable(g, s, b) && (b in s.lh || |s.lh| < LOGSIZE)
    case EndOp(p) => !s.mode.Recovering? && p in s.ops && !s.ops[p].passed
    case CommitWrite =>
      // with as many logged blocks as buffers, write_log panics at its first read (LogManager.Log.WriteLog)
      && s.mode.Committing? && s.lh != [] && |s.lh| < s.nbuf && CommitRange(g, s.lh, s.view) && |s.disk| == |s.view|
      && s.mode.done < 2 * |s.lh| + 2
    case FinishCommit =>
      s.mode.Committing? && s.mode.done == if s.lh == [] then 0 else 2 * |s.lh| + 2
    case Crash => true
    case RecoverWrite =>
      && s.mode.Recovering? && Recoverable(g, s.mode.from)
      && s.mode.done < |RecoverWrites(g, s.mode.from)|
      && RecoverWrites(g, s.mode.from)[s.mode.done].blockno < |s.disk|
    case Boot =>
      && s.mode.Recovering? && Recoverable(g, s.mode.from)
      && s.mode.done == |RecoverWrites(g, s.mode.from)|
  }

  predicate CommitOk(g: Layout, from: Disk, lh: seq<Word>, view: Disk) {
    Fits(g, from) && |view| == |from| && TxOk(g, from, lh) && |lh| <= LOGSIZE
  }

  function Next(g: Layout, s: State, step: Step): (t: State)
    requires Enabled(g, s, step)
  {
    match step
    case BeginOp(p) =>
      s.(outstanding := s.outstanding + 1, ops := s.ops[p := Op(s.nextId, 0, false)], nextId := s.nextId + 1)
    case CheckLog(p) => s.(ops := s.ops[p := s.ops[p].(passed := true)])
    case LogWrite(p, b, data) =>
      var op := s.ops[p];
      s.(lh := Append(s.lh, b),
         ops := s.ops[p := op.(spent := op.spent + (if b in s.lh then 0 else 1), passed := false)],
         view := s.view[b := data],
         writes := s.writes + [Write(b, data)], author := s.author + [op.id])
    case EndOp(p) =>
      var t := s.(outstanding := s.outstanding - 1, ops := s.ops - {p}, ended := s.ended + {s.ops[p].id});
      if t.outstanding == 0 then t.(committing := true, mode := Committing(s.disk, s.durable, 0)) else t
    case CommitWrite =>
      var w := CommitWriteAt(g, s.lh, s.view, s.mode.done);
      s.(disk := s.disk[w.blockno := w.data], view := s.view[w.blockno := w.data],
         mode := Committing(s.mode.from, s.mode.mark, s.mode.done + 1),
         durable := if s.mode.done == |s.lh| then |s.writes| else s.durable)
    case FinishCommit =>
      s.(committing := false, lh := [], mode := Up)
    case Crash =>
      // memory is gone; what was never published never happened
      s.(outstanding := 0, committing := false, lh := [], ops := map[],
         mode := Recovering(s.disk, 0),
         writes := if s.durable <= |s.writes| then s.writes[..s.durable] else s.writes,
         author := if s.durable <= |s.author| then s.author[..s.durable] else s.author)
    case RecoverWrite =>
      var w := RecoverWrites(g, s.mode.from)[s.mode.done];
      s.(disk := s.disk[w.blockno := w.data], mode := Recovering(s.mode.from, s.mode.done + 1))
    case Boot =>
      s.(view := s.disk, mode := Up)
  }

  /** A machine that has just recovered disk `base`. */
  predicate Init(g: Layout, base: Disk, s: State) {
    && LogEmpty(g, base)
    && s == State(0, false, [], map[], base, base, Up, [], [], 0, {}, 0, s.nbuf)
  }

  // ------------------------------------------------------------ invariant

  /** The bookkeeping of struct log, kept by every run. */
  ghost predicate Books(g: Layout, s: State) {
    && s.outstanding == |s.ops|
    && (s.committing <==> s.mode.Committing?)
    && (s.committing ==> s.outstanding == 0)
    && (s.mode.Recovering? ==> s.outstanding == 0 && s.lh == [])
    && (s.mode.Up? && s.outstanding == 0 ==> s.lh == [])
    && Distinct(s.lh) && (forall i :: 0 <= i < |s.lh| ==> s.lh[i] < |s.view| && !g.InLog(s.lh[i]))
    && |s.view| == |s.disk| && |s.lh| <= s.nbuf
  }

  /** The log holds no more blocks than there are log blocks and header entries. */
  predicate Fit(g: Layout, s: State) { |s.lh| <= g.size - 1 && |s.lh| <= LOGSIZE }

  /** The log fits, or it holds so many blocks that commit cannot begin. */
  predicate Safe(g: Layout, s: State) { |s.lh| <= LOGSIZE && (|s.lh| <= g.size - 1 || |s.lh| >= s.nbuf) }

  /** Operation numbers are fresh, and published writes belong to finished operations. */
  ghost predicate Whole(s: State) {
    && |s.author| == |s.writes| && s.durable <= |s.writes|
    && (forall p :: p in s.ops ==> s.ops[p].id < s.nextId && s.ops[p].id !in s.ended)
    && (forall p, q :: p in s.ops && q in s.ops && s.ops[p].id == s.ops[q].id ==> p == q)
    && (forall i :: i in s.ended ==> i < s.nextId)
    && (forall i :: 0 <= i < s.durable ==> s.author[i] in s.ended)
    && (forall i :: 0 <= i < |s.author| ==> s.author[i] in s.ended || exists p :: p in s.ops && s.ops[p].id == s.author[i])
    && (s.mode.Committing? || s.mode.Recovering? ==> forall i :: 0 <= i < |s.author| ==> s.author[i] in s.ended)
    && (forall i, j :: 0 <= i < s.durable <= j < |s.author| ==> s.author[i] != s.author[j])
  }

  /** d shows the home blocks as the first n logged writes leave them. */
  ghost predicate HomeIs(g: Layout, base: Disk, writes: seq<Write<Block>>, n: nat, d: Disk) {
    && n <= |writes| && WritesOk(base, writes)
    && SameHome(g, d, Apply(base, writes[..n]))
  }

  /** Where the data is: a clean disk plus the blocks the log is holding back. */
  ghost predicate Pending(g: Layout, base: Disk, writes: seq<Write<Block>>, lh: seq<Word>, view: Disk, d: Disk, n: nat) {
    && LogEmpty(g, d) && |view| == |d|
    && HomeIs(g, base, writes, n, d)
    && HomeIs(g, base, writes, |writes|, view)
    && (forall b :: 0 <= b < |d| && !g.InLog(b) && b !in lh ==> view[b] == d[b])
    && (lh == [] ==> n == |writes|)
  }

  /** The cache shows the log blocks as they are on disk. */
  ghost predicate LogSame(g: Layout, view: Disk, d: Disk) {
    |view| == |d| && forall b :: 0 <= b < |d| && g.InLog(b) ==> view[b] == d[b]
  }

  ghost predicate Data(g: Layout, base: Disk, s: State) {
    match s.mode
    case Up => Pending(g, base, s.writes, s.lh, s.view, s.disk, s.durable) && LogSame(g, s.view, s.disk)
    case Committing(from, mark, done) =>
      && Pending(g, base, s.writes, s.lh, s.view, from, mark) && LogSame(g, s.view, s.disk)
      && s.durable == (if done <= |s.lh| then mark else |s.writes|)
      && if Fit(g, s) then
           CommitOk(g, from, s.lh, s.view) && After(from, CommitWrites(g, from, s.lh, s.view), done, s.disk)
         else done == 0 && s.disk == from
    case Recovering(from, done) =>
      && Recoverable(g, from) && s.durable == |s.writes|
      && HomeIs(g, base, s.writes, |s.writes|, Recovered(g, from))
      && After(from, RecoverWrites(g, from), done, s.disk)
  }

  ghost predicate Inv(g: Layout, base: Disk, s: State) {
    && Books(g, s) && Safe(g, s) && Whole(s) && Data(g, base, s)
    && |s.disk| == |base|
  }

  // ------------------------------------------------------- the steps keep it

  lemma {:induction false} InitInv(g: Layout, base: Disk, s: State)
    requires Init(g, base, s)
    ensures Inv(g, base, s)
    ensures Books(g, s)
  {
  }

  lemma {:induction false} BeginKeeps(g: Layout, base: Disk, s: State, p: nat)
    requires Inv(g, base, s) && Enabled(g, s, BeginOp(p))
    ensures Inv(g, base, Next(g, s, BeginOp(p)))
  {
    var t := Next(g, s, BeginOp(p));
    forall i | 0 <= i < |t.author| ensures t.author[i] in t.ended || exists q :: q in t.ops && t.ops[q].id == t.author[i] {
      if s.author[i] !in s.ended {
        var q :| q in s.ops && s.ops[q].id == s.author[i];
        assert q in t.ops && t.ops[q].id == t.author[i];
      }
    }
    assert t.ops.Keys == s.ops.Keys + {p};
    assert Whole(t);
  }

  lemma {:induction false} CheckKeeps(g: Layout, base: Disk, s: State, p: nat)
    requires Inv(g, base, s) && Enabled(g, s, CheckLog(p))
    ensures Inv(g, base, Next(g, s, CheckLog(p)))
  {
    var t := Next(g, s, CheckLog(p));
    assert t.ops.Keys == s.ops.Keys;
    CheckWhole(g, s, p);
  }

  lemma {:induction false} CheckWhole(g: Layout, s: State, p: nat)
    requires Whole(s) && Enabled(g, s, CheckLog(p))
    ensures Whole(Next(g, s, CheckLog(p)))
  {
    var t := Next(g, s, CheckLog(p));
    forall i | 0 <= i < |t.author| ensures t.author[i] in t.ended || exists q :: q in t.ops && t.ops[q].id == t.author[i] {
      if s.author[i] !in s.ended {
        var q :| q in s.ops && s.ops[q].id == s.author[i];
        assert q in t.ops && t.ops[q].id == t.author[i];
      }
    }
  }

  lemma {:induction false} LogWriteKeeps(g: Layout, base: Disk, s: State, p: nat, b: Word, data: Block)
    requires Inv(g, base, s) && Enabled(g, s, LogWrite(p, b, data)) && Safe(g, Next(g, s, LogWrite(p, b, data)))
    ensures Inv(g, base, Next(g, s, LogWrite(p, b, data)))
  {
    hide Whole, Data;
    OpsBusy(g, s, p);
    BooksLogWrite(g, s, p, b, data);
    LogWriteWhole(g, s, p, b, data);
    LogWriteData(g, base, s, p, b, data);
  }

  lemma {:induction false} LogWriteData(g: Layout, base: Disk, s: State, p: nat, b: Word, data: Block)
    requires s.mode.Up? && Data(g, base, s) && Enabled(g, s, LogWrite(p, b, data))
    ensures Data(g, base, Next(g, s, LogWrite(p, b, data)))
  {
    hide HomeIs, Recoverable, RecoverWrites, Recovered, After, CommitRange, CommitWriteAt;
    HomeOlder(g, base, s.writes, Write(b, data), s.durable, s.disk);
    HomeNewer(g, base, s.writes, Write(b, data), s.view);
  }

  /** One more write leaves what the first n say. */
  lemma {:induction false} HomeOlder(g: Layout, base: Disk, ws: seq<Write<Block>>, w: Write<Block>, n: nat, d: Disk)
    requires HomeIs(g, base, ws, n, d) && w.blockno < |d|
    ensures HomeIs(g, base, ws + [w], n, d)
  {
    assert (ws + [w])[..n] == ws[..n];
  }

  /** And is the last in a view that takes it. */
  lemma {:induction false} HomeNewer(g: Layout, base: Disk, ws: seq<Write<Block>>, w: Write<Block>, d: Disk)
    requires HomeIs(g, base, ws, |ws|, d) && w.blockno < |d|
    ensures HomeIs(g, base, ws + [w], |ws| + 1, d[w.blockno := w.data])
  {
    var ws' := ws + [w];
    assert ws'[..|ws'| - 1] == ws == ws[..|ws|];
    assert ws'[..|ws| + 1] == ws';
  }

  lemma {:induction false} OpsBusy(g: Layout, s: State, p: nat)
    requires Books(g, s) && p in s.ops
    ensures s.mode.Up? && s.outstanding > 0 && !s.committing
  {
    assert s.ops.Keys != {};
  }

  lemma {:induction false} LogWriteWhole(g: Layout, s: State, p: nat, b: Word, data: Block)
    requires Books(g, s) && Whole(s) && s.mode.Up? && Enabled(g, s, LogWrite(p, b, data))
    ensures Whole(Next(g, s, LogWrite(p, b, data)))
  {
    var t := Next(g, s, LogWrite(p, b, data));
    forall i | 0 <= i < |t.author| ensures t.author[i] in t.ended || exists q :: q in t.ops && t.ops[q].id == t.author[i] {
      if i == |s.author| {
        assert p in t.ops && t.ops[p].id == t.author[i];
      } else if s.author[i] !in s.ended {
        var q :| q in s.ops && s.ops[q].id == s.author[i];
        assert q in t.ops && t.ops[q].id == t.author[i];
      }
    }
  }

  lemma {:induction false} EndKeeps(g: Layout, base: Disk, s: State, p: nat)
    requires Inv(g, base, s) && Enabled(g, s, EndOp(p))
    ensures Inv(g, base, Next(g, s, EndOp(p)))
  {
    var t := Next(g, s, EndOp(p));
    OpsBusy(g, s, p);
    SizeRemove(s.ops, p);
    EndWhole(g, s, p);
    if t.mode.Committing? && Fit(g, s) {
      assert CommitWrites(g, s.disk, s.lh, s.view)[..0] == [];
    }
  }

  lemma {:induction false} EndWhole(g: Layout, s: State, p: nat)
    requires Books(g, s) && Whole(s) && s.mode.Up? && Enabled(g, s, EndOp(p))
    requires s.outstanding == |s.ops - {p}| + 1
    ensures Whole(Next(g, s, EndOp(p)))
  {
    var t := Next(g, s, EndOp(p));
    forall i | 0 <= i < |t.author|
      ensures t.author[i] in t.ended || exists q :: q in t.ops && t.ops[q].id == t.author[i]
    {
      if s.author[i] !in s.ended {
        var q :| q in s.ops && s.ops[q].id == s.author[i];
        if q != p { assert q in t.ops && t.ops[q].id == t.author[i]; }
      }
    }
    if t.mode.Committing? {
      assert t.ops == map[];
    }
  }

  lemma {:induction false} CommitWriteKeeps(g: Layout, base: Disk, s: State)
    requires Inv(g, base, s) && Enabled(g, s, CommitWrite)
    ensures Inv(g, base, Next(g, s, CommitWrite))
  {
    CommitWriteData(g, base, s);
    CommitWriteWhole(g, base, s);
  }

  /** Reading each block when its turn comes, commit makes the writes of CommitWrites. */
  lemma {:induction false} CommitStep(g: Layout, from: Disk, lh: seq<Word>, view: Disk, k: nat, d: Disk)
    requires CommitOk(g, from, lh, view) && lh != [] && k < 2 * |lh| + 2 && CommitRange(g, lh, view)
    requires After(from, CommitWrites(g, from, lh, view), k, d) && LogSame(g, view, d)
    ensures |CommitWrites(g, from, lh, view)| == 2 * |lh| + 2
    ensures CommitWriteAt(g, lh, view, k) == CommitWrites(g, from, lh, view)[k]
    ensures k > |lh| && k <= 2 * |lh| ==> CommitWriteAt(g, lh, view, k).data == view[lh[k - |lh| - 1]]
  {
    hide TxWrites, LogWrites, HomeWrites, Apply, WritesOk, EncodeHead;
    var head := EncodeHead(from[g.start], lh);
    TxAt(g, lh, view, head, EncodeHead(head, []), k);
    TxPrefix(g, from, lh, view, head, EncodeHead(head, []), k);
    CommitReads(g, from, lh, view, head, EncodeHead(head, []), k, d);
  }

  /** What commit finds in the cache when its turn comes to read it. */
  lemma {:induction false} CommitReads(g: Layout, from: Disk, lh: seq<Word>, view: Disk, head: Block, clear: Block, k: nat, d: Disk)
    requires CommitOk(g, from, lh, view) && k < 2 * |lh| + 2 && LogSame(g, view, d)
    requires TxShape(g, from, lh, view, head, clear, k, d)
    ensures k <= |lh| ==> view[g.start] == from[g.start]
    ensures |lh| < k ==> view[g.start] == head
    ensures |lh| < k <= 2 * |lh| ==> view[g.LogBlock(k - |lh| - 1)] == view[lh[k - |lh| - 1]]
  {
    assert g.InLog(g.start);
    if |lh| < k <= 2 * |lh| { assert g.InLog(g.LogBlock(k - |lh| - 1)); }
  }

  /** The writes depend on the logged blocks only. */
  lemma {:induction false} SameCommit(g: Layout, from: Disk, lh: seq<Word>, view: Disk, view': Disk)
    requires CommitOk(g, from, lh, view) && |view'| == |view| && forall i :: 0 <= i < |lh| ==> view'[lh[i]] == view[lh[i]]
    ensures CommitWrites(g, from, lh, view') == CommitWrites(g, from, lh, view)
  {
    assert LogWrites(g, lh, view') == LogWrites(g, lh, view);
    assert HomeWrites(lh, view') == HomeWrites(lh, view);
  }

  lemma {:induction false} SameHomePending(g: Layout, base: Disk, writes: seq<Write<Block>>, lh: seq<Word>, view: Disk,
                                           view': Disk, d: Disk, n: nat)
    requires Pending(g, base, writes, lh, view, d, n) && SameHome(g, view', view)
    ensures Pending(g, base, writes, lh, view', d, n)
  {
  }

  lemma {:induction false} CommitWriteData(g: Layout, base: Disk, s: State)
    requires Data(g, base, s) && Enabled(g, s, CommitWrite) && Safe(g, s)
    ensures Data(g, base, Next(g, s, CommitWrite))
  {
    hide Pending, Apply, CommitWrites, CommitWriteAt;
    var from, t := s.mode.from, Next(g, s, CommitWrite);
    CommitStep(g, from, s.lh, s.view, s.mode.done, s.disk);
    CommitWriteHome(g, s.lh, s.view, s.mode.done);
    NextWrite(from, CommitWrites(g, from, s.lh, s.view), s.mode.done, s.disk);
    SameCommit(g, from, s.lh, s.view, t.view);
    SameHomePending(g, base, s.writes, s.lh, s.view, t.view, from, s.mode.mark);
  }

  /** No write of commit changes what the cache shows of the home blocks. */
  lemma {:induction false} CommitWriteHome(g: Layout, lh: seq<Word>, view: Disk, k: nat)
    requires CommitRange(g, lh, view) && k < 2 * |lh| + 2 && TxOk(g, view, lh)
    requires k > |lh| && k <= 2 * |lh| ==> CommitWriteAt(g, lh, view, k).data == view[lh[k - |lh| - 1]]
    ensures var w := CommitWriteAt(g, lh, view, k); w.blockno < |view| && SameHome(g, view[w.blockno := w.data], view)
  {
  }

  lemma {:induction false} CommitWriteWhole(g: Layout, base: Disk, s: State)
    requires Whole(s) && Enabled(g, s, CommitWrite)
    ensures Whole(Next(g, s, CommitWrite))
  {
  }

  /** The transaction is installed: the disk now shows what the cache shows. */
  lemma {:induction false} FinishKeeps(g: Layout, base: Disk, s: State)
    requires Inv(g, base, s) && Enabled(g, s, FinishCommit)
    ensures Inv(g, base, Next(g, s, FinishCommit))
  {
    var from := s.mode.from;
    var ws := CommitWrites(g, from, s.lh, s.view);
    assert |ws| == s.mode.done;
    assert ws[..s.mode.done] == ws;
    if s.lh == [] {
      assert s.disk == from;
    } else {
      Installed(g, from, s.lh, s.view);
    }
  }

  lemma {:induction false} Installed(g: Layout, from: Disk, lh: seq<Word>, view: Disk)
    requires CommitOk(g, from, lh, view) && LogEmpty(g, from) && lh != []
    requires forall b :: 0 <= b < |from| && !g.InLog(b) && b !in lh ==> view[b] == from[b]
    requires WritesOk(from, CommitWrites(g, from, lh, view))
    ensures var d := Apply(from, CommitWrites(g, from, lh, view));
            LogEmpty(g, d) && SameHome(g, d, view)
  {
    var head := EncodeHead(from[g.start], lh);
    var clear := EncodeHead(head, []);
    var ws := TxWrites(g, lh, view, head, clear);
    HeadRoundTrip(head, []);
    TxPrefix(g, from, lh, view, head, clear, |ws|);
    assert ws[..|ws|] == ws;
  }

  /** A crash at any point of any run recovers the published prefix. */
  lemma {:induction false} CrashSafe(g: Layout, base: Disk, s: State)
    requires Inv(g, base, s)
    ensures Recoverable(g, s.disk)
    ensures HomeIs(g, base, s.writes, s.durable, Recovered(g, s.disk))
  {
    match s.mode
    case Up =>
      EmptyRecovers(g, s.disk);
    case Committing(from, mark, done) =>
      CrashInCommit(g, base, s);
    case Recovering(from, done) =>
      RecoveryRestarts(g, from, done);
  }

  lemma {:induction false} CrashInCommit(g: Layout, base: Disk, s: State)
    requires s.mode.Committing? && Data(g, base, s)
    ensures Recoverable(g, s.disk)
    ensures HomeIs(g, base, s.writes, s.durable, Recovered(g, s.disk))
  {
    if !Fit(g, s) {
      EmptyRecovers(g, s.disk);
      return;
    }
    CommitCrashAtomic(g, s.mode.from, s.lh, s.view, s.mode.done);
    assert SameHome(g, Committed(s.mode.from, s.lh, s.view), s.view);
  }

  lemma {:induction false} CrashKeeps(g: Layout, base: Disk, s: State)
    requires Inv(g, base, s)
    ensures Inv(g, base, Next(g, s, Crash))
  {
    CrashSafe(g, base, s);
    CrashData(g, base, s);
    CrashWhole(g, s);
  }

  lemma {:induction false} CrashData(g: Layout, base: Disk, s: State)
    requires Recoverable(g, s.disk)
    requires HomeIs(g, base, s.writes, s.durable, Recovered(g, s.disk))
    ensures Data(g, base, Next(g, s, Crash))
  {
    var t := Next(g, s, Crash);
    assert t.writes[..|t.writes|] == s.writes[..s.durable];
    assert RecoverWrites(g, s.disk)[..0] == [];
  }

  lemma {:induction false} CrashWhole(g: Layout, s: State)
    requires Whole(s)
    ensures Whole(Next(g, s, Crash))
  {
  }

  lemma {:induction false} RecoverWriteKeeps(g: Layout, base: Disk, s: State)
    requires Inv(g, base, s) && Enabled(g, s, RecoverWrite)
    ensures Inv(g, base, Next(g, s, RecoverWrite))
  {
    RecoverWriteData(g, base, s);
  }

  lemma {:induction false} RecoverWriteData(g: Layout, base: Disk, s: State)
    requires Data(g, base, s) && Enabled(g, s, RecoverWrite)
    ensures Data(g, base, Next(g, s, RecoverWrite))
  {
    hide Recoverable, RecoverWrites, Recovered, HomeIs, After, CommitRange;
    NextWrite(s.mode.from, RecoverWrites(g, s.mode.from), s.mode.done, s.disk);
  }

  lemma {:induction false} BootKeeps(g: Layout, base: Disk, s: State)
    requires Inv(g, base, s) && Enabled(g, s, Boot)
    ensures Inv(g, base, Next(g, s, Boot))
  {
    BootData(g, base, s);
  }

  lemma {:induction false} BootData(g: Layout, base: Disk, s: State)
    requires Data(g, base, s) && Enabled(g, s, Boot)
    ensures Data(g, base, Next(g, s, Boot))
  {
    var ws := RecoverWrites(g, s.mode.from);
    assert ws[..s.mode.done] == ws;
    RecoveredIsStable(g, s.mode.from);
  }

  /** The bookkeeping needs no hypothesis on the log's size. */
  lemma {:induction false} BooksStep(g: Layout, s: State, step: Step)
    requires Books(g, s) && Enabled(g, s, step)
    ensures Books(g, Next(g, s, step))
  {
    hide Books, Enabled, Next;
    match step
    case BeginOp(p) => BooksBegin(g, s, p);
    case CheckLog(p) => BooksCheck(g, s, p);
    case LogWrite(p, b, data) => BooksLogWrite(g, s, p, b, data);
    case EndOp(p) => BooksEnd(g, s, p);
    case CommitWrite => BooksAlone(g, s, step);
    case FinishCommit => BooksAlone(g, s, step);
    case Crash => BooksAlone(g, s, step);
    case RecoverWrite => BooksAlone(g, s, step);
    case Boot => BooksAlone(g, s, step);
  }

  lemma {:induction false} BooksBegin(g: Layout, s: State, p: nat)
    requires Books(g, s) && Enabled(g, s, BeginOp(p))
    ensures Books(g, Next(g, s, BeginOp(p)))
  {
    assert Next(g, s, BeginOp(p)).ops.Keys == s.ops.Keys + {p};
  }

  lemma {:induction false} BooksCheck(g: Layout, s: State, p: nat)
    requires Books(g, s) && Enabled(g, s, CheckLog(p))
    ensures Books(g, Next(g, s, CheckLog(p)))
  {
    assert Next(g, s, CheckLog(p)).ops.Keys == s.ops.Keys;
    OpsBusy(g, s, p);
  }

  lemma {:induction false} BooksEnd(g: Layout, s: State, p: nat)
    requires Books(g, s) && Enabled(g, s, EndOp(p))
    ensures Books(g, Next(g, s, EndOp(p)))
  {
    OpsBusy(g, s, p);
    SizeRemove(s.ops, p);
  }

  /** The steps of commit, crash and recovery. */
  lemma {:induction false} BooksAlone(g: Layout, s: State, step: Step)
    requires Books(g, s) && Enabled(g, s, step)
    requires step.CommitWrite? || step.FinishCommit? || step.Crash? || step.RecoverWrite? || step.Boot?
    ensures Books(g, Next(g, s, step))
  {
    var t := Next(g, s, step);
    assert t.ops == s.ops || t.ops == map[];
    assert t.lh == s.lh || t.lh == [];
    assert |t.view| == |t.disk| == |s.disk|;
  }

  lemma {:induction false} BooksLogWrite(g: Layout, s: State, p: nat, b: Word, data: Block)
    requires Books(g, s) && Enabled(g, s, LogWrite(p, b, data))
    ensures Books(g, Next(g, s, LogWrite(p, b, data)))
  {
    assert Next(g, s, LogWrite(p, b, data)).ops.Keys == s.ops.Keys;
    OpsBusy(g, s, p);
  }

  /** Every step keeps the invariant, unless it overruns the log and leaves commit a buffer. */
  lemma {:induction false} StepKeeps(g: Layout, base: Disk, s: State, step: Step)
    requires Inv(g, base, s) && Enabled(g, s, step) && Safe(g, Next(g, s, step))
    ensures Inv(g, base, Next(g, s, step))
  {
    hide Inv, Safe, Enabled, Next;
    match step
    case BeginOp(p) => BeginKeeps(g, base, s, p);
    case CheckLog(p) => CheckKeeps(g, base, s, p);
    case LogWrite(p, b, data) => LogWriteKeeps(g, base, s, p, b, data);
    case EndOp(p) => EndKeeps(g, base, s, p);
    case CommitWrite => CommitWriteKeeps(g, base, s);
    case FinishCommit => FinishKeeps(g, base, s);
    case Crash => CrashKeeps(g, base, s);
    case RecoverWrite => RecoverWriteKeeps(g, base, s);
    case Boot => BootKeeps(g, base, s);
  }

  // ------------------------------------------------------------- whole runs

  /** A run: each state follows from the one before by an enabled step. */
  ghost predicate IsRun(g: Layout, base: Disk, states: seq<State>, steps: seq<Step>) {
    && |states| == |steps| + 1
    && Init(g, base, states[0])
    && forall i :: 0 <= i < |steps| ==>
         Enabled(g, states[i], steps[i]) && states[i+1] == Next(g, states[i], steps[i])
  }

  lemma {:induction false} RunBooks(g: Layout, base: Disk, states: seq<State>, steps: seq<Step>, k: nat)
    requires IsRun(g, base, states, steps) && k < |states|
    ensures Books(g, states[k])
  {
    if k == 0 {
      InitInv(g, base, states[0]);
    } else {
      RunBooks(g, base, states, steps, k-1);
      BooksStep(g, states[k-1], steps[k-1]);
    }
  }

  /** Up to state k no commit could run past the end of the log. */
  ghost predicate NoSpill(g: Layout, states: seq<State>, k: nat) {
    forall i :: 0 <= i <= k && i < |states| ==> Safe(g, states[i])
  }

  lemma {:induction false} RunKeeps(g: Layout, base: Disk, states: seq<State>, steps: seq<Step>, k: nat)
    requires IsRun(g, base, states, steps) && k < |states| && NoSpill(g, states, k)
    ensures Inv(g, base, states[k])
  {
    if k == 0 {
      InitInv(g, base, states[0]);
    } else {
      hide Inv, Safe, Enabled, Next;
      RunKeeps(g, base, states, steps, k-1);
      assert Safe(g, states[k]);
      StepKeeps(g, base, states[k-1], steps[k-1]);
    }
  }

  /** After a crash in state s and the interrupted recoveries `cuts`, recovery restores the
      first `durable` logged writes, which are all the writes of operations that had ended. */
  ghost predicate CrashFine(g: Layout, base: Disk, s: State, cuts: seq<nat>)
    requires CutsOk(g, s.disk, cuts)
  {
    var d := Interrupted(g, s.disk, cuts);
    && Recoverable(g, d)
    && s.durable <= |s.writes| == |s.author| && WritesOk(base, s.writes)
    && SameHome(g, Recovered(g, d), Apply(base, s.writes[..s.durable]))
    && (forall i :: 0 <= i < s.durable ==> s.author[i] in s.ended)
    && (forall i, j :: 0 <= i < s.durable <= j < |s.author| ==> s.author[i] != s.author[j])
  }

  /** Safety of the whole log. In every state of every run without such a commit, for every crash
      there and any number of crashes during the recovery that follows: recovery restores exactly
      the first `durable` logged writes, and they are all the writes of a set of operations that
      had called end_op. */
  lemma {:induction false} CrashRecoversWholeOperations(
    g: Layout, base: Disk, states: seq<State>, steps: seq<Step>, k: nat, cuts: seq<nat>)
    requires IsRun(g, base, states, steps) && k < |states| && NoSpill(g, states, k)
    requires CutsOk(g, states[k].disk, cuts)
    ensures CrashFine(g, base, states[k], cuts)
  {
    RunKeeps(g, base, states, steps, k);
    CrashSafe(g, base, states[k]);
    InterruptedRecovery(g, states[k].disk, cuts);
  }

  // ------------------------------------------------- what was written, from the steps

  /** The log_write calls of the first k steps, cut at each crash to those that were published. */
  ghost function Calls(states: seq<State>, steps: seq<Step>, k: nat): seq<Write<Block>>
    requires k <= |steps| && |states| == |steps| + 1
  {
    if k == 0 then []
    else
      var before := Calls(states, steps, k - 1);
      match steps[k - 1]
      case LogWrite(_, b, data) => before + [Write(b, data)]
      case Crash => if states[k - 1].durable <= |before| then before[..states[k - 1].durable] else before
      case _ => before
  }

  /** How many operations began in the first k steps. */
  function Begun(steps: seq<Step>, k: nat): nat
    requires k <= |steps|
  { if k == 0 then 0 else Begun(steps, k - 1) + if steps[k - 1].BeginOp? then 1 else 0 }

  /** The operation process p is in after k steps: the number of operations begun before it, -1 if
      it is in none. */
  function Current(steps: seq<Step>, k: nat, p: nat): int
    requires k <= |steps|
  {
    if k == 0 then -1
    else
      match steps[k - 1]
      case BeginOp(q) => if q == p then Begun(steps, k - 1) else Current(steps, k - 1, p)
      case EndOp(q) => if q == p then -1 else Current(steps, k - 1, p)
      case Crash => -1
      case _ => Current(steps, k - 1, p)
  }

  /** The machine's books of the writes are the calls made, absorbed or not. */
  lemma {:induction false} WritesAreCalls(g: Layout, base: Disk, states: seq<State>, steps: seq<Step>, k: nat)
    requires IsRun(g, base, states, steps) && k < |states|
    ensures states[k].writes == Calls(states, steps, k)
  {
    if k > 0 {
      hide Enabled, Next, Init;
      WritesAreCalls(g, base, states, steps, k - 1);
      NextWrites(g, states[k - 1], steps[k - 1]);
    }
  }

  /** What one step does to the list of writes. */
  lemma {:induction false} NextWrites(g: Layout, s: State, step: Step)
    requires Enabled(g, s, step)
    ensures Next(g, s, step).writes ==
      if step.LogWrite? then s.writes + [Write(step.blockno, step.data)]
      else if step.Crash? && s.durable <= |s.writes| then s.writes[..s.durable]
      else s.writes
  {
  }

  /** The open operations are those begun and not ended, numbered in the order they began. */
  lemma {:induction false} OpsAreCurrent(g: Layout, base: Disk, states: seq<State>, steps: seq<Step>, k: nat, p: nat)
    requires IsRun(g, base, states, steps) && k < |states|
    ensures states[k].nextId == Begun(steps, k)
    ensures p in states[k].ops <==> Current(steps, k, p) >= 0
    ensures p in states[k].ops ==> states[k].ops[p].id == Current(steps, k, p)
  {
    if k > 0 {
      hide Enabled, Next, Init;
      OpsAreCurrent(g, base, states, steps, k - 1, p);
      NextOps(g, states[k - 1], steps[k - 1], p);
    }
  }

  /** What one step does to the operation of process p. */
  lemma {:induction false} NextOps(g: Layout, s: State, step: Step, p: nat)
    requires Enabled(g, s, step)
    ensures var t := Next(g, s, step);
      && t.nextId == s.nextId + (if step.BeginOp? then 1 else 0)
      && (step == BeginOp(p) ==> p in t.ops && t.ops[p].id == s.nextId)
      && (step == EndOp(p) || step.Crash? ==> p !in t.ops)
      && (step != BeginOp(p) && step != EndOp(p) && !step.Crash? ==>
            (p in t.ops <==> p in s.ops) && (p in t.ops ==> t.ops[p].id == s.ops[p].id))
  {
    hide Recoverable, RecoverWrites, CommitWriteAt, CommitRange;
  }

  /** A log_write shows its data to every reader and is booked as a write of its caller's operation,
      also when the block was in the log already. */
  lemma {:induction false} LogWriteBooked(g: Layout, base: Disk, states: seq<State>, steps: seq<Step>, k: nat)
    requires IsRun(g, base, states, steps) && k < |steps| && steps[k].LogWrite?
    ensures var s, t, b := states[k], states[k + 1], steps[k].blockno;
      && b < |s.view| && t.view == s.view[b := steps[k].data] && t.writes == s.writes + [Write(b, steps[k].data)]
      && Current(steps, k, steps[k].p) >= 0 && t.author == s.author + [Current(steps, k, steps[k].p)]
  {
    OpsAreCurrent(g, base, states, steps, k, steps[k].p);
  }

  /** Block b after the writes ws: the data of the last write to it, or what it held before. */
  function Latest(base: Disk, ws: seq<Write<Block>>, b: nat): Block
    requires b < |base|
  {
    if ws == [] then base[b]
    else if ws[|ws| - 1].blockno == b then ws[|ws| - 1].data
    else Latest(base, ws[..|ws| - 1], b)
  }

  lemma {:induction false} ApplyLatest(base: Disk, ws: seq<Write<Block>>, b: nat)
    requires WritesOk(base, ws) && b < |base|
    ensures Apply(base, ws)[b] == Latest(base, ws, b)
  {
    if ws != [] { ApplyLatest(base, ws[..|ws| - 1], b); }
  }

  /** While the machine is up, a reader of a home block gets the data last logged for it. */
  lemma {:induction false} ReadersSeeLatest(g: Layout, base: Disk, states: seq<State>, steps: seq<Step>, k: nat, b: nat)
    requires IsRun(g, base, states, steps) && k < |states| && NoSpill(g, states, k) && !states[k].mode.Recovering?
    requires b < |base| && !g.InLog(b)
    ensures |states[k].view| == |base| && states[k].view[b] == Latest(base, Calls(states, steps, k), b)
  {
    RunKeeps(g, base, states, steps, k);
    WritesAreCalls(g, base, states, steps, k);
    ViewLatest(g, base, states[k], b);
  }

  lemma {:induction false} ViewLatest(g: Layout, base: Disk, s: State, b: nat)
    requires Inv(g, base, s) && !s.mode.Recovering? && b < |base| && !g.InLog(b)
    ensures |s.view| == |base| && s.view[b] == Latest(base, s.writes, b)
  {
    hide After, CommitWrites, Whole, Latest;
    assert s.writes[..|s.writes|] == s.writes;
    ApplyLatest(base, s.writes, b);
  }

  /** Once a commit is complete, whatever crash follows before the next one, recovery gives every home
      block the data last logged for it when the commit began. */
  lemma {:induction false} CommitKeepsLatest(g: Layout, base: Disk, states: seq<State>, steps: seq<Step>, k: nat, b: nat)
    requires IsRun(g, base, states, steps) && k < |steps| && NoSpill(g, states, k + 1) && steps[k].FinishCommit?
    requires b < |base| && !g.InLog(b)
    ensures var t := states[k + 1];
      && t.durable == |Calls(states, steps, k)| && Recoverable(g, t.disk) && |Recovered(g, t.disk)| == |base|
      && Recovered(g, t.disk)[b] == Latest(base, Calls(states, steps, k), b)
  {
    hide Inv, Apply, Latest, Recovered;
    RunKeeps(g, base, states, steps, k + 1);
    WritesAreCalls(g, base, states, steps, k + 1);
    var t := states[k + 1];
    CrashSafe(g, base, t);
    FinishedAll(g, base, t);
    assert t.writes[..t.durable] == t.writes;
    ApplyLatest(base, t.writes, b);
  }

  lemma {:induction false} FinishedAll(g: Layout, base: Disk, t: State)
    requires Inv(g, base, t) && t.mode.Up? && t.lh == []
    ensures t.durable == |t.writes|
  {
  }

  /** Once published, a write is never taken back, whatever crashes follow. */
  lemma {:induction false} PublishedStays(g: Layout, base: Disk, states: seq<State>, steps: seq<Step>, i: nat, j: nat)
    requires IsRun(g, base, states, steps) && i <= j < |states|
    ensures states[i].durable <= |states[i].writes| && states[j].durable <= |states[j].writes|
    ensures states[i].writes[..states[i].durable] <= states[j].writes[..states[j].durable]
  {
    if j == 0 {
    } else if i == j {
      PublishedStays(g, base, states, steps, j-1, j-1);
      PublishedStep(g, states[j-1], steps[j-1]);
    } else {
      PublishedStays(g, base, states, steps, i, j-1);
      PublishedStep(g, states[j-1], steps[j-1]);
    }
  }

  lemma {:induction false} PublishedStep(g: Layout, s: State, step: Step)
    requires s.durable <= |s.writes| && Enabled(g, s, step)
    ensures Next(g, s, step).durable <= |Next(g, s, step).writes|
    ensures s.writes[..s.durable] <= Next(g, s, step).writes[..Next(g, s, step).durable]
  {
    var t := Next(g, s, step);
    match step
    case LogWrite(p, b, data) => assert t.writes[..t.durable] == s.writes[..s.durable];
    case CommitWrite => assert t.writes == s.writes && s.durable <= t.durable;
    case Crash => assert t.writes[..t.durable] == s.writes[..s.durable];
    case _ =>
  }

  /** The panics of end_op and log_write ("log.committing", "log_write outside of
      trans") cannot happen: a process inside an operation never meets a commit. */
  lemma {:induction false} NoOperationMeetsCommit(g: Layout, base: Disk, states: seq<State>, steps: seq<Step>, k: nat, p: nat)
    requires IsRun(g, base, states, steps) && k < |states| && p in states[k].ops
    ensures !states[k].committing && states[k].outstanding >= 1
  {
    RunBooks(g, base, states, steps, k);
    OpsBusy(g, states[k], p);
  }

  /** Group commit: a commit runs alone, an idle log is empty, and no block is logged twice. */
  lemma {:induction false} CommitRunsAlone(g: Layout, base: Disk, states: seq<State>, steps: seq<Step>, k: nat)
    requires IsRun(g, base, states, steps) && k < |states|
    ensures var s := states[k];
            && (s.committing ==> s.outstanding == 0)
            && (s.outstanding == 0 && !s.committing ==> s.lh == [])
            && Distinct(s.lh) && s.outstanding == |s.ops|
            && (s.committing && k < |steps| ==> states[k+1].writes <= s.writes && states[k+1].lh <= s.lh)
  {
    RunBooks(g, base, states, steps, k);
    if states[k].committing && k < |steps| {
      NothingAppended(g, states[k], steps[k]);
    }
  }

  /** Nothing waits for ever: an idle log admits any process, a process can end its operation, a commit
      and a recovery always have a next step. */
  lemma {:induction false} Progress(g: Layout, base: Disk, states: seq<State>, steps: seq<Step>, k: nat)
    requires IsRun(g, base, states, steps) && k < |states| && NoSpill(g, states, k)
    ensures var s := states[k];
      && (s.mode.Up? && s.outstanding == 0 ==> forall p :: Enabled(g, s, BeginOp(p)))
      && (forall p :: p in s.ops && !s.ops[p].passed ==> Enabled(g, s, EndOp(p)))
      && (forall p, b, data :: p in s.ops && s.ops[p].passed && b in s.lh ==> Enabled(g, s, LogWrite(p, b, data)))
      && (s.mode.Committing? && (s.lh == [] || |s.lh| < s.nbuf) ==> Enabled(g, s, CommitWrite) != Enabled(g, s, FinishCommit))
      && (s.mode.Recovering? ==> Enabled(g, s, RecoverWrite) != Enabled(g, s, Boot))
  {
    hide Inv, Books, Enabled;
    RunKeeps(g, base, states, steps, k);
    RunBooks(g, base, states, steps, k);
    OperationsAdvance(g, states[k]);
    if states[k].mode.Committing? && (states[k].lh == [] || |states[k].lh| < states[k].nbuf) { CommitAdvances(g, base, states[k]); }
    if states[k].mode.Recovering? { RecoveryAdvances(g, base, states[k]); }
  }

  lemma {:induction false} OperationsAdvance(g: Layout, s: State)
    requires Books(g, s) && Safe(g, s)
    ensures s.mode.Up? && s.outstanding == 0 ==> forall p :: Enabled(g, s, BeginOp(p))
    ensures forall p :: p in s.ops && !s.ops[p].passed ==> Enabled(g, s, EndOp(p))
    ensures forall p, b, data :: p in s.ops && s.ops[p].passed && b in s.lh ==> Enabled(g, s, LogWrite(p, b, data))
  {
    forall p | p in s.ops ensures !s.mode.Recovering? { OpsBusy(g, s, p); }
    if s.outstanding == 0 { assert forall p :: p !in s.ops; }
  }

  lemma {:induction false} CommitAdvances(g: Layout, base: Disk, s: State)
    requires Inv(g, base, s) && s.mode.Committing? && (s.lh == [] || |s.lh| < s.nbuf)
    ensures Enabled(g, s, CommitWrite) != Enabled(g, s, FinishCommit)
  {
    hide Whole, Pending, LogSame, RecoverWrites, Recoverable;
    if Fit(g, s) { CommitLength(g, s.mode.from, s.lh, s.view); }
  }

  lemma {:induction false} CommitLength(g: Layout, d: Disk, lh: seq<Word>, view: Disk)
    requires CommitOk(g, d, lh, view)
    ensures |CommitWrites(g, d, lh, view)| == if lh == [] then 0 else 2 * |lh| + 2
  {
  }

  lemma {:induction false} RecoveryAdvances(g: Layout, base: Disk, s: State)
    requires Inv(g, base, s) && s.mode.Recovering?
    ensures Enabled(g, s, RecoverWrite) != Enabled(g, s, Boot)
  {
    hide Whole, RecoverWrites, Recoverable, HomeIs;
  }

  lemma {:induction false} NothingAppended(g: Layout, s: State, step: Step)
    requires Books(g, s) && s.committing && Enabled(g, s, step)
    ensures Next(g, s, step).writes <= s.writes && Next(g, s, step).lh <= s.lh
  {
    match step
    case LogWrite(p, b, data) => OpsBusy(g, s, p);
    case _ =>
  }
}
