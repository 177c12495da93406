/** The redo log of log.c: the block writes commit() and recover_from_log() make,
    and what a completed recovery makes of a crash between any two of them. */
module RedoLog {
  import opened Blocks
  import opened DiskWrites

  const MAXOPBLOCKS := 10
  const LOGSIZE := 3 * MAXOPBLOCKS

  type Disk = seq<Block>

  // ---------------------------------------------------------------- headers

  /** The header block: word 0 counts the logged blocks, words 1.. name them.
      Only the first |lh| names are stored; later words keep their old bytes. */
  function EncodeHead(b: Block, lh: seq<Word>): (r: Block)
    requires |lh| <= LOGSIZE
  {
    EncodeNames(SetWord(b, 0, |lh|), lh)
  }

  function EncodeNames(b: Block, lh: seq<Word>): (r: Block)
    requires |lh| <= LOGSIZE
  {
    if lh == [] then b
    else SetWord(EncodeNames(b, lh[..|lh|-1]), |lh|, lh[|lh|-1])
  }

  /** struct logheader fits a block, so the count indexes inside it. */
  predicate HeadOk(b: Block) { GetWord(b, 0) <= LOGSIZE }

  function DecodeHead(b: Block): (lh: seq<Word>)
    requires HeadOk(b)
  {
    seq(GetWord(b, 0), i requires 0 <= i < GetWord(b, 0) => GetWord(b, i + 1))
  }

  lemma {:induction false} NamesStored(b: Block, lh: seq<Word>, j: nat)
    requires |lh| <= LOGSIZE && j < WORDS
    ensures GetWord(EncodeNames(b, lh), j) == if 1 <= j <= |lh| then lh[j-1] else GetWord(b, j)
  {
    if lh != [] {
      var rest := lh[..|lh|-1];
      NamesStored(b, rest, j);
      SetGetWord(EncodeNames(b, rest), |lh|, lh[|lh|-1], j);
    }
  }

  /** The header read back is the header written, whatever the block held before. */
  lemma {:induction false} HeadRoundTrip(b: Block, lh: seq<Word>)
    requires |lh| <= LOGSIZE
    ensures HeadOk(EncodeHead(b, lh)) && DecodeHead(EncodeHead(b, lh)) == lh
  {
    var b0 := SetWord(b, 0, |lh|);
    SetGetWord(b, 0, |lh|, 0);
    NamesStored(b0, lh, 0);
    forall i | 0 <= i < |lh| ensures GetWord(EncodeHead(b, lh), i + 1) == lh[i] {
      NamesStored(b0, lh, i + 1);
    }
  }

  lemma {:induction false} ClearTwice(b: Block)
    ensures EncodeHead(EncodeHead(b, []), []) == EncodeHead(b, [])
  {
  }

  // ----------------------------------------------------- commit and recovery

  /** commit(): every block write it makes, in order; none for an empty transaction. */
  function CommitWrites(g: Layout, d: Disk, lh: seq<Word>, view: Disk): (ws: seq<Write<Block>>)
    requires Fits(g, d) && |view| == |d| && TxOk(g, d, lh) && |lh| <= LOGSIZE
  {
    if lh == [] then []
    else
      var head := EncodeHead(d[g.start], lh);
      TxWrites(g, lh, view, head, EncodeHead(head, []))
  }

  /** A disk recovery can read: its header names distinct home blocks. */
  predicate Recoverable(g: Layout, d: Disk) {
    && Fits(g, d)
    && HeadOk(d[g.start])
    && TxOk(g, d, DecodeHead(d[g.start]))
  }

  /** recover_from_log(): copy the logged blocks home, then clear the count. */
  function RecoverWrites(g: Layout, d: Disk): (ws: seq<Write<Block>>)
    requires Recoverable(g, d)
    ensures WritesOk(d, ws)
  {
    CopyWrites(g, d, DecodeHead(d[g.start])) + [Write(g.start, EncodeHead(d[g.start], []))]
  }

  function Recovered(g: Layout, d: Disk): (r: Disk)
    requires Recoverable(g, d)
  {
    Apply(d, RecoverWrites(g, d))
  }

  /** The count in the on-disk header is zero. */
  predicate LogEmpty(g: Layout, d: Disk) {
    Fits(g, d) && GetWord(d[g.start], 0) == 0
  }

  /** Recovery copies exactly the log blocks the header names, and empties the log. */
  lemma {:induction false} RecoveredShape(g: Layout, d: Disk)
    requires Recoverable(g, d)
    ensures var lh := DecodeHead(d[g.start]);
            var r := Recovered(g, d);
            && r[g.start] == EncodeHead(d[g.start], [])
            && (forall b :: 0 <= b < |d| && b != g.start && b !in lh ==> r[b] == d[b])
            && (forall i :: 0 <= i < |lh| ==> r[lh[i]] == d[g.LogBlock(i)])
  {
    var lh := DecodeHead(d[g.start]);
    var ws := CopyWrites(g, d, lh);
    CopyPrefix(g, d, lh, |lh|);
    assert ws[..|lh|] == ws;
    var clear := Write(g.start, EncodeHead(d[g.start], []));
    ApplyOne(Apply(d, ws), clear);
    ApplyConcat(d, ws, [clear]);
  }

  /** Recovering an empty log leaves the home blocks alone. */
  lemma {:induction false} EmptyRecovers(g: Layout, d: Disk)
    requires LogEmpty(g, d)
    ensures Recoverable(g, d) && SameHome(g, Recovered(g, d), d)
  {
    assert DecodeHead(d[g.start]) == [];
    RecoveredShape(g, d);
  }

  /** Once the header naming lh is on disk and the log holds view's copies of
      those blocks, recovery installs all of them, however many were installed before. */
  lemma {:induction false} FullRecovers(g: Layout, d: Disk, lh: seq<Word>, view: Disk, r: Disk)
    requires Fits(g, d) && |view| == |d| == |r| && TxOk(g, d, lh)
    requires HeadOk(r[g.start]) && DecodeHead(r[g.start]) == lh
    requires forall i :: 0 <= i < |lh| ==> r[g.LogBlock(i)] == view[lh[i]]
    requires forall b :: 0 <= b < |d| && !g.InLog(b) && b !in lh ==> r[b] == d[b]
    ensures Recoverable(g, r) && SameHome(g, Recovered(g, r), Committed(d, lh, view))
  {
    RecoveredShape(g, r);
    forall b | 0 <= b < |d| && !g.InLog(b) ensures Recovered(g, r)[b] == Committed(d, lh, view)[b] {
      if b in lh {
        var i :| 0 <= i < |lh| && lh[i] == b;
        assert Recovered(g, r)[lh[i]] == r[g.LogBlock(i)];
      }
    }
  }

  lemma {:induction false} ShapeRecovers(g: Layout, d: Disk, lh: seq<Word>, view: Disk, head: Block, clear: Block, k: nat,
                                         r: Disk)
    requires LogEmpty(g, d) && |view| == |d| && TxOk(g, d, lh)
    requires HeadOk(head) && DecodeHead(head) == lh && GetWord(clear, 0) == 0
    requires TxShape(g, d, lh, view, head, clear, k, r) && k <= 2*|lh|+2
    ensures Recoverable(g, r)
    ensures SameHome(g, Recovered(g, r), if k <= |lh| then d else Committed(d, lh, view))
  {
    if k <= |lh| {
      EmptyRecovers(g, r);
      assert SameHome(g, r, d);
    } else if k <= 2*|lh|+1 {
      FullRecovers(g, d, lh, view, r);
    } else {
      EmptyRecovers(g, r);
      assert SameHome(g, r, Committed(d, lh, view));
    }
  }

  /** Crash atomicity of commit(). Cut its writes anywhere: recovery then yields
      the old home blocks if the first header write is missing, and otherwise the
      whole transaction; every block outside the transaction is untouched. */
  lemma {:induction false} CommitCrashAtomic(g: Layout, d: Disk, lh: seq<Word>, view: Disk, k: nat)
    requires LogEmpty(g, d) && |view| == |d| && TxOk(g, d, lh) && |lh| <= LOGSIZE
    requires k <= |CommitWrites(g, d, lh, view)|
    ensures WritesOk(d, CommitWrites(g, d, lh, view)[..k])
    ensures var r := Apply(d, CommitWrites(g, d, lh, view)[..k]);
            && Recoverable(g, r)
            && SameHome(g, Recovered(g, r), if k <= |lh| then d else Committed(d, lh, view))
  {
    if lh == [] {
      assert CommitWrites(g, d, lh, view)[..k] == [];
      EmptyRecovers(g, d);
    } else {
      var head := EncodeHead(d[g.start], lh);
      HeadRoundTrip(d[g.start], lh);
      HeadRoundTrip(head, []);
      TxPrefix(g, d, lh, view, head, EncodeHead(head, []), k);
      ShapeRecovers(g, d, lh, view, head, EncodeHead(head, []), k, Apply(d, CommitWrites(g, d, lh, view)[..k]));
    }
  }

  lemma {:induction false} SameRecovery(g: Layout, d: Disk, r: Disk)
    requires Recoverable(g, d) && |r| == |d| && r[g.start] == d[g.start]
    requires var lh := DecodeHead(d[g.start]);
             forall b :: 0 <= b < |d| && b !in lh ==> r[b] == d[b]
    ensures Recoverable(g, r) && Recovered(g, r) == Recovered(g, d)
  {
    var lh := DecodeHead(d[g.start]);
    RecoveredShape(g, d);
    RecoveredShape(g, r);
    var a, b := Recovered(g, r), Recovered(g, d);
    forall c | 0 <= c < |d| ensures a[c] == b[c] {
      if c in lh {
        var i :| 0 <= i < |lh| && lh[i] == c;
        assert g.LogBlock(i) !in lh;
        assert a[lh[i]] == b[lh[i]];
      }
    }
  }

  /** A crash during recovery is repaired by running recovery again: after any
      prefix of its writes, recovery still ends on exactly the same disk. */
  lemma {:induction false} RecoveryRestarts(g: Layout, d: Disk, k: nat)
    requires Recoverable(g, d) && k <= |RecoverWrites(g, d)|
    ensures WritesOk(d, RecoverWrites(g, d)[..k])
    ensures var r := Apply(d, RecoverWrites(g, d)[..k]);
            Recoverable(g, r) && Recovered(g, r) == Recovered(g, d)
  {
    var ws := RecoverWrites(g, d);
    var lh := DecodeHead(d[g.start]);
    if k <= |lh| {
      CopyPrefix(g, d, lh, k);
      assert ws[..k] == CopyWrites(g, d, lh)[..k];
      SameRecovery(g, d, Apply(d, ws[..k]));
    } else {
      assert ws[..k] == ws;
      RecoveredIsStable(g, d);
    }
  }

  lemma {:induction false} RecoveredIsStable(g: Layout, d: Disk)
    requires Recoverable(g, d)
    ensures LogEmpty(g, Recovered(g, d)) && Recoverable(g, Recovered(g, d))
    ensures Recovered(g, Recovered(g, d)) == Recovered(g, d)
  {
    var r := Recovered(g, d);
    RecoveredShape(g, d);
    HeadRoundTrip(d[g.start], []);
    EmptyRecovers(g, r);
    RecoveredShape(g, r);
    ClearTwice(d[g.start]);
    assert Recovered(g, r) == r;
  }

  /** Any number of interrupted recoveries: `cuts[i]` is how many block writes the
      i-th attempt got through before the machine crashed. */
  predicate CutsOk(g: Layout, d: Disk, cuts: seq<nat>)
    decreases cuts
  {
    cuts == [] ||
    (&& Recoverable(g, d) && cuts[0] <= |RecoverWrites(g, d)|
     && CutsOk(g, Apply(d, RecoverWrites(g, d)[..cuts[0]]), cuts[1..]))
  }

  function Interrupted(g: Layout, d: Disk, cuts: seq<nat>): (r: Disk)
    requires CutsOk(g, d, cuts)
    decreases cuts
  {
    if cuts == [] then d
    else Interrupted(g, Apply(d, RecoverWrites(g, d)[..cuts[0]]), cuts[1..])
  }

  lemma {:induction false} InterruptedRecovery(g: Layout, d: Disk, cuts: seq<nat>)
    requires Recoverable(g, d) && CutsOk(g, d, cuts)
    ensures Recoverable(g, Interrupted(g, d, cuts))
    ensures Recovered(g, Interrupted(g, d, cuts)) == Recovered(g, d)
    decreases cuts
  {
    if cuts != [] {
      RecoveryRestarts(g, d, cuts[0]);
      InterruptedRecovery(g, Apply(d, RecoverWrites(g, d)[..cuts[0]]), cuts[1..]);
    }
  }

  /** Crash atomicity over whole histories: a crash after any k writes of commit(),
      then any number of crashes during recovery, then one recovery that completes. */
  lemma {:induction false} CrashAtomicity(g: Layout, d: Disk, lh: seq<Word>, view: Disk, k: nat, cuts: seq<nat>)
    requires LogEmpty(g, d) && |view| == |d| && TxOk(g, d, lh) && |lh| <= LOGSIZE
    requires k <= |CommitWrites(g, d, lh, view)|
    requires WritesOk(d, CommitWrites(g, d, lh, view)[..k])
    requires CutsOk(g, Apply(d, CommitWrites(g, d, lh, view)[..k]), cuts)
    ensures var r := Interrupted(g, Apply(d, CommitWrites(g, d, lh, view)[..k]), cuts);
            && Recoverable(g, r)
            && SameHome(g, Recovered(g, r), if k <= |lh| then d else Committed(d, lh, view))
            && LogEmpty(g, Recovered(g, r))
  {
    CommitCrashAtomic(g, d, lh, view, k);
    var c := Apply(d, CommitWrites(g, d, lh, view)[..k]);
    InterruptedRecovery(g, c, cuts);
    RecoveredIsStable(g, c);
  }
}
