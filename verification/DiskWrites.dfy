/** Ordered block writes and the disks their prefixes leave behind.

    One block write is atomic, so the disk a crash leaves is the old disk with some
    prefix of the pending writes applied. What a block holds does not matter here:
    T is any block type. */
module DiskWrites {

  type Word = x: int | 0 <= x < 0x1_0000_0000

  datatype Write<T> = Write(blockno: nat, data: T)

  predicate WritesOk<T>(d: seq<T>, ws: seq<Write<T>>) {
    forall i :: 0 <= i < |ws| ==> ws[i].blockno < |d|
  }

  function Apply<T>(d: seq<T>, ws: seq<Write<T>>): (r: seq<T>)
    requires WritesOk(d, ws)
    ensures |r| == |d|
  {
    if ws == [] then d
    else var last := ws[|ws|-1]; Apply(d, ws[..|ws|-1])[last.blockno := last.data]
  }

  lemma {:induction false} ApplyConcat<T>(d: seq<T>, a: seq<Write<T>>, b: seq<Write<T>>)
    requires WritesOk(d, a) && WritesOk(d, b)
    ensures WritesOk(d, a + b) && Apply(d, a + b) == Apply(Apply(d, a), b)
  {
    assert WritesOk(d, a + b);
    if b == [] {
      assert a + b == a;
    } else {
      ApplyConcat(d, a, b[..|b|-1]);
      assert (a + b)[..|a + b|-1] == a + b[..|b|-1];
    }
  }

  lemma {:induction false} ApplyOne<T>(d: seq<T>, w: Write<T>)
    requires w.blockno < |d|
    ensures WritesOk(d, [w]) && Apply(d, [w]) == d[w.blockno := w.data]
  {
    assert [w][..0] == [];
  }

  /** Disk r is disk d after the first k writes of ws. */
  ghost predicate After<T(!new)>(d: seq<T>, ws: seq<Write<T>>, k: nat, r: seq<T>) {
    k <= |ws| && WritesOk(d, ws[..k]) && r == Apply(d, ws[..k])
  }

  lemma {:induction false} NextWrite<T(!new)>(d: seq<T>, ws: seq<Write<T>>, k: nat, r: seq<T>)
    requires After(d, ws, k, r) && k < |ws| && ws[k].blockno < |d|
    ensures After(d, ws, k+1, r[ws[k].blockno := ws[k].data])
  {
    var a := ws[..k+1];
    assert a[..|a|-1] == ws[..k];
  }

  /** From trace t0 and disk d0, the first k writes of ws were made. */
  ghost predicate Wrote<T(!new)>(t0: seq<Write<T>>, d0: seq<T>, ws: seq<Write<T>>, k: nat, t: seq<Write<T>>, d: seq<T>) {
    After(d0, ws, k, d) && t == t0 + ws[..k]
  }

  lemma {:induction false} WroteNone<T(!new)>(t0: seq<Write<T>>, d0: seq<T>, ws: seq<Write<T>>)
    ensures Wrote(t0, d0, ws, 0, t0, d0)
  {
    assert ws[..0] == [];
  }

  lemma {:induction false} WroteNext<T(!new)>(t0: seq<Write<T>>, d0: seq<T>, ws: seq<Write<T>>, k: nat, t: seq<Write<T>>,
                                       d: seq<T>)
    requires Wrote(t0, d0, ws, k, t, d) && k < |ws| && ws[k].blockno < |d0|
    ensures Wrote(t0, d0, ws, k+1, t + [ws[k]], d[ws[k].blockno := ws[k].data])
  {
    NextWrite(d0, ws, k, d);
    assert t + [ws[k]] == t0 + ws[..k+1];
  }

  /** Writes of a first list, then of a second. */
  lemma {:induction false} WroteThen<T(!new)>(t0: seq<Write<T>>, d0: seq<T>, a: seq<Write<T>>, t1: seq<Write<T>>, d1: seq<T>,
                     b: seq<Write<T>>, k: nat, t: seq<Write<T>>, d: seq<T>)
    requires Wrote(t0, d0, a, |a|, t1, d1) && Wrote(t1, d1, b, k, t, d)
    ensures Wrote(t0, d0, a + b, |a| + k, t, d)
  {
    assert a[..|a|] == a;
    assert (a + b)[..|a| + k] == a + b[..k];
    ApplyConcat(d0, a, b[..k]);
    assert t0 + a + b[..k] == t0 + (a + b[..k]);
  }

  lemma {:induction false} WroteAfter<T(!new)>(t0: seq<Write<T>>, d0: seq<T>, ws: seq<Write<T>>, k: nat, t: seq<Write<T>>,
                                        d: seq<T>)
    requires Wrote(t0, d0, ws, k, t, d)
    ensures After(d0, ws, k, d)
  {
  }

  lemma {:induction false} WroteExtend<T(!new)>(t0: seq<Write<T>>, d0: seq<T>, a: seq<Write<T>>, b: seq<Write<T>>, k: nat,
                                         t: seq<Write<T>>, d: seq<T>)
    requires Wrote(t0, d0, a, k, t, d)
    ensures Wrote(t0, d0, a + b, k, t, d)
  {
    assert (a + b)[..k] == a[..k];
  }

  predicate DistinctTargets<T>(ws: seq<Write<T>>) {
    forall i, j :: 0 <= i < j < |ws| ==> ws[i].blockno != ws[j].blockno
  }

  /** Writes to distinct blocks all survive, and nothing else changes. */
  lemma {:induction false} ApplyDistinct<T>(d: seq<T>, ws: seq<Write<T>>)
    requires WritesOk(d, ws) && DistinctTargets(ws)
    ensures forall i :: 0 <= i < |ws| ==> Apply(d, ws)[ws[i].blockno] == ws[i].data
    ensures forall b :: 0 <= b < |d| && (forall i :: 0 <= i < |ws| ==> ws[i].blockno != b) ==> Apply(d, ws)[b] == d[b]
  {
    if ws != [] {
      ApplyDistinct(d, ws[..|ws|-1]);
    }
  }

  /** Where the log lives: the header block `start`, then `size - 1` log blocks. */
  datatype Layout = Layout(start: nat, size: nat) {
    predicate InLog(b: int) { start <= b < start + size }
    function LogBlock(i: nat): nat { start + 1 + i }
  }

  predicate Fits<T>(g: Layout, d: seq<T>) {
    1 <= g.size && g.start + g.size <= |d|
  }

  predicate Distinct(lh: seq<Word>) {
    forall i, j :: 0 <= i < j < |lh| ==> lh[i] != lh[j]
  }

  /** A transaction the log can hold: distinct home blocks, one log block each. */
  predicate TxOk<T>(g: Layout, d: seq<T>, lh: seq<Word>) {
    && |lh| <= g.size - 1
    && Distinct(lh)
    && forall i :: 0 <= i < |lh| ==> lh[i] < |d| && !g.InLog(lh[i])
  }

  /** write_log: cached block lh[i] goes to log block i. */
  function LogWrites<T>(g: Layout, lh: seq<Word>, view: seq<T>): (ws: seq<Write<T>>)
    requires forall i :: 0 <= i < |lh| ==> lh[i] < |view|
    ensures |ws| == |lh|
  {
    seq(|lh|, i requires 0 <= i < |lh| => Write(g.LogBlock(i), view[lh[i]]))
  }

  /** install_trans: the same contents go to their home blocks. */
  function HomeWrites<T>(lh: seq<Word>, view: seq<T>): (ws: seq<Write<T>>)
    requires forall i :: 0 <= i < |lh| ==> lh[i] < |view|
    ensures |ws| == |lh|
  {
    seq(|lh|, i requires 0 <= i < |lh| => Write(lh[i], view[lh[i]]))
  }

  /** Log the blocks, publish header `head`, install the blocks, publish `clear`. */
  function TxWrites<T>(g: Layout, lh: seq<Word>, view: seq<T>, head: T, clear: T): (ws: seq<Write<T>>)
    requires forall i :: 0 <= i < |lh| ==> lh[i] < |view|
  {
    LogWrites(g, lh, view) + [Write(g.start, head)] + HomeWrites(lh, view) + [Write(g.start, clear)]
  }

  /** The k-th write of a transaction. */
  lemma {:induction false} TxAt<T>(g: Layout, lh: seq<Word>, view: seq<T>, head: T, clear: T, k: nat)
    requires (forall i :: 0 <= i < |lh| ==> lh[i] < |view|) && k < 2 * |lh| + 2
    ensures |TxWrites(g, lh, view, head, clear)| == 2 * |lh| + 2
    ensures TxWrites(g, lh, view, head, clear)[k] ==
      if k < |lh| then Write(g.LogBlock(k), view[lh[k]])
      else if k == |lh| then Write(g.start, head)
      else if k <= 2 * |lh| then Write(lh[k - |lh| - 1], view[lh[k - |lh| - 1]])
      else Write(g.start, clear)
  {
    var a, b := LogWrites(g, lh, view), HomeWrites(lh, view);
    assert TxWrites(g, lh, view, head, clear) == a + ([Write(g.start, head)] + (b + [Write(g.start, clear)]));
  }

  /** What the disk holds after k writes of a transaction. */
  ghost predicate TxShape<T>(g: Layout, d: seq<T>, lh: seq<Word>, view: seq<T>, head: T, clear: T, k: nat, r: seq<T>)
    requires Fits(g, d) && |view| == |d| && TxOk(g, d, lh)
  {
    var n := |lh|;
    && |r| == |d|
    && r[g.start] == (if k <= n then d[g.start] else if k <= 2*n+1 then head else clear)
    && (forall i :: 0 <= i < n && i < k ==> r[g.LogBlock(i)] == view[lh[i]])
    && (forall b :: 0 <= b < |d| && !g.InLog(b) && b !in lh ==> r[b] == d[b])
    && (forall i :: 0 <= i < n ==> r[lh[i]] == if n+1+i < k then view[lh[i]] else d[lh[i]])
  }

  lemma {:induction false} LogPhase<T>(g: Layout, d: seq<T>, lh: seq<Word>, view: seq<T>, k: nat)
    requires Fits(g, d) && |view| == |d| && TxOk(g, d, lh) && k <= |lh|
    ensures WritesOk(d, LogWrites(g, lh, view)[..k])
    ensures var r := Apply(d, LogWrites(g, lh, view)[..k]);
            && (forall i :: 0 <= i < k ==> r[g.LogBlock(i)] == view[lh[i]])
            && r[g.start] == d[g.start]
            && (forall b :: 0 <= b < |d| && !g.InLog(b) ==> r[b] == d[b])
  {
    var ws := LogWrites(g, lh, view)[..k];
    ApplyDistinct(d, ws);
    forall i | 0 <= i < k ensures Apply(d, ws)[g.LogBlock(i)] == view[lh[i]] {
      assert ws[i].blockno == g.LogBlock(i);
    }
  }

  lemma {:induction false} HomePhase<T>(g: Layout, d: seq<T>, lh: seq<Word>, view: seq<T>, k: nat)
    requires Fits(g, d) && |view| == |d| && TxOk(g, d, lh) && k <= |lh|
    ensures WritesOk(d, HomeWrites(lh, view)[..k])
    ensures var r := Apply(d, HomeWrites(lh, view)[..k]);
            && (forall i :: 0 <= i < |lh| ==> r[lh[i]] == if i < k then view[lh[i]] else d[lh[i]])
            && (forall b :: 0 <= b < |d| && b !in lh ==> r[b] == d[b])
  {
    var ws := HomeWrites(lh, view)[..k];
    ApplyDistinct(d, ws);
    forall i | 0 <= i < |lh| ensures Apply(d, ws)[lh[i]] == if i < k then view[lh[i]] else d[lh[i]] {
      if i < k { assert ws[i].blockno == lh[i]; }
    }
  }

  lemma {:induction false} InstallPhase<T>(g: Layout, d: seq<T>, lh: seq<Word>, view: seq<T>, head: T, j: nat)
    requires Fits(g, d) && |view| == |d| && TxOk(g, d, lh) && j <= |lh|
    ensures var pre := LogWrites(g, lh, view) + [Write(g.start, head)] + HomeWrites(lh, view)[..j];
            && WritesOk(d, pre)
            && TxShape(g, d, lh, view, head, head, |lh| + 1 + j, Apply(d, pre))
  {
    var logw, w := LogWrites(g, lh, view), Write(g.start, head);
    LogPhase(g, d, lh, view, |lh|);
    assert logw[..|lh|] == logw;
    var d1 := Apply(d, logw);
    ApplyOne(d1, w);
    ApplyConcat(d, logw, [w]);
    var d2 := Apply(d, logw + [w]);
    HomePhase(g, d2, lh, view, j);
    ApplyConcat(d, logw + [w], HomeWrites(lh, view)[..j]);
  }

  /** The disk after any k writes of a transaction. */
  lemma {:induction false} TxPrefix<T>(g: Layout, d: seq<T>, lh: seq<Word>, view: seq<T>, head: T, clear: T, k: nat)
    requires Fits(g, d) && |view| == |d| && TxOk(g, d, lh)
    requires k <= |TxWrites(g, lh, view, head, clear)|
    ensures WritesOk(d, TxWrites(g, lh, view, head, clear)[..k])
    ensures TxShape(g, d, lh, view, head, clear, k, Apply(d, TxWrites(g, lh, view, head, clear)[..k]))
  {
    var ws := TxWrites(g, lh, view, head, clear);
    var n := |lh|;
    TakeFour(LogWrites(g, lh, view), Write(g.start, head), HomeWrites(lh, view), Write(g.start, clear), k);
    if k <= n {
      LogPhase(g, d, lh, view, k);
    } else if k <= 2*n+1 {
      InstallPhase(g, d, lh, view, head, k-n-1);
    } else {
      ClearPhase(g, d, lh, view, head, clear);
    }
  }

  lemma {:induction false} TakeFour<T>(a: seq<T>, x: T, b: seq<T>, y: T, k: nat)
    requires k <= |a| + |b| + 2
    ensures (a + [x] + b + [y])[..k] ==
            if k <= |a| then a[..k]
            else if k <= |a| + |b| + 1 then a + [x] + b[..k-|a|-1]
            else a + [x] + b + [y]
  {
  }

  lemma {:induction false} ClearPhase<T>(g: Layout, d: seq<T>, lh: seq<Word>, view: seq<T>, head: T, clear: T)
    requires Fits(g, d) && |view| == |d| && TxOk(g, d, lh)
    ensures var ws := TxWrites(g, lh, view, head, clear);
            WritesOk(d, ws) && TxShape(g, d, lh, view, head, clear, |ws|, Apply(d, ws))
  {
    InstallPhase(g, d, lh, view, head, |lh|);
    var pre := LogWrites(g, lh, view) + [Write(g.start, head)] + HomeWrites(lh, view);
    assert HomeWrites(lh, view)[..|lh|] == HomeWrites(lh, view);
    ApplyOne(Apply(d, pre), Write(g.start, clear));
    ApplyConcat(d, pre, [Write(g.start, clear)]);
  }

  /** Copying the log blocks home: what any prefix of the copies leaves. */
  function CopyWrites<T>(g: Layout, d: seq<T>, lh: seq<Word>): (ws: seq<Write<T>>)
    requires Fits(g, d) && TxOk(g, d, lh)
    ensures WritesOk(d, ws)
  {
    seq(|lh|, i requires 0 <= i < |lh| => Write(lh[i], d[g.LogBlock(i)]))
  }

  lemma {:induction false} CopyPrefix<T>(g: Layout, d: seq<T>, lh: seq<Word>, k: nat)
    requires Fits(g, d) && TxOk(g, d, lh) && k <= |lh|
    ensures var r := Apply(d, CopyWrites(g, d, lh)[..k]);
            && (forall b :: 0 <= b < |d| && b !in lh ==> r[b] == d[b])
            && (forall i :: 0 <= i < |lh| ==> r[lh[i]] == if i < k then d[g.LogBlock(i)] else d[lh[i]])
  {
    hide Apply;
    var ws := CopyWrites(g, d, lh)[..k];
    ApplyDistinct(d, ws);
    forall i | 0 <= i < |lh| ensures Apply(d, ws)[lh[i]] == if i < k then d[g.LogBlock(i)] else d[lh[i]] {
      if i < k { assert ws[i].blockno == lh[i]; }
    }
  }

  /** Two disks with the same contents outside the log. */
  predicate SameHome<T(==)>(g: Layout, d: seq<T>, e: seq<T>) {
    |d| == |e| && forall b :: 0 <= b < |d| && !g.InLog(b) ==> d[b] == e[b]
  }

  /** The disk with a whole transaction applied to the home blocks. */
  function Committed<T>(d: seq<T>, lh: seq<Word>, view: seq<T>): (r: seq<T>)
    requires |view| == |d|
    ensures |r| == |d|
  {
    seq(|d|, b requires 0 <= b < |d| => if b in lh then view[b] else d[b])
  }
}
