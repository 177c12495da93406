/** Which buffers are dirty and which are idle while the log moves its blocks, and so
    when commit and recovery find the buffers they ask for. */
module CacheRoom {
  import opened BufferRing
  import opened BufferCache
  import opened Counting
  import opened DiskWrites

  /** Nobody holds a buffer. */
  ghost predicate Quiet<T>(s: seq<Buf<T>>) { forall x :: 0 <= x < |s| - 1 ==> !s[x].busy }

  ghost predicate Spare<T>(s: seq<Buf<T>>) { exists x :: 0 <= x < |s| - 1 && Idle(s[x]) }

  ghost predicate AllClean<T>(s: seq<Buf<T>>) { forall x :: 0 <= x < |s| - 1 ==> !s[x].dirty }

  /** Each of the blocks bs has a dirty buffer. */
  ghost predicate PinsAll<T>(s: seq<Buf<T>>, bs: seq<Word>) { forall k :: 0 <= k < |bs| ==> DirtyFor(s, bs[k]) }

  /** The dirty buffers are exactly those of the logged blocks. */
  ghost predicate Tight<T>(s: seq<Buf<T>>, lh: seq<Word>) {
    PinsAll(s, lh) && forall x :: 0 <= x < |s| - 1 && s[x].dirty ==> s[x].dev == DISK && s[x].blockno in lh
  }

  /** Every logged block can be read together with a log block: it has its own buffer and
      another one is idle, or nothing is dirty and there are two buffers. */
  ghost predicate Roomy<T>(s: seq<Buf<T>>, bs: seq<Word>) {
    Quiet(s) && ((Spare(s) && PinsAll(s, bs)) || (AllClean(s) && |s| > 2))
  }

  /** The same for one block. */
  ghost predicate RoomFor<T>(s: seq<Buf<T>>, b: nat) {
    Quiet(s) && ((Spare(s) && DirtyFor(s, b)) || (AllClean(s) && |s| > 2))
  }

  /** No buffer can be had for block b. */
  ghost predicate Crammed<T>(s: seq<Buf<T>>, b: nat) {
    forall x :: 0 <= x < |s| - 1 ==> !Idle(s[x]) && !Caches(s[x], DISK, b)
  }

  /** Two blocks were read, one into buffer i and one into buffer j. */
  ghost predicate FetchedBoth<T>(s: seq<Buf<T>>, t: seq<Buf<T>>, i: nat, j: nat, a: nat, b: nat) {
    && |s| == |t| && i < |s| - 1 && j < |s| - 1
    && (forall x :: 0 <= x < |s| - 1 && x != i && x != j ==> t[x] == s[x])
    && (forall x :: 0 <= x < |s| - 1 ==> t[x].dirty == s[x].dirty)
    && (forall x :: 0 <= x < |s| - 1 && s[x].dirty ==> t[x].dev == s[x].dev && t[x].blockno == s[x].blockno)
    && (forall x :: 0 <= x < |s| - 1 && s[x].dirty ==> (Caches(s[x], DISK, a) ==> x == i) && (Caches(s[x], DISK, b) ==> x == j))
    && Caches(t[i], DISK, a) && Caches(t[j], DISK, b)
  }

  /** Both buffers were released, j after a write. */
  ghost predicate Transferred<T>(s: seq<Buf<T>>, t: seq<Buf<T>>, i: nat, j: nat) {
    |s| == |t| && forall x :: 0 <= x < |s| - 1 ==>
      && t[x].busy == (s[x].busy && x != i && x != j) && t[x].dirty == (s[x].dirty && x != j)
      && t[x].dev == s[x].dev && t[x].blockno == s[x].blockno
  }

  /** Block b was written: no buffer of it is dirty, the other dirty buffers are as before,
      and no buffer that was free is held. */
  ghost predicate Moved<T>(s: seq<Buf<T>>, t: seq<Buf<T>>, b: nat) {
    && |s| == |t|
    && (forall x :: 0 <= x < |s| - 1 ==>
          && (t[x].dirty <==> s[x].dirty && !Caches(s[x], DISK, b))
          && (t[x].dirty ==> t[x].dev == s[x].dev && t[x].blockno == s[x].blockno))
    && (Quiet(s) ==> Quiet(t) && Spare(t))
  }

  /** No buffer became dirty, and none of those still dirty changed its block. */
  ghost predicate Shrunk<T>(s: seq<Buf<T>>, t: seq<Buf<T>>) {
    && |s| == |t| && (Quiet(s) ==> Quiet(t))
    && forall x :: 0 <= x < |s| - 1 && t[x].dirty ==> s[x].dirty && t[x].dev == s[x].dev && t[x].blockno == s[x].blockno
  }

  /** None of the blocks bs has a dirty buffer. */
  ghost predicate NoneOf<T>(s: seq<Buf<T>>, bs: seq<Word>) { forall k :: 0 <= k < |bs| ==> !DirtyFor(s, bs[k]) }

  lemma {:induction false} ShrunkNot<T>(s: seq<Buf<T>>)
    ensures Shrunk(s, s) && NoneOf(s, [])
  {
  }

  lemma {:induction false} NoneMore<T>(s: seq<Buf<T>>, t: seq<Buf<T>>, lh: seq<Word>, k: nat)
    requires k < |lh| && NoneOf(s, lh[..k]) && Moved(s, t, lh[k])
    ensures NoneOf(t, lh[..k + 1])
  {
    ShrunkNot(s);
    ShrunkOn(s, s, t, lh[k]);
    var done := lh[..k + 1];
    forall j | 0 <= j < |done| ensures !DirtyFor(t, done[j]) {
      assert j < k ==> done[j] == lh[..k][j];
    }
  }

  lemma {:induction false} NoneStill<T>(s: seq<Buf<T>>, t: seq<Buf<T>>, lh: seq<Word>, b: nat)
    requires NoneOf(s, lh) && Moved(s, t, b)
    ensures NoneOf(t, lh)
  {
    ShrunkNot(s);
    ShrunkOn(s, s, t, b);
  }

  lemma {:induction false} RoomFound<T>(s: seq<Buf<T>>, dev: int, b: nat)
    requires Quiet(s) && Spare(s)
    ensures forall x :: 0 <= x < |s| - 1 && Caches(s[x], dev, b) ==> !s[x].busy
    ensures exists x :: 0 <= x < |s| - 1 && Idle(s[x])
  {
  }

  lemma {:induction false} BothTurned<T>(s: seq<Buf<T>>, t: seq<Buf<T>>, i: nat, j: nat, a: nat, b: nat)
    requires FetchedBoth(s, t, i, j, a, b)
    ensures FetchedBoth(s, t, j, i, b, a)
  {
  }

  lemma {:induction false} SpareRoom<T>(s: seq<Buf<T>>, bs: seq<Word>)
    requires Roomy(s, bs)
    ensures Spare(s) && Quiet(s)
  {
    if AllClean(s) && |s| > 2 { assert Idle(s[0]); }
  }

  lemma {:induction false} SpareFor<T>(s: seq<Buf<T>>, b: nat)
    requires RoomFor(s, b)
    ensures Spare(s) && Quiet(s)
  {
    if AllClean(s) && |s| > 2 { assert Idle(s[0]); }
  }

  lemma {:induction false} RoomyAt<T>(s: seq<Buf<T>>, bs: seq<Word>, k: nat)
    requires Roomy(s, bs) && k < |bs|
    ensures RoomFor(s, bs[k])
  {
  }

  /** With room, the second of two reads finds a buffer too. */
  lemma {:induction false} SecondRead<T>(s: seq<Buf<T>>, m: seq<Buf<T>>, i: nat, a: nat, b: nat)
    requires RoomFor(s, b) && Fetched(s, m, i, DISK, a) && a != b
    ensures forall x :: 0 <= x < |m| - 1 && Caches(m[x], DISK, b) ==> !m[x].busy
    ensures exists x :: 0 <= x < |m| - 1 && (Caches(m[x], DISK, b) || Idle(m[x]))
  {
    if DirtyFor(s, b) {
      var x :| 0 <= x < |s| - 1 && Caches(s[x], DISK, b) && s[x].dirty;
      assert Caches(m[x], DISK, b);
    } else {
      var x := if i == 0 then 1 else 0;
      assert Idle(m[x]);
    }
  }

  lemma {:induction false} BothFetched<T>(s: seq<Buf<T>>, m: seq<Buf<T>>, t: seq<Buf<T>>, i: nat, j: nat, a: nat, b: nat)
    requires Fetched(s, m, i, DISK, a) && Fetched(m, t, j, DISK, b)
    ensures FetchedBoth(s, t, i, j, a, b) && i != j && a != b
  {
  }

  lemma {:induction false} CopyMoves<T>(s: seq<Buf<T>>, m: seq<Buf<T>>, t: seq<Buf<T>>, i: nat, j: nat, a: nat, b: nat)
    requires FetchedBoth(s, m, i, j, a, b) && Transferred(m, t, i, j) && a != b
    ensures Moved(s, t, b)
  {
    if Quiet(s) { assert Idle(t[j]); }
  }

  lemma {:induction false} HeadMoves<T>(s: seq<Buf<T>>, m: seq<Buf<T>>, t: seq<Buf<T>>, i: nat, b: nat)
    requires Fetched(s, m, i, DISK, b) && Transferred(m, t, i, i)
    ensures Moved(s, t, b)
  {
    if Quiet(s) { assert Idle(t[i]); }
  }

  /** Writing a block that is not among bs leaves room for bs. */
  lemma {:induction false} RoomyOn<T>(s: seq<Buf<T>>, t: seq<Buf<T>>, b: nat, bs: seq<Word>)
    requires Roomy(s, bs) && Moved(s, t, b) && b !in bs
    ensures Roomy(t, bs)
  {
    if PinsAll(s, bs) {
      forall k | 0 <= k < |bs| ensures DirtyFor(t, bs[k]) {
        assert DirtyFor(s, bs[k]);
        var x :| 0 <= x < |s| - 1 && Caches(s[x], DISK, bs[k]) && s[x].dirty;
        assert Caches(t[x], DISK, bs[k]) && t[x].dirty;
      }
    }
  }

  lemma {:induction false} RoomyPart<T>(s: seq<Buf<T>>, bs: seq<Word>, cs: seq<Word>)
    requires Roomy(s, bs) && forall c :: c in cs ==> c in bs
    ensures Roomy(s, cs)
  {
    if PinsAll(s, bs) {
      forall k | 0 <= k < |cs| ensures DirtyFor(s, cs[k]) {
        assert cs[k] in bs;
      }
    }
  }

  lemma {:induction false} ShrunkOn<T>(s: seq<Buf<T>>, m: seq<Buf<T>>, t: seq<Buf<T>>, b: nat)
    requires Shrunk(s, m) && Moved(m, t, b)
    ensures Shrunk(s, t) && !DirtyFor(t, b) && forall c :: !DirtyFor(m, c) ==> !DirtyFor(t, c)
  {
    forall c | DirtyFor(t, c) ensures DirtyFor(m, c) && c != b {
      var x :| 0 <= x < |t| - 1 && Caches(t[x], DISK, c) && t[x].dirty;
      assert Caches(m[x], DISK, c) && m[x].dirty;
    }
  }

  lemma {:induction false} ShrunkThen<T>(s: seq<Buf<T>>, m: seq<Buf<T>>, t: seq<Buf<T>>)
    requires Shrunk(s, m) && Shrunk(m, t)
    ensures Shrunk(s, t)
  {
  }

  /** When the logged blocks have all been written, no dirty buffer is left. */
  lemma {:induction false} NoneLeft<T>(s: seq<Buf<T>>, t: seq<Buf<T>>, lh: seq<Word>)
    requires Tight(s, lh) && Shrunk(s, t) && NoneOf(t, lh)
    ensures AllClean(t)
  {
    forall x | 0 <= x < |t| - 1 ensures t[x].dirty ==> t[x].blockno in lh && DirtyFor(t, t[x].blockno) {
      assert t[x].dirty ==> Caches(t[x], DISK, t[x].blockno);
    }
  }

  /** log_write keeps the dirty buffers those of the logged blocks. */
  lemma {:induction false} TightLogged<T>(s: seq<Buf<T>>, lh: seq<Word>, lh': seq<Word>, i: nat)
    requires Tight(s, lh) && i < |s| - 1 && s[i].dev == DISK
    requires forall b :: b in lh' <==> b in lh || b == s[i].blockno
    ensures Tight(s[i := s[i].(dirty := true)], lh')
  {
    var t := s[i := s[i].(dirty := true)];
    forall k | 0 <= k < |lh'| ensures DirtyFor(t, lh'[k]) {
      if lh'[k] == s[i].blockno {
        assert Caches(t[i], DISK, lh'[k]) && t[i].dirty;
      } else {
        assert lh'[k] in lh;
        assert DirtyFor(s, lh'[k]);
        var x :| 0 <= x < |s| - 1 && Caches(s[x], DISK, lh'[k]) && s[x].dirty;
        assert Caches(t[x], DISK, lh'[k]) && t[x].dirty;
      }
    }
  }

  /** Reading a block keeps them so, for every reader. */
  lemma {:induction false} TightFetched<T>(s: seq<Buf<T>>, t: seq<Buf<T>>, lh: seq<Word>, i: nat, dev: int, b: nat)
    requires Tight(s, lh) && Fetched(s, t, i, dev, b)
    ensures Tight(t, lh)
  {
    forall k | 0 <= k < |lh| ensures DirtyFor(t, lh[k]) {
      assert DirtyFor(s, lh[k]);
      var x :| 0 <= x < |s| - 1 && Caches(s[x], DISK, lh[k]) && s[x].dirty;
      assert Caches(t[x], DISK, lh[k]) && t[x].dirty;
    }
  }

  /** And so does releasing one. */
  lemma {:induction false} TightReleased<T>(s: seq<Buf<T>>, t: seq<Buf<T>>, lh: seq<Word>, i: nat)
    requires Tight(s, lh) && |s| == |t|
    requires forall x :: 0 <= x < |s| - 1 ==> SameButLinks(if x == i then s[x].(busy := false) else s[x], t[x])
    ensures Tight(t, lh)
  {
    forall k | 0 <= k < |lh| ensures DirtyFor(t, lh[k]) {
      assert DirtyFor(s, lh[k]);
      var x :| 0 <= x < |s| - 1 && Caches(s[x], DISK, lh[k]) && s[x].dirty;
      assert Caches(t[x], DISK, lh[k]) && t[x].dirty;
    }
  }

  // ------------------------------------------------------------ counting

  /** The dirty buffers of the blocks bs. */
  ghost function DirtySet<T>(s: seq<Buf<T>>, bs: seq<Word>): set<nat> {
    set x | 0 <= x < |s| - 1 && s[x].dirty && s[x].dev == DISK && s[x].blockno in bs
  }

  /** As many dirty buffers as logged blocks. */
  lemma {:induction false} DirtyCount<T>(s: seq<Buf<T>>, lh: seq<Word>)
    requires Unique(s) && PinsAll(s, lh) && Distinct(lh)
    ensures |DirtySet(s, lh)| == |lh|
  {
    hide Unique;
    if lh == [] {
      assert DirtySet(s, lh) == {};
    } else {
      var k := |lh| - 1;
      var rest, b := lh[..k], lh[k];
      forall m | 0 <= m < |rest| ensures DirtyFor(s, rest[m]) { assert DirtyFor(s, lh[m]); }
      DirtyCount(s, rest);
      assert DirtyFor(s, lh[k]);
      var x :| 0 <= x < |s| - 1 && Caches(s[x], DISK, b) && s[x].dirty;
      OthersElsewhere(s, x);
      assert lh == rest + [b];
      assert DirtySet(s, lh) == DirtySet(s, rest) + {x};
    }
  }

  /** Whoever holds a buffer of a block that is not logged holds one beside those of the logged
      blocks, which are therefore fewer than the buffers. */
  lemma {:induction false} HolderBeside<T>(s: seq<Buf<T>>, lh: seq<Word>, i: nat)
    requires Unique(s) && PinsAll(s, lh) && Distinct(lh) && i < |s| - 1 && !(s[i].dev == DISK && s[i].blockno in lh)
    ensures |lh| < |s| - 1
  {
    hide Unique, PinsAll, Distinct;
    DirtyCount(s, lh);
    SpanSize(0, |s| - 1);
    assert i !in DirtySet(s, lh) && i in Span(0, |s| - 1);
    SubsetSize(DirtySet(s, lh), Span(0, |s| - 1));
  }

  /** A buffer is left for the log if and only if there are more buffers than logged blocks. */
  lemma {:induction false} RoomCount<T>(s: seq<Buf<T>>, lh: seq<Word>)
    requires |s| > 0 && Unique(s) && Tight(s, lh) && Distinct(lh) && Quiet(s)
    ensures |lh| < |s| - 1 ==> Roomy(s, lh)
    ensures |lh| >= |s| - 1 ==> forall x :: 0 <= x < |s| - 1 ==> s[x].dirty
  {
    DirtyCount(s, lh);
    SpanSize(0, |s| - 1);
    SubsetSize(DirtySet(s, lh), Span(0, |s| - 1));
    if |lh| < |s| - 1 {
      MissingOne(DirtySet(s, lh), Span(0, |s| - 1));
      var x :| x in Span(0, |s| - 1) && x !in DirtySet(s, lh);
      assert Idle(s[x]);
    } else {
      forall x | 0 <= x < |s| - 1 ensures s[x].dirty {
        assert x in Span(0, |s| - 1);
      }
    }
  }

  /** Then the first log block cannot be read: it is not cached and every buffer is dirty. */
  lemma {:induction false} NoRoom<T>(s: seq<Buf<T>>, lh: seq<Word>, b: nat)
    requires |s| > 0 && Unique(s) && Tight(s, lh) && Distinct(lh) && Quiet(s) && |lh| >= |s| - 1 && b !in lh
    ensures Crammed(s, b)
  {
    RoomCount(s, lh);
  }
}
