/** log.c over the buffer cache: the loops that write, publish, install and recover
    a transaction, each proved to send the disk exactly the writes of RedoLog.
    A method that finds no buffer stops early; it has then made a prefix of its writes,
    which is what a crash at that point leaves. When nobody holds a buffer, commit finds
    its buffers if and only if there are more of them than logged blocks. */
module LogManager {
  import opened Blocks
  import opened DiskWrites
  import opened RedoLog
  import opened BufferCache
  import opened BufferRing
  import opened CacheRoom
  import GroupCommit

  /** The two buffers i and j are held and show blocks a and b. */
  ghost predicate Holds(c: Cache<Block>, i: nat, a: nat, data: Block)
    reads c, c.buf
  {
    && c.buf.Length == c.nbuf + 1 && i < c.nbuf
    && c.buf[i].busy && c.buf[i].valid && Caches(c.buf[i], DISK, a) && c.buf[i].data == data
  }

  method ReadBoth(c: Cache<Block>, a: nat, b: nat) returns (ok: bool, i: nat, j: nat)
    requires c.Valid()
    modifies c.buf, c`disk, c`trace
    ensures c.Valid() && c.disk == old(c.disk) && c.trace == old(c.trace)
    ensures ok ==> a < |c.disk| && b < |c.disk| && a != b
    ensures ok ==> i != j && Holds(c, i, a, c.current[a]) && Holds(c, j, b, c.current[b])
    ensures ok ==> FetchedBoth(old(c.buf[..]), c.buf[..], i, j, a, b) && !Crammed(old(c.buf[..]), a)
    ensures a < |c.disk| && b < |c.disk| && a != b && RoomFor(old(c.buf[..]), b) ==> ok
  {
    hide RoomFor, Spare, Quiet, FetchedBoth;
    i, j := 0, 0;
    ghost var s := c.buf[..];
    if RoomFor(s, b) { SpareFor(s, b); }
    var r := c.Bread(DISK, a);
    if !r.Found? {
      if RoomFor(s, b) { RoomFound(s, DISK, a); }
      return false, i, j;
    }
    i := r.i;
    ghost var m := c.buf[..];
    if RoomFor(s, b) && a != b { SecondRead(s, m, i, a, b); }
    r := c.Bread(DISK, b);
    if !r.Found? { return false, i, j; }
    j := r.i;
    BothFetched(s, m, c.buf[..], i, j, a, b);
    return true, i, j;
  }

  /** memmove(dst, src); bwrite(dst); brelse(src); brelse(dst). */
  method Transfer(c: Cache<Block>, src: nat, dst: nat, ghost a: nat, ghost b: nat)
    requires c.Valid() && a != b && a < |c.disk| && b < |c.disk| && src != dst
    requires Holds(c, src, a, c.current[a]) && Holds(c, dst, b, c.current[b])
    modifies c, c.buf
    ensures c.Valid()
    ensures c.disk == old(c.disk)[b := old(c.current[a])] && c.current == old(c.current)[b := old(c.current[a])]
    ensures c.trace == old(c.trace) + [Write(b, old(c.current[a]))]
    ensures Transferred(old(c.buf[..]), c.buf[..], src, dst)
  {
    c.Store(dst, c.buf[src].data);
    var ok := c.Bwrite(dst);
    ok := c.Brelse(src);
    ok := c.Brelse(dst);
  }

  /** Change the held block b, bwrite it and release it. */
  method PutBlock(c: Cache<Block>, i: nat, ghost b: nat, data: Block)
    requires c.Valid() && b < |c.disk| && Holds(c, i, b, c.current[b])
    modifies c, c.buf
    ensures c.Valid() && c.disk == old(c.disk)[b := data] && c.current == old(c.current)[b := data]
    ensures c.trace == old(c.trace) + [Write(b, data)]
    ensures Transferred(old(c.buf[..]), c.buf[..], i, i)
  {
    c.Store(i, data);
    var ok := c.Bwrite(i);
    ok := c.Brelse(i);
  }

  /** Copy block a to block b through the cache, reading the log block first. */
  method CopyBlock(c: Cache<Block>, a: nat, b: nat, bFirst: bool) returns (ok: bool)
    requires c.Valid()
    modifies c, c.buf
    ensures c.Valid()
    ensures ok ==> a < |old(c.current)| && b < |old(c.disk)|
    ensures if ok then
              var w := Write(b, old(c.current)[a]);
              && c.disk == old(c.disk)[b := w.data] && c.current == old(c.current)[b := w.data]
              && c.trace == old(c.trace) + [w]
            else c.disk == old(c.disk) && c.current == old(c.current) && c.trace == old(c.trace)
    ensures ok ==> Moved(old(c.buf[..]), c.buf[..], b)
    ensures ok && bFirst ==> !Crammed(old(c.buf[..]), b)
    ensures a < |c.disk| && b < |c.disk| && a != b && RoomFor(old(c.buf[..]), if bFirst then a else b) ==> ok
  {
    hide RoomFor, Crammed, FetchedBoth, Transferred, Moved;
    var i, j;
    if bFirst {
      ok, j, i := ReadBoth(c, b, a);
    } else {
      ok, i, j := ReadBoth(c, a, b);
    }
    if ok {
      ghost var m := c.buf[..];
      if bFirst { BothTurned(old(c.buf[..]), m, j, i, b, a); }
      Transfer(c, i, j, a, b);
      CopyMoves(old(c.buf[..]), m, c.buf[..], i, j, a, b);
    }
  }

  /** The log blocks on disk are the log blocks readers see. */
  ghost predicate LogClean(g: Layout, disk: Disk, current: Disk) {
    && Fits(g, disk) && |current| == |disk|
    && forall b :: 0 <= b < |disk| && g.InLog(b) ==> current[b] == disk[b]
  }

  class Log {
    const cache: Cache<Block>
    const g: Layout
    const block: array<Word>  // lh.block
    var n: nat                // lh.n

    ghost predicate Valid()
      reads this, cache, cache.buf, block
    {
      cache.Valid() && block.Length == LOGSIZE && n <= LOGSIZE && LogClean(g, cache.disk, cache.current)
    }

    ghost function Lh(): seq<Word>
      reads this, block
      requires n <= block.Length
    { block[..n] }

    constructor (c: Cache<Block>, layout: Layout)
      requires c.Valid() && LogClean(layout, c.disk, c.current)
      ensures Valid() && cache == c && g == layout && n == 0 && fresh(block)
    {
      cache, g, n := c, layout, 0;
      block := new Word[LOGSIZE](_ => 0);
    }

    /** write_log: the cached blocks go to the log, in order. If no buffer can be had for the first
        log block, nothing is written, however many blocks the log holds. */
    method WriteLog() returns (ok: bool, tail: nat)
      requires Valid()
      modifies cache, cache.buf
      ensures Valid() && Lh() == old(Lh())
      ensures TxOk(g, old(cache.disk), Lh()) ==>
        && Wrote(old(cache.trace), old(cache.disk), LogWrites(g, Lh(), old(cache.current)), tail, cache.trace, cache.disk)
        && (ok ==> tail == n && Shrunk(old(cache.buf[..]), cache.buf[..]))
        && (Roomy(old(cache.buf[..]), Lh()) ==> ok && Roomy(cache.buf[..], Lh()))
        && SameHome(g, cache.current, old(cache.current))
      ensures n > 0 && Crammed(old(cache.buf[..]), g.start + 1) ==>
        !ok && tail == 0 && cache.disk == old(cache.disk) && cache.trace == old(cache.trace)
    {
      hide Logged, Wrote, Roomy, RoomFor, Crammed, Moved, Shrunk, Ring, Coherent, Unique, LogWrites, SameHome;
      ghost var fit, s, t0, d0, c0 := TxOk(g, cache.disk, Lh()), cache.buf[..], cache.trace, cache.disk, cache.current;
      if fit { LoggedNone(t0, d0, c0, s); }
      tail := 0;
      while tail < n
        invariant tail <= n && Valid() && (fit ==> Logged(t0, d0, c0, s, tail))
        invariant if tail == 0 then cache.buf[..] == s && cache.disk == d0 && cache.trace == t0
                  else !Crammed(s, g.start + 1)
      {
        if fit { LoggedMeans(t0, d0, c0, s, tail); }
        ok := WriteOne(tail, fit, t0, d0, c0, s);
        if !ok { return; }
        tail := tail + 1;
      }
      if fit { LoggedMeans(t0, d0, c0, s, tail); }
      return true, tail;
    }

    /** Since (t0, d0, c0) with buffers s, the first k logged blocks went to the log. */
    ghost predicate Logged(t0: seq<Write<Block>>, d0: Disk, c0: Disk, s: seq<Buf<Block>>, k: nat)
      reads this, cache, cache.buf, block
    {
      && n <= block.Length && k <= n && TxOk(g, d0, Lh()) && |c0| == |d0|
      && Wrote(t0, d0, LogWrites(g, Lh(), c0), k, cache.trace, cache.disk) && SameHome(g, cache.current, c0)
      && Shrunk(s, cache.buf[..]) && (Roomy(s, Lh()) ==> Roomy(cache.buf[..], Lh()))
    }

    lemma {:induction false} LoggedNone(t0: seq<Write<Block>>, d0: Disk, c0: Disk, s: seq<Buf<Block>>)
      requires Valid() && t0 == cache.trace && d0 == cache.disk && c0 == cache.current && s == cache.buf[..] && TxOk(g, d0, Lh())
      ensures Logged(t0, d0, c0, s, 0)
    {
      hide Wrote, Roomy, Shrunk;
      ShrunkNot(s);
      WroteNone(t0, d0, LogWrites(g, Lh(), c0));
    }

    lemma {:induction false} LoggedMeans(t0: seq<Write<Block>>, d0: Disk, c0: Disk, s: seq<Buf<Block>>, k: nat)
      requires Logged(t0, d0, c0, s, k)
      ensures n <= block.Length && k <= n && TxOk(g, d0, Lh()) && |c0| == |d0|
      ensures Wrote(t0, d0, LogWrites(g, Lh(), c0), k, cache.trace, cache.disk) && SameHome(g, cache.current, c0)
      ensures Shrunk(s, cache.buf[..]) && (Roomy(s, Lh()) ==> Roomy(cache.buf[..], Lh()))
    {
    }

    /** The body of write_log's loop. */
    method WriteOne(tail: nat, ghost fit: bool, ghost t0: seq<Write<Block>>, ghost d0: Disk, ghost c0: Disk, ghost s: seq<Buf<Block>>)
      returns (ok: bool)
      requires Valid() && tail < n && (fit ==> Logged(t0, d0, c0, s, tail))
      modifies cache, cache.buf
      ensures Valid() && Lh() == old(Lh())
      ensures fit && ok ==> Logged(t0, d0, c0, s, tail + 1)
      ensures fit && !ok ==> !Roomy(s, Lh()) && SameHome(g, cache.current, c0)
      ensures ok ==> !Crammed(old(cache.buf[..]), g.start + tail + 1)
      ensures !ok ==> cache.disk == old(cache.disk) && cache.trace == old(cache.trace)
    {
      hide Wrote, Roomy, RoomFor, Crammed, Moved, Shrunk, Ring, Coherent, Unique;
      ghost var m := cache.buf[..];
      if fit {
        WroteNext(t0, d0, LogWrites(g, Lh(), c0), tail, cache.trace, cache.disk);
        if Roomy(m, Lh()) { RoomyAt(m, Lh(), tail); }
      }
      ok := CopyBlock(cache, block[tail], g.start + tail + 1, true);
      if ok && fit {
        ShrunkOn(s, m, cache.buf[..], g.start + tail + 1);
        if Roomy(m, Lh()) { RoomyOn(m, cache.buf[..], g.start + tail + 1, Lh()); }
      }
    }

    /** install_trans: the log blocks go to their home blocks, in order. */
    method InstallTrans() returns (ok: bool, tail: nat)
      requires Valid() && TxOk(g, cache.disk, Lh())
      modifies cache, cache.buf
      ensures Valid() && Lh() == old(Lh())
      ensures Wrote(old(cache.trace), old(cache.disk), CopyWrites(g, old(cache.current), Lh()), tail, cache.trace, cache.disk)
      ensures ok ==> tail == n && Shrunk(old(cache.buf[..]), cache.buf[..]) && NoneOf(cache.buf[..], Lh())
      ensures Roomy(old(cache.buf[..]), Lh()) ==> ok && Roomy(cache.buf[..], [])
      ensures forall b :: 0 <= b < |cache.disk| && g.InLog(b) ==> cache.current[b] == old(cache.current)[b]
    {
      hide Wrote, Roomy, RoomFor, Moved, Shrunk, NoneOf, Ring, Coherent, Unique;
      ghost var ws, s := CopyWrites(g, cache.current, Lh()), cache.buf[..];
      ShrunkNot(s);
      assert Lh()[0..] == Lh() && Lh()[..0] == [];
      WroteNone(cache.trace, cache.disk, ws);
      tail := 0;
      while tail < n
        invariant tail <= n && Valid()
        invariant Wrote(old(cache.trace), old(cache.disk), ws, tail, cache.trace, cache.disk)
        invariant |cache.current| == |old(cache.current)|
        invariant forall b :: 0 <= b < |cache.disk| && g.InLog(b) ==> cache.current[b] == old(cache.current)[b]
        invariant Shrunk(s, cache.buf[..]) && NoneOf(cache.buf[..], Lh()[..tail])
        invariant Roomy(s, Lh()) ==> Roomy(cache.buf[..], Lh()[tail..])
      {
        WroteNext(old(cache.trace), old(cache.disk), ws, tail, cache.trace, cache.disk);
        ghost var m := cache.buf[..];
        if Roomy(m, Lh()[tail..]) {
          RoomyAt(m, Lh()[tail..], 0);
          RoomyPart(m, Lh()[tail..], Lh()[tail + 1..]);
        }
        ok := CopyBlock(cache, g.start + tail + 1, block[tail], false);
        if !ok { return; }
        ShrunkOn(s, m, cache.buf[..], block[tail]);
        NoneMore(m, cache.buf[..], Lh(), tail);
        if Roomy(m, Lh()[tail + 1..]) { RoomyOn(m, cache.buf[..], block[tail], Lh()[tail + 1..]); }
        tail := tail + 1;
      }
      assert Lh()[tail..] == [] && Lh()[..tail] == Lh();
      return true, tail;
    }

    /** write_head's loop over the names. */
    method FillHead(b: Block) returns (hb: Block)
      requires n <= block.Length == LOGSIZE
      ensures hb == EncodeHead(b, Lh())
    {
      hb := SetWord(b, 0, n);
      for i := 0 to n
        invariant hb == EncodeNames(SetWord(b, 0, n), Lh()[..i])
      {
        assert Lh()[..i+1][..i] == Lh()[..i];
        hb := SetWord(hb, i+1, block[i]);
      }
      assert Lh()[..n] == Lh();
    }

    /** write_head: one write, the header block with the current count and names. */
    method WriteHead() returns (ok: bool)
      requires Valid()
      modifies cache, cache.buf
      ensures Valid() && Lh() == old(Lh())
      ensures var w := Write(g.start, EncodeHead(old(cache.current[g.start]), Lh()));
              if ok then
                && cache.trace == old(cache.trace) + [w] && cache.disk == old(cache.disk)[w.blockno := w.data]
                && cache.current == old(cache.current)[w.blockno := w.data]
              else cache.trace == old(cache.trace) && cache.disk == old(cache.disk) && cache.current == old(cache.current)
      ensures ok ==> Moved(old(cache.buf[..]), cache.buf[..], g.start)
      ensures Roomy(old(cache.buf[..]), []) ==> ok
    {
      hide Moved, Roomy, Quiet, Spare, EncodeHead, Transferred;
      ghost var s := cache.buf[..];
      if Roomy(s, []) { SpareRoom(s, []); }
      var r := cache.Bread(DISK, g.start);
      if !r.Found? {
        if Roomy(s, []) { RoomFound(s, DISK, g.start); }
        return false;
      }
      ghost var m := cache.buf[..];
      var hb := FillHead(cache.buf[r.i].data);
      PutBlock(cache, r.i, g.start, hb);
      ok := true;
      HeadMoves(s, m, cache.buf[..], r.i, g.start);
    }

    /** read_head's loop over the names. */
    method LoadHead(lh: Block)
      requires HeadOk(lh) && block.Length == LOGSIZE
      modifies this`n, block
      ensures n <= LOGSIZE && Lh() == DecodeHead(lh)
    {
      n := GetWord(lh, 0);
      for i := 0 to n
        invariant forall j :: 0 <= j < i ==> block[j] == GetWord(lh, j+1)
        modifies block
      {
        block[i] := GetWord(lh, i+1);
      }
      assert Lh() == DecodeHead(lh);
    }

    /** read_head: the on-disk header becomes the in-memory one. */
    method ReadHead() returns (ok: bool)
      requires Valid() && HeadOk(cache.disk[g.start])
      modifies this`n, block, cache.buf, cache`disk, cache`trace, cache`order, cache`released
      ensures Valid() && cache.disk == old(cache.disk) && cache.trace == old(cache.trace)
      ensures if ok then Lh() == DecodeHead(cache.disk[g.start]) else Lh() == old(Lh())
      ensures Roomy(old(cache.buf[..]), []) && AllClean(old(cache.buf[..])) ==> ok && Quiet(cache.buf[..]) && AllClean(cache.buf[..])
    {
      hide Roomy, Spare, Ring, Coherent, Unique, DecodeHead;
      ghost var s := cache.buf[..];
      if Roomy(s, []) { SpareRoom(s, []); }
      var r := cache.Bread(DISK, g.start);
      if !r.Found? {
        if Roomy(s, []) { RoomFound(s, DISK, g.start); }
        return false;
      }
      var lh := cache.buf[r.i].data;
      LoadHead(lh);
      var rel := cache.Brelse(r.i);
      return true;
    }
  
    /** write_log(); write_head(). */
    method Publish() returns (ok: bool, written: nat)
      requires Valid() && TxOk(g, cache.disk, Lh())
      modifies cache, cache.buf
      ensures Valid() && Lh() == old(Lh())
      ensures SameHome(g, cache.current, old(cache.current))
      ensures Wrote(old(cache.trace), old(cache.disk),
                    LogWrites(g, Lh(), old(cache.current)) + [Write(g.start, EncodeHead(old(cache.disk)[g.start], Lh()))],
                    written, cache.trace, cache.disk)
      ensures ok ==> written == n + 1 && Shrunk(old(cache.buf[..]), cache.buf[..])
      ensures Roomy(old(cache.buf[..]), Lh()) ==> ok && Roomy(cache.buf[..], Lh())
      ensures n > 0 && Crammed(old(cache.buf[..]), g.start + 1) ==> !ok && written == 0
    {
      hide EncodeHead, LogWrites, Roomy, Crammed, Shrunk, Moved;
      ghost var lh, d0, t0, view, s := Lh(), cache.disk, cache.trace, cache.current, cache.buf[..];
      ghost var logw := LogWrites(g, lh, view);
      ghost var w := Write(g.start, EncodeHead(d0[g.start], lh));
      ok, written := WriteLog();
      ghost var t1, d1 := cache.trace, cache.disk;
      WroteExtend(t0, d0, logw, [w], written, t1, d1);
      if !ok { return; }
      HeadUntouched(g, d0, lh, view, d1);
      ghost var m := cache.buf[..];
      if Roomy(s, lh) { RoomyPart(m, lh, []); }
      ok := WriteHead();
      if !ok { return; }
      ShrunkOn(s, m, cache.buf[..], g.start);
      if Roomy(s, lh) { RoomyOn(m, cache.buf[..], g.start, lh); }
      WroteNone(t1, d1, [w]);
      WroteNext(t1, d1, [w], 0, t1, d1);
      WroteThen(t0, d0, logw, t1, d1, [w], 1, cache.trace, cache.disk);
      written := written + 1;
    }

    /** install_trans(); log.lh.n = 0; write_head(). */
    method Erase() returns (ok: bool, written: nat)
      requires Valid() && TxOk(g, cache.disk, Lh())
      modifies this`n, cache, cache.buf
      ensures Valid()
      ensures Wrote(old(cache.trace), old(cache.disk), EraseWrites(g, old(cache.current), old(Lh())),
                    written, cache.trace, cache.disk)
      ensures ok ==>
        && n == 0 && written == |old(Lh())| + 1
        && Shrunk(old(cache.buf[..]), cache.buf[..]) && NoneOf(cache.buf[..], old(Lh()))
      ensures Roomy(old(cache.buf[..]), old(Lh())) ==> ok
    {
      hide Roomy, Shrunk, Moved, NoneOf, Ring, Coherent, Unique;
      ghost var lh, d0, t0, view, s := Lh(), cache.disk, cache.trace, cache.current, cache.buf[..];
      ghost var copies := CopyWrites(g, view, lh);
      ghost var w := Write(g.start, EncodeHead(view[g.start], []));
      ok, written := InstallTrans();
      ghost var t1, d1 := cache.trace, cache.disk;
      WroteExtend(t0, d0, copies, [w], written, t1, d1);
      if !ok { return; }
      n := 0;
      ghost var m := cache.buf[..];
      ok := WriteHead();
      if !ok { return; }
      ShrunkOn(s, m, cache.buf[..], g.start);
      NoneStill(m, cache.buf[..], lh, g.start);
      WroteNone(t1, d1, [w]);
      WroteNext(t1, d1, [w], 0, t1, d1);
      WroteThen(t0, d0, copies, t1, d1, [w], 1, cache.trace, cache.disk);
      written := written + 1;
    }

    /** commit(): exactly the writes of CommitWrites, or a prefix of them if it finds no buffer.
        When nobody holds a buffer and the dirty buffers are those of the logged blocks, it
        completes if and only if there are more buffers than logged blocks, and then no buffer
        is dirty. */
    method Commit() returns (ok: bool, written: nat)
      requires Valid() && TxOk(g, cache.disk, Lh())
      modifies this`n, cache, cache.buf
      ensures Valid()
      ensures Wrote(old(cache.trace), old(cache.disk),
                    CommitWrites(g, old(cache.disk), old(Lh()), old(cache.current)), written, cache.trace, cache.disk)
      ensures ok ==> n == 0 && written == |CommitWrites(g, old(cache.disk), old(Lh()), old(cache.current))|
      ensures Quiet(old(cache.buf[..])) && Tight(old(cache.buf[..]), old(Lh())) ==>
        && (ok <==> old(n) == 0 || old(n) < cache.nbuf)
        && (if ok then Quiet(cache.buf[..]) && AllClean(cache.buf[..]) else written == 0)
    {
      hide Wrote, CommitWrites, EncodeHead, LogWrites, HomeWrites, Roomy, Crammed, Tight, Shrunk, NoneOf, Quiet, AllClean,
           Ring, Coherent, Unique;
      ghost var lh, d0, t0, view, s := Lh(), cache.disk, cache.trace, cache.current, cache.buf[..];
      ghost var settled := Quiet(s) && Tight(s, lh);
      if settled {
        CacheUnique(cache);
        CommitRoom(g, d0, s, lh);
      }
      WroteNone(t0, d0, CommitWrites(g, d0, lh, view));
      CommitSplits(g, d0, lh, view);
      if n == 0 { return true, 0; }
      ok, written := Publish();
      ghost var pub := LogWrites(g, lh, view) + [Write(g.start, EncodeHead(d0[g.start], lh))];
      ghost var era := HomeWrites(lh, view) + [Write(g.start, EncodeHead(EncodeHead(d0[g.start], lh), []))];
      WroteExtend(t0, d0, pub, era, written, cache.trace, cache.disk);
      if !ok { return; }
      ghost var t1, d1, m := cache.trace, cache.disk, cache.buf[..];
      WroteAfter(t0, d0, pub, |lh| + 1, t1, d1);
      PublishedLog(g, d0, lh, view, d1, cache.current);
      var k;
      ok, k := Erase();
      WroteThen(t0, d0, pub, t1, d1, era, k, cache.trace, cache.disk);
      if ok && settled { CommitCleans(s, m, cache.buf[..], lh); }
      written := written + k;
    }

    /** recover_from_log() on a machine that has just started: the cache is still
        in step with the disk. */
    method RecoverFromLog() returns (ok: bool, written: nat)
      requires Valid() && cache.current == cache.disk && Recoverable(g, cache.disk)
      modifies this`n, block, cache, cache.buf
      ensures Valid()
      ensures Wrote(old(cache.trace), old(cache.disk), RecoverWrites(g, old(cache.disk)), written, cache.trace, cache.disk)
      ensures ok ==> n == 0 && cache.disk == Recovered(g, old(cache.disk))
      ensures Quiet(old(cache.buf[..])) && AllClean(old(cache.buf[..])) && cache.nbuf >= 2 ==> ok
    {
      WroteNone(cache.trace, cache.disk, RecoverWrites(g, cache.disk));
      ok := ReadHead();
      if !ok { return false, 0; }
      ok, written := Erase();
      assert ok ==> RecoverWrites(g, old(cache.disk))[..written] == RecoverWrites(g, old(cache.disk));
    }

    /** log_write's two tests, made before it takes the lock; false is a panic. Other processes
        may record blocks between this and Record. */
    method LogGuard(outstanding: nat) returns (ok: bool)
      ensures ok <==> n < LOGSIZE && n < g.size - 1 && outstanding >= 1
    {
      ok := !(n >= LOGSIZE || n >= g.size - 1) && outstanding >= 1;
    }

    /** The rest of log_write: record the block once, and pin its buffer. A new block needs an entry
        of lh.block. */
    method Record(i: nat)
      requires Valid() && i < cache.nbuf && cache.buf[i].busy && cache.buf[i].valid
      requires cache.buf[i].blockno < 0x1_0000_0000 && !g.InLog(cache.buf[i].blockno)
      requires n < LOGSIZE || cache.buf[i].blockno in Lh()
      modifies this`n, block, cache, cache.buf
      ensures Valid() && cache.disk == old(cache.disk) && cache.trace == old(cache.trace)
      ensures var b := old(cache.buf[i]);
        && Lh() == GroupCommit.Append(old(Lh()), b.blockno)
        && cache.buf[..] == old(cache.buf[..])[i := b.(dirty := true)]
        && cache.current == old(cache.current)[b.blockno := b.data]
        && (Tight(old(cache.buf[..]), old(Lh())) ==> Tight(cache.buf[..], Lh()))
    {
      hide Tight;
      var b: Word := cache.buf[i].blockno;
      var k := 0;
      while k < n && block[k] != b
        invariant 0 <= k <= n
        invariant forall j :: 0 <= j < k ==> block[j] != b
      {
        k := k + 1;
      }
      ghost var lh := Lh();
      block[k] := b;
      if k == n {
        n := n + 1;
      }
      assert Lh() == GroupCommit.Append(lh, b);
      ghost var s := cache.buf[..];
      if Tight(s, lh) { TightLogged(s, lh, Lh(), i); }
      cache.MarkLogged(i);
    }
  }

  function EraseWrites(g: Layout, d: Disk, lh: seq<Word>): seq<Write<Block>>
    requires Fits(g, d) && TxOk(g, d, lh)
  {
    CopyWrites(g, d, lh) + [Write(g.start, EncodeHead(d[g.start], []))]
  }

  lemma {:induction false} CacheUnique(c: Cache<Block>)
    requires c.Valid()
    ensures Unique(c.buf[..])
  {
  }

  lemma {:induction false} CommitRoom(g: Layout, d: Disk, s: seq<Buf<Block>>, lh: seq<Word>)
    requires |s| > 0 && Unique(s) && Quiet(s) && Tight(s, lh) && TxOk(g, d, lh) && 1 <= g.size
    ensures |lh| < |s| - 1 ==> Roomy(s, lh)
    ensures |lh| >= |s| - 1 ==> lh == [] || Crammed(s, g.start + 1)
    ensures lh == [] ==> AllClean(s)
  {
    RoomCount(s, lh);
    if |lh| >= |s| - 1 && lh != [] { NoRoom(s, lh, g.start + 1); }
  }

  lemma {:induction false} CommitCleans(s: seq<Buf<Block>>, m: seq<Buf<Block>>, t: seq<Buf<Block>>, lh: seq<Word>)
    requires Quiet(s) && Tight(s, lh) && Shrunk(s, m) && Shrunk(m, t) && NoneOf(t, lh)
    ensures Quiet(t) && AllClean(t)
  {
    ShrunkThen(s, m, t);
    NoneLeft(s, t, lh);
  }

  lemma {:induction false} HeadUntouched(g: Layout, d: Disk, lh: seq<Word>, view: Disk, r: Disk)
    requires Fits(g, d) && |view| == |d| && TxOk(g, d, lh) && After(d, LogWrites(g, lh, view), |lh|, r)
    ensures r[g.start] == d[g.start]
  {
    LogPhase(g, d, lh, view, |lh|);
  }

  lemma {:induction false} CommitSplits(g: Layout, d: Disk, lh: seq<Word>, view: Disk)
    requires Fits(g, d) && |view| == |d| && TxOk(g, d, lh) && |lh| <= LOGSIZE
    ensures lh == [] ==> CommitWrites(g, d, lh, view) == []
    ensures lh != [] ==>
              CommitWrites(g, d, lh, view) ==
              (LogWrites(g, lh, view) + [Write(g.start, EncodeHead(d[g.start], lh))])
              + (HomeWrites(lh, view) + [Write(g.start, EncodeHead(EncodeHead(d[g.start], lh), []))])
  {
    Regroup(LogWrites(g, lh, view), [Write(g.start, EncodeHead(d[g.start], lh))],
            HomeWrites(lh, view), [Write(g.start, EncodeHead(EncodeHead(d[g.start], lh), []))]);
  }

  lemma {:induction false} Regroup<T>(a: seq<T>, b: seq<T>, c: seq<T>, d: seq<T>)
    ensures a + b + c + d == (a + b) + (c + d)
  {
  }

  /** After the header is out, install_trans reads back what write_log wrote. */
  lemma {:induction false} PublishedLog(g: Layout, d: Disk, lh: seq<Word>, view: Disk, r: Disk, current: Disk)
    requires Fits(g, d) && |view| == |d| && TxOk(g, d, lh) && |lh| <= LOGSIZE
    requires After(d, LogWrites(g, lh, view) + [Write(g.start, EncodeHead(d[g.start], lh))], |lh| + 1, r)
    requires LogClean(g, r, current)
    ensures TxOk(g, r, lh)
    ensures EraseWrites(g, current, lh) ==
            HomeWrites(lh, view) + [Write(g.start, EncodeHead(EncodeHead(d[g.start], lh), []))]
  {
    var head := EncodeHead(d[g.start], lh);
    InstallPhase(g, d, lh, view, head, 0);
    var pre := LogWrites(g, lh, view) + [Write(g.start, head)];
    assert pre[..|lh|+1] == pre;
    assert pre + HomeWrites(lh, view)[..0] == pre;
    assert CopyWrites(g, current, lh) == HomeWrites(lh, view);
  }
}
