/** The buffer cache of bio.c over the memory disk of memide.c.

    T is the type of block contents. `disk` is the disk; `current[b]` is what the
    last log_write or bwrite of block b stored, which is what readers must see. */
module BufferCache {
  import opened BufferRing
  import opened DiskWrites

  const DISK := 1       // the only device iderw serves
  const NODEV := -1     // b->dev before first use

  predicate Caches<T>(b: Buf<T>, dev: int, blockno: nat) { b.dev == dev && b.blockno == blockno }

  predicate Idle<T>(b: Buf<T>) { !b.busy && !b.dirty }

  /** At most one buffer per block. */
  ghost predicate Unique<T>(bufs: seq<Buf<T>>) {
    forall i, j :: 0 <= i < j < |bufs| - 1 && bufs[i].dev != NODEV ==> !Caches(bufs[j], bufs[i].dev, bufs[i].blockno)
  }

  ghost predicate DirtyFor<T>(bufs: seq<Buf<T>>, b: nat) {
    exists i :: 0 <= i < |bufs| - 1 && Caches(bufs[i], DISK, b) && bufs[i].dirty
  }

  /** A released buffer shows the current block; the disk is behind only where a dirty buffer is pinned. */
  ghost predicate Coherent<T>(bufs: seq<Buf<T>>, disk: seq<T>, current: seq<T>) {
    && |current| == |disk|
    && (forall i :: 0 <= i < |bufs| - 1 ==>
          && (bufs[i].dirty ==> bufs[i].valid)
          && (bufs[i].valid ==> bufs[i].dev == DISK && bufs[i].blockno < |disk|)
          && (bufs[i].valid && !bufs[i].busy ==> bufs[i].data == current[bufs[i].blockno]))
    && (forall b :: 0 <= b < |disk| && current[b] != disk[b] ==> DirtyFor(bufs, b))
  }

  /** bget and bread: a held buffer, or wait for its holder, or one of the panics. */
  datatype Got = Found(i: nat) | MustSleep(i: nat) | NoBuffers | BadRequest

  /** Buffer b is on the list, and every idle buffer comes before it or is it. */
  ghost predicate Oldest<T>(s: seq<Buf<T>>, order: seq<nat>, b: nat) {
    exists k :: 0 <= k < |order| && order[k] == b && forall j :: k < j < |order| ==> order[j] < |s| && !Idle(s[order[j]])
  }

  /** Buffer b is idle, and no idle buffer's last release is longer ago. */
  ghost predicate Stalest<T>(s: seq<Buf<T>>, rs: seq<nat>, b: nat) {
    b < |s| - 1 && Idle(s[b]) && forall i :: 0 <= i < |s| - 1 && Idle(s[i]) ==> LastRelease(rs, b) <= LastRelease(rs, i)
  }

  lemma {:induction false} OldestStalest<T>(s: seq<Buf<T>>, order: seq<nat>, rs: seq<nat>, b: nat)
    requires |s| > 0 && IsRing(order, |s| - 1) && Recent(order, rs) && Oldest(s, order, b) && b < |s| - 1 && Idle(s[b])
    ensures Stalest(s, rs, b)
  {
    hide LastRelease;
    var k :| 0 <= k < |order| && order[k] == b && forall j :: k < j < |order| ==> order[j] < |s| && !Idle(s[order[j]]);
    forall i | 0 <= i < |s| - 1 && Idle(s[i]) ensures LastRelease(rs, b) <= LastRelease(rs, i) {
      var j := PlaceOf(order, |s| - 1, i);
      NeverAtLeast(rs, i);
      assert j <= k;
    }
  }

  lemma {:induction false} NeverAtLeast(rs: seq<nat>, b: nat)
    ensures LastRelease(rs, b) >= -1
  {
  }

  class Cache<T> {
    const nbuf: nat            // NBUF
    const buf: array<Buf<T>>   // the buffers, and the list head at index nbuf
    var disk: seq<T>
    ghost var order: seq<nat>  // buffers from most to least recently released
    ghost var current: seq<T>
    ghost var trace: seq<Write<T>> // every block write so far
    ghost var released: seq<nat>   // every brelse so far

    ghost predicate Valid()
      reads this, buf
    {
      && buf.Length == nbuf + 1
      && Ring(buf[..], order)
      && Unique(buf[..])
      && Coherent(buf[..], disk, current)
      && Recent(order, released)
    }

    /** binit: an empty cache over a disk. */
    constructor (n: nat, d: seq<T>, junk: T)
      ensures Valid() && nbuf == n && disk == d && current == d && trace == [] && released == [] && fresh(buf)
      ensures forall i :: 0 <= i < n ==> buf[i].dev == NODEV && Idle(buf[i]) && order[i] == n - 1 - i
    {
      nbuf := n;
      var a := new Buf<T>[n + 1](i => Buf(false, false, false, NODEV, 0, junk, n, n));
      buf := a;
      disk, current, trace := d, d, [];
      order, released := [], [];
      new;
      Binit();
    }

    /** The linking loop of binit. */
    method Binit()
      requires buf.Length == nbuf + 1 && buf[nbuf].prev == nbuf && buf[nbuf].next == nbuf
      modifies buf, this`order
      ensures Ring(buf[..], order) && SameContents(old(buf[..]), buf[..])
      ensures forall k :: 0 <= k < nbuf ==> order[k] == nbuf - 1 - k
    {
      hide Linked, Path, SameContents;
      order := [];
      EmptyRing(buf[..]);
      var b := 0;
      while b < nbuf
        invariant 0 <= b <= nbuf
        invariant IsRing(order, b) && forall k :: 0 <= k < b ==> order[k] == b - 1 - k
        invariant Linked(buf[..], Path(order, nbuf))
        invariant SameContents(old(buf[..]), buf[..])
      {
        ghost var s := buf[..];
        PushFront(b, order);
        SameTrans(old(buf[..]), s, buf[..]);
        order := [b] + order;
        b := b + 1;
      }
    }

    /** The four assignments that insert b after the list head. */
    method PushFront(b: nat, ghost rest: seq<nat>)
      requires buf.Length > 0 && b < buf.Length - 1 && b !in rest
      requires Linked(buf[..], Path(rest, buf.Length - 1))
      requires forall k :: 0 <= k < |rest| ==> rest[k] < buf.Length - 1
      modifies buf
      ensures Linked(buf[..], Path([b] + rest, buf.Length - 1))
      ensures SameContents(old(buf[..]), buf[..])
    {
      ghost var s := buf[..];
      PushKeeps(s, rest, b);
      PushSame(s, s, b);
      var h := buf.Length - 1;
      buf[b] := buf[b].(next := buf[h].next);
      buf[b] := buf[b].(prev := h);
      buf[buf[h].next] := buf[buf[h].next].(prev := b);
      buf[h] := buf[h].(next := b);
      assert buf[..] == Push(s, b);
    }

    /** The two assignments that take order[k] out of the list. */
    method TakeOut(b: nat, ghost k: nat)
      requires buf.Length > 0 && Ring(buf[..], order) && k < |order| && order[k] == b
      modifies buf
      ensures Linked(buf[..], Path(Without(order, k), buf.Length - 1))
      ensures SameContents(old(buf[..]), buf[..])
    {
      ghost var s := buf[..];
      UnlinkKeeps(s, order, k);
      UnlinkSame(s, b);
      buf[buf[b].next] := buf[buf[b].next].(prev := buf[b].prev);
      buf[buf[b].prev] := buf[buf[b].prev].(next := buf[b].next);
      assert buf[..] == Unlink(s, b);
    }

    /** bget's first scan, from the most recently used buffer on. */
    method FindCached(dev: int, blockno: nat) returns (hit: bool, b: nat)
      requires Valid()
      ensures hit ==> b < nbuf && Caches(buf[b], dev, blockno)
      ensures !hit ==> forall i :: 0 <= i < nbuf ==> !Caches(buf[i], dev, blockno)
    {
      hide Unique, Coherent;
      ghost var p := Path(order, nbuf);
      assert p[0] == nbuf && p[nbuf+1] == nbuf;
      b := buf[nbuf].next;
      ghost var k := 0;
      while b != nbuf
        invariant 0 <= k <= nbuf && b == p[k+1]
        invariant forall j :: 0 <= j < k ==> !Caches(buf[order[j]], dev, blockno)
        decreases nbuf - k
      {
        if buf[b].dev == dev && buf[b].blockno == blockno {
          return true, b;
        }
        b := buf[b].next;
        k := k + 1;
      }
      assert k == nbuf;
      NowhereCached(buf[..], order, dev, blockno);
      return false, b;
    }

    /** bget's second scan, from the least recently used buffer back. */
    method FindIdle() returns (hit: bool, b: nat)
      requires Valid()
      ensures hit ==> b < nbuf && Idle(buf[b]) && Oldest(buf[..], order, b) && Stalest(buf[..], released, b)
      ensures !hit ==> forall i :: 0 <= i < nbuf ==> !Idle(buf[i])
    {
      hide Unique, Coherent;
      ghost var p := Path(order, nbuf);
      assert p[0] == nbuf && p[nbuf+1] == nbuf;
      b := buf[nbuf].prev;
      ghost var k := nbuf;
      while b != nbuf
        invariant 0 <= k <= nbuf && b == p[k]
        invariant forall j :: k <= j < nbuf ==> !Idle(buf[order[j]])
        decreases k
      {
        if !buf[b].busy && !buf[b].dirty {
          OldestStalest(buf[..], order, released, b);
          return true, b;
        }
        b := buf[b].prev;
        k := k - 1;
      }
      NoneIdle(buf[..], order);
      return false, b;
    }

    /** bget: the buffer of a cached block unless another process holds it,
        otherwise the least recently released buffer that is neither held nor dirty. */
    method Bget(dev: int, blockno: nat) returns (r: Got)
      requires Valid() && dev != NODEV
      modifies buf
      ensures Valid()
      ensures !r.BadRequest?
      ensures r.Found? ==> r.i < nbuf && !old(buf[r.i].busy)
      ensures r.Found? && Caches(old(buf[r.i]), dev, blockno) ==>
                buf[..] == old(buf[..])[r.i := old(buf[r.i]).(busy := true)]
      ensures r.Found? && !Caches(old(buf[r.i]), dev, blockno) ==>
                && Idle(old(buf[r.i]))
                && (forall i :: 0 <= i < nbuf ==> !Caches(old(buf[i]), dev, blockno))
                && buf[..] == old(buf[..])[r.i := Recycled(old(buf[r.i]), dev, blockno)]
                && Oldest(old(buf[..]), order, r.i) && Stalest(old(buf[..]), released, r.i)
      ensures r.MustSleep? ==> buf[..] == old(buf[..]) && r.i < nbuf && Caches(buf[r.i], dev, blockno) && buf[r.i].busy
      ensures r.NoBuffers? ==>
                && buf[..] == old(buf[..])
                && forall i :: 0 <= i < nbuf ==> !Caches(buf[i], dev, blockno) && !Idle(buf[i])
    {
      hide Unique, Coherent, Ring, Oldest;
      ghost var s := buf[..];
      var hit, b := FindCached(dev, blockno);
      if hit {
        if !buf[b].busy {
          HoldKeeps(s, order, disk, current, b);
          buf[b] := buf[b].(busy := true);
          assert buf[..] == s[b := s[b].(busy := true)];
          return Found(b);
        }
        return MustSleep(b);
      }
      hit, b := FindIdle();
      if hit {
        RecycleKeeps(s, order, disk, current, b, dev, blockno);
        buf[b] := buf[b].(dev := dev);
        buf[b] := buf[b].(blockno := blockno);
        buf[b] := buf[b].(busy := true, valid := false, dirty := false);
        assert buf[..] == s[b := Recycled(s[b], dev, blockno)];
        return Found(b);
      }
      return NoBuffers;
    }

    /** iderw of memide.c: write a dirty buffer out, or read an invalid one in. */
    method Iderw(i: nat) returns (ok: bool)
      requires buf.Length == nbuf + 1 && i < nbuf
      modifies buf, this`disk, this`trace
      ensures ok <==> old(buf[i].busy && (buf[i].dirty || !buf[i].valid) && buf[i].dev == DISK && buf[i].blockno < |disk|)
      ensures !ok ==> buf[..] == old(buf[..]) && disk == old(disk) && trace == old(trace)
      ensures ok && old(buf[i].dirty) ==>
                var b := old(buf[i]);
                && buf[..] == old(buf[..])[i := b.(dirty := false, valid := true)]
                && disk == old(disk)[b.blockno := b.data] && trace == old(trace) + [Write(b.blockno, b.data)]
      ensures ok && !old(buf[i].dirty) ==>
                var b := old(buf[i]);
                && disk == old(disk) && trace == old(trace)
                && buf[..] == old(buf[..])[i := b.(data := disk[b.blockno], valid := true)]
    {
      if !buf[i].busy || (buf[i].valid && !buf[i].dirty) || buf[i].dev != DISK || buf[i].blockno >= |disk| {
        return false;
      }
      if buf[i].dirty {
        buf[i] := buf[i].(dirty := false);
        disk := disk[buf[i].blockno := buf[i].data];
        trace := trace + [Write(buf[i].blockno, buf[i].data)];
      } else {
        buf[i] := buf[i].(data := disk[buf[i].blockno]);
      }
      buf[i] := buf[i].(valid := true);
      return true;
    }

    /** bread: a held buffer with the block's current contents. Dirty buffers and
        the buffers other processes hold are left alone. */
    method Bread(dev: int, blockno: nat) returns (r: Got)
      requires Valid() && dev != NODEV
      modifies buf, this`disk, this`trace
      ensures Valid() && disk == old(disk) && trace == old(trace)
      ensures forall j :: 0 <= j < nbuf && old(buf[j].busy) ==> buf[j] == old(buf[j])
      ensures forall j :: 0 <= j < nbuf && old(buf[j].dirty) && !(r.Found? && j == r.i) ==> buf[j] == old(buf[j])
      ensures r.Found? ==>
                && r.i < nbuf && !old(buf[r.i].busy) && buf[r.i].busy && buf[r.i].valid
                && Caches(buf[r.i], dev, blockno) && dev == DISK && blockno < |disk|
                && buf[r.i].data == current[blockno]
                && (old(buf[r.i].dirty) ==> buf[r.i].dirty && Caches(old(buf[r.i]), dev, blockno))
                && (buf[r.i].dirty ==> old(buf[r.i].dirty))
      ensures r.BadRequest? ==> dev != DISK || blockno >= |disk|
      ensures r.Found? ==> Fetched(old(buf[..]), buf[..], r.i, dev, blockno)
      ensures r.MustSleep? ==> buf[..] == old(buf[..]) && r.i < nbuf && Caches(buf[r.i], dev, blockno) && buf[r.i].busy
      ensures r.NoBuffers? ==>
                && buf[..] == old(buf[..])
                && forall i :: 0 <= i < nbuf ==> !Caches(buf[i], dev, blockno) && !Idle(buf[i])
    {
      hide Ring, Recent, Unique, Stalest, LastRelease;
      ghost var s0 := buf[..];
      r := Bget(dev, blockno);
      if r.Found? {
        ghost var s := buf[..];
        GotFetched(s0, s, r.i, dev, blockno);
        if !buf[r.i].valid {
          var ok := Iderw(r.i);
          if !ok {
            return BadRequest;
          }
          ReadKeeps(s, order, disk, current, r.i);
        }
      }
    }
  
    /** A holder changes the data of its buffer; nobody else sees it yet. */
    method Store(i: nat, data: T)
      requires Valid() && i < nbuf && buf[i].busy && buf[i].valid
      modifies buf
      ensures Valid()
      ensures buf[..] == old(buf[..])[i := old(buf[i]).(data := data)]
    {
      ghost var s := buf[..];
      buf[i] := buf[i].(data := data);
      assert buf[..] == s[i := s[i].(data := data)];
      StoreKeeps(s, order, disk, current, i, data);
    }

    /** log_write's part in the cache: the change becomes current, and the
        buffer is pinned until the commit writes it. */
    method MarkLogged(i: nat)
      requires Valid() && i < nbuf && buf[i].busy && buf[i].valid
      modifies buf, this`current
      ensures Valid()
      ensures buf[..] == old(buf[..])[i := old(buf[i]).(dirty := true)]
      ensures current == old(current)[buf[i].blockno := buf[i].data]
    {
      ghost var s := buf[..];
      buf[i] := buf[i].(dirty := true);
      assert buf[..] == s[i := s[i].(dirty := true)];
      LoggedKeeps(s, order, disk, current, i);
      current := current[buf[i].blockno := buf[i].data];
    }

    /** bwrite: panics unless held; otherwise one block write. */
    method Bwrite(i: nat) returns (ok: bool)
      requires Valid() && i < nbuf && (buf[i].busy ==> buf[i].valid)
      modifies buf, this`disk, this`trace, this`current
      ensures Valid()
      ensures ok <==> old(buf[i].busy)
      ensures !ok ==> buf[..] == old(buf[..]) && disk == old(disk) && trace == old(trace) && current == old(current)
      ensures ok ==>
                var b := old(buf[i]);
                && buf[..] == old(buf[..])[i := b.(dirty := false)]
                && b.blockno < |old(disk)|
                && disk == old(disk)[b.blockno := b.data] && current == old(current)[b.blockno := b.data]
                && trace == old(trace) + [Write(b.blockno, b.data)]
    {
      if !buf[i].busy {
        return false;
      }
      ghost var s := buf[..];
      ghost var d := disk;
      buf[i] := buf[i].(dirty := true);
      ok := Iderw(i);
      WriteKeeps(s, order, d, current, i);
      assert buf[..] == s[i := s[i].(dirty := false)];
      current := current[buf[i].blockno := buf[i].data];
    }

    /** brelse: panics unless held; otherwise the buffer moves to the front of the
        list. A holder must have logged or written every change first. */
    method Brelse(i: nat) returns (ok: bool)
      requires Valid() && i < nbuf
      requires buf[i].busy ==> buf[i].valid && buf[i].data == current[buf[i].blockno]
      modifies buf, this`order, this`released
      ensures Valid()
      ensures ok <==> old(buf[i].busy)
      ensures !ok ==> buf[..] == old(buf[..]) && order == old(order) && released == old(released)
      ensures ok ==> order[0] == i && multiset(order) == multiset(old(order)) && released == old(released) + [i]
      ensures ok ==> forall a, b :: a != i && b != i ==> (Before(order, a, b) <==> Before(old(order), a, b))
      ensures ok ==> forall j :: 0 <= j < nbuf ==>
                SameButLinks(if j == i then old(buf[j]).(busy := false) else old(buf[j]), buf[j])
    {
      if !buf[i].busy {
        return false;
      }
      ghost var s := buf[..];
      MoveToFront(i);
      released := released + [i];
      ghost var s2 := buf[..];
      buf[i] := buf[i].(busy := false);
      assert buf[..] == s2[i := s2[i].(busy := false)];
      ReleaseKeeps(s, s2, order, disk, current, i);
      return true;
    }

    /** The relinking half of brelse. */
    method MoveToFront(i: nat)
      requires buf.Length == nbuf + 1 && Ring(buf[..], order) && i < nbuf
      modifies buf, this`order
      ensures Ring(buf[..], order) && SameContents(old(buf[..]), buf[..])
      ensures order[0] == i && multiset(order) == multiset(old(order))
      ensures forall a, b :: a != i && b != i ==> (Before(order, a, b) <==> Before(old(order), a, b))
      ensures Recent(old(order), released) ==> Recent(order, released + [i])
    {
      hide Before, Recent, Linked, SameContents, Path, Without, IsRing, Front;
      ghost var k := PlaceOf(order, nbuf, i);
      ghost var s := buf[..];
      TakeOut(i, k);
      ghost var s1 := buf[..];
      FrontIsRing(order, nbuf, k);
      PushFront(i, Without(order, k));
      SameTrans(s, s1, buf[..]);
      forall a, b | a != i && b != i ensures Before(Front(order, k), a, b) <==> Before(order, a, b) { FrontOrder(order, k, a, b); }
      if Recent(order, released) { FrontRecent(order, nbuf, released, k); }
      order := Front(order, k);
    }
  }

  function Recycled<T>(b: Buf<T>, dev: int, blockno: nat): Buf<T> {
    b.(dev := dev, blockno := blockno, busy := true, valid := false, dirty := false)
  }

  /** Buffer i was taken for the block: the one that cached it, or an idle one if none did. */
  ghost predicate Fetched<T>(s: seq<Buf<T>>, t: seq<Buf<T>>, i: nat, dev: int, blockno: nat) {
    && |s| == |t| && i < |s| - 1 && (forall x :: 0 <= x < |s| - 1 && x != i ==> t[x] == s[x])
    && !s[i].busy && t[i].busy && Caches(t[i], dev, blockno) && t[i].dirty == s[i].dirty
    && (Caches(s[i], dev, blockno) || Idle(s[i]))
    && (forall x :: 0 <= x < |s| - 1 && Caches(s[x], dev, blockno) ==> x == i)
  }

  lemma {:induction false} EmptyRing<T>(s: seq<Buf<T>>)
    requires |s| > 0 && s[|s| - 1].prev == |s| - 1 && s[|s| - 1].next == |s| - 1
    ensures Linked(s, Path([], |s| - 1)) && SameContents(s, s)
  {
  }

  lemma {:induction false} GotFetched<T>(s: seq<Buf<T>>, t: seq<Buf<T>>, i: nat, dev: int, blockno: nat)
    requires Unique(s) && i < |s| - 1 && !s[i].busy && dev != NODEV
    requires if Caches(s[i], dev, blockno) then t == s[i := s[i].(busy := true)]
             else t == s[i := Recycled(s[i], dev, blockno)] && Idle(s[i]) && forall x :: 0 <= x < |s| - 1 ==> !Caches(s[x], dev, blockno)
    ensures Fetched(s, t, i, dev, blockno)
  {
    forall x | 0 <= x < |s| - 1 && x != i && Caches(s[i], dev, blockno) ensures !Caches(s[x], dev, blockno) {
      assert x < i && s[x].dev != NODEV ==> !Caches(s[i], s[x].dev, s[x].blockno);
    }
  }

  /** Flags and data may change freely as far as the list is concerned. */
  lemma {:induction false} RingIgnoresContents<T>(a: seq<Buf<T>>, b: seq<Buf<T>>, order: seq<nat>)
    requires Ring(a, order) && |a| == |b|
    requires forall i :: 0 <= i < |a| ==> a[i].prev == b[i].prev && a[i].next == b[i].next
    ensures Ring(b, order)
  {
  }

  lemma {:induction false} HoldKeeps<T>(s: seq<Buf<T>>, order: seq<nat>, disk: seq<T>, current: seq<T>, i: nat)
    requires Ring(s, order) && Unique(s) && Coherent(s, disk, current) && i < |s| - 1
    ensures var t := s[i := s[i].(busy := true)];
            Ring(t, order) && Unique(t) && Coherent(t, disk, current)
  {
    var t := s[i := s[i].(busy := true)];
    RingIgnoresContents(s, t, order);
    forall b | 0 <= b < |disk| && current[b] != disk[b] ensures DirtyFor(t, b) {
      var j :| 0 <= j < |s| - 1 && Caches(s[j], DISK, b) && s[j].dirty;
      assert Caches(t[j], DISK, b) && t[j].dirty;
    }
  }

  /** Only clean buffers are recycled, so no unwritten block is lost. */
  lemma {:induction false} RecycleKeeps<T>(s: seq<Buf<T>>, order: seq<nat>, disk: seq<T>, current: seq<T>, i: nat, dev: int,
                                           blockno: nat)
    requires Ring(s, order) && Unique(s) && Coherent(s, disk, current) && i < |s| - 1
    requires Idle(s[i]) && dev != NODEV && forall j :: 0 <= j < |s| - 1 ==> !Caches(s[j], dev, blockno)
    ensures var t := s[i := Recycled(s[i], dev, blockno)];
            Ring(t, order) && Unique(t) && Coherent(t, disk, current)
  {
    var t := s[i := Recycled(s[i], dev, blockno)];
    RingIgnoresContents(s, t, order);
    forall b | 0 <= b < |disk| && current[b] != disk[b] ensures DirtyFor(t, b) {
      var j :| 0 <= j < |s| - 1 && Caches(s[j], DISK, b) && s[j].dirty;
      assert Caches(t[j], DISK, b) && t[j].dirty;
    }
  }

  lemma {:induction false} NowhereCached<T>(s: seq<Buf<T>>, order: seq<nat>, dev: int, blockno: nat)
    requires Ring(s, order)
    requires forall j :: 0 <= j < |order| ==> !Caches(s[order[j]], dev, blockno)
    ensures forall i :: 0 <= i < |s| - 1 ==> !Caches(s[i], dev, blockno)
  {
    forall i | 0 <= i < |s| - 1 ensures !Caches(s[i], dev, blockno) {
      OnList(order, |s| - 1, i);
    }
  }

  lemma {:induction false} NoneIdle<T>(s: seq<Buf<T>>, order: seq<nat>)
    requires Ring(s, order)
    requires forall j :: 0 <= j < |order| ==> !Idle(s[order[j]])
    ensures forall i :: 0 <= i < |s| - 1 ==> !Idle(s[i])
  {
    forall i | 0 <= i < |s| - 1 ensures !Idle(s[i]) {
      OnList(order, |s| - 1, i);
    }
  }

  lemma {:induction false} CleanIsCurrent<T>(s: seq<Buf<T>>, disk: seq<T>, current: seq<T>, i: nat)
    requires Unique(s) && Coherent(s, disk, current) && i < |s| - 1
    requires s[i].dev == DISK && s[i].blockno < |disk| && !s[i].dirty
    ensures current[s[i].blockno] == disk[s[i].blockno]
  {
    var b := s[i].blockno;
    if DirtyFor(s, b) {
      assert false;
    }
  }

  lemma {:induction false} ReadKeeps<T>(s: seq<Buf<T>>, order: seq<nat>, disk: seq<T>, current: seq<T>, i: nat)
    requires Ring(s, order) && Unique(s) && Coherent(s, disk, current) && i < |s| - 1
    requires s[i].dev == DISK && s[i].blockno < |disk| && s[i].busy && !s[i].valid
    ensures var t := s[i := s[i].(data := disk[s[i].blockno], valid := true)];
            Ring(t, order) && Unique(t) && Coherent(t, disk, current)
    ensures disk[s[i].blockno] == current[s[i].blockno]
  {
    var t := s[i := s[i].(data := disk[s[i].blockno], valid := true)];
    RingIgnoresContents(s, t, order);
    CleanIsCurrent(s, disk, current, i);
    forall b | 0 <= b < |disk| && current[b] != disk[b] ensures DirtyFor(t, b) {
      var j :| 0 <= j < |s| - 1 && Caches(s[j], DISK, b) && s[j].dirty;
      assert Caches(t[j], DISK, b) && t[j].dirty;
    }
  }

  /** Which blocks have a dirty buffer depends on names and dirty flags only. */
  lemma {:induction false} DirtyCarries<T>(s: seq<Buf<T>>, t: seq<Buf<T>>, disk: seq<T>, current: seq<T>)
    requires |s| == |t| && |current| == |disk|
    requires forall b :: 0 <= b < |disk| && current[b] != disk[b] ==> DirtyFor(s, b)
    requires forall j :: 0 <= j < |s| - 1 && s[j].dirty ==> t[j].dirty && t[j].dev == s[j].dev && t[j].blockno == s[j].blockno
    ensures forall b :: 0 <= b < |disk| && current[b] != disk[b] ==> DirtyFor(t, b)
  {
    forall b | 0 <= b < |disk| && current[b] != disk[b] ensures DirtyFor(t, b) {
      var j :| 0 <= j < |s| - 1 && Caches(s[j], DISK, b) && s[j].dirty;
      assert Caches(t[j], DISK, b) && t[j].dirty;
    }
  }

  lemma {:induction false} StoreKeeps<T>(s: seq<Buf<T>>, order: seq<nat>, disk: seq<T>, current: seq<T>, i: nat, data: T)
    requires Ring(s, order) && Unique(s) && Coherent(s, disk, current) && i < |s| - 1 && s[i].busy
    ensures var t := s[i := s[i].(data := data)];
            Ring(t, order) && Unique(t) && Coherent(t, disk, current)
  {
    var t := s[i := s[i].(data := data)];
    RingIgnoresContents(s, t, order);
    DirtyCarries(s, t, disk, current);
  }

  /** Changing block b's current contents disturbs no other released buffer. */
  lemma {:induction false} LoggedKeeps<T>(s: seq<Buf<T>>, order: seq<nat>, disk: seq<T>, current: seq<T>, i: nat)
    requires Ring(s, order) && Unique(s) && Coherent(s, disk, current) && i < |s| - 1 && s[i].busy && s[i].valid
    ensures var t := s[i := s[i].(dirty := true)];
            Ring(t, order) && Unique(t) && Coherent(t, disk, current[s[i].blockno := s[i].data])
  {
    var t := s[i := s[i].(dirty := true)];
    var current' := current[s[i].blockno := s[i].data];
    RingIgnoresContents(s, t, order);
    DirtyCarries(s, t, disk, current);
    assert Caches(t[i], DISK, s[i].blockno) && t[i].dirty;
    OthersElsewhere(s, i);
  }

  lemma {:induction false} OthersElsewhere<T>(s: seq<Buf<T>>, i: nat)
    requires Unique(s) && i < |s| - 1 && s[i].dev == DISK
    ensures forall j :: 0 <= j < |s| - 1 && j != i && s[j].dev == DISK ==> s[j].blockno != s[i].blockno
  {
    forall j | 0 <= j < |s| - 1 && j != i && s[j].dev == DISK ensures s[j].blockno != s[i].blockno {
      if j < i { assert !Caches(s[i], s[j].dev, s[j].blockno); } else { assert !Caches(s[j], s[i].dev, s[i].blockno); }
    }
  }

  lemma {:induction false} WriteKeeps<T>(s: seq<Buf<T>>, order: seq<nat>, disk: seq<T>, current: seq<T>, i: nat)
    requires Ring(s, order) && Unique(s) && Coherent(s, disk, current) && i < |s| - 1 && s[i].busy && s[i].valid
    ensures var t := s[i := s[i].(dirty := false)];
            Ring(t, order) && Unique(t)
            && Coherent(t, disk[s[i].blockno := s[i].data], current[s[i].blockno := s[i].data])
  {
    var t := s[i := s[i].(dirty := false)];
    RingIgnoresContents(s, t, order);
    OthersElsewhere(s, i);
    var disk', current' := disk[s[i].blockno := s[i].data], current[s[i].blockno := s[i].data];
    forall b | 0 <= b < |disk'| && current'[b] != disk'[b] ensures DirtyFor(t, b) {
      var j :| 0 <= j < |s| - 1 && Caches(s[j], DISK, b) && s[j].dirty;
      assert Caches(t[j], DISK, b) && t[j].dirty;
    }
  }

  lemma {:induction false} ReleaseKeeps<T>(s: seq<Buf<T>>, s2: seq<Buf<T>>, order: seq<nat>, disk: seq<T>, current: seq<T>,
                                           i: nat)
    requires SameContents(s, s2) && Ring(s2, order)
    requires Unique(s) && Coherent(s, disk, current) && i < |s| - 1
    requires s[i].valid && s[i].data == current[s[i].blockno]
    ensures var t := s2[i := s2[i].(busy := false)];
            Ring(t, order) && Unique(t) && Coherent(t, disk, current)
  {
    var t := s2[i := s2[i].(busy := false)];
    RingIgnoresContents(s2, t, order);
    DirtyCarries(s, t, disk, current);
  }
}
