/** mkfs.c: the image it builds satisfies the file system's block invariant. */
module Mkfs {
  import opened Blocks
  import opened FsConsts
  import opened Bitmap
  import opened FsState
  import opened FsSteps

  const FSSIZE := 1000
  const NINODES := 200
  const LOGBLOCKS := 30        // nlog = LOGSIZE
  const INODEBLOCKS := NINODES / IPB + 1
  const BITMAPBLOCKS := FSSIZE / BPB + 1
  const BMAPSTART := 2 + LOGBLOCKS + INODEBLOCKS
  const NMETA := 2 + LOGBLOCKS + INODEBLOCKS + BITMAPBLOCKS
  const SB := Super(FSSIZE, BMAPSTART, NMETA)

  /** A bitmap block whose first k bits are set. */
  function BitmapOf(k: nat): Block
    requires k <= BPB
  { if k == 0 then ZeroBlock() else SetBit(BitmapOf(k - 1), k - 1) }

  lemma {:induction false} ZeroBits(k: nat)
    ensures !TestBit(0, k)
  {
    if k > 0 { ZeroBits(k - 1); }
  }

  lemma {:induction false} BitmapOfBit(k: nat, j: nat)
    requires k <= BPB && j < BPB
    ensures Bit(BitmapOf(k), j) <==> j < k
  {
    if k == 0 {
      ZeroBits(j % 8);
    } else {
      BitmapOfBit(k - 1, j);
      SetBitOnly(BitmapOf(k - 1), k - 1, j);
    }
  }

  /** The disk as it will be once the bitmap is written: the first k blocks are in use. */
  function View(disk: Disk, k: nat): (d: Disk)
    requires |disk| == FSSIZE && k <= FSSIZE
    ensures |d| == |disk|
  { disk[BMAPSTART := BitmapOf(k)] }

  lemma {:induction false} ViewUsed(disk: Disk, k: nat, b: nat)
    requires |disk| == FSSIZE && k <= FSSIZE && b < FSSIZE
    ensures Used(SB, View(disk, k), b) <==> b < k
  {
    BitmapOfBit(k, b);
  }

  /** Taking the next block, which is still zero, is only a matter of the counter. */
  lemma {:induction false} ViewTaken(disk: Disk, k: nat)
    requires |disk| == FSSIZE && NMETA <= k < FSSIZE && disk[k] == ZeroBlock()
    ensures Taken(SB, View(disk, k), k) == View(disk, k + 1)
  {
    assert disk[BMAPSTART := BitmapOf(k)][BMAPSTART := BitmapOf(k + 1)] == disk[BMAPSTART := BitmapOf(k + 1)];
    assert View(disk, k + 1)[k := ZeroBlock()] == View(disk, k + 1);
  }

  /** File i has exactly the blocks that z bytes need. */
  ghost predicate Exact(disk: Disk, ino: seq<Node>, i: nat, z: nat)
    requires Shaped(SB, disk, ino) && i < |ino|
  {
    && (forall n :: 0 <= n < MAXFILE ==> (Ref(SB, disk, ino, Pos(i, DataPos(n))) != 0 <==> n * BSIZE < z))
    && (ino[i].addrs[NDIRECT] != 0 ==> z > NDIRECT * BSIZE)
  }

  /** The blocks that z bytes need, the indirect block included. */
  function BlocksFor(z: nat): nat { (z + BSIZE - 1) / BSIZE + if z > NDIRECT * BSIZE then 1 else 0 }

  /** What lengthening a file from a to b bytes takes. */
  function Cost(a: nat, b: nat): nat
    requires a <= b
  {
    BlocksMore(a, b);
    BlocksFor(b) - BlocksFor(a)
  }

  lemma {:induction false} BlocksMore(a: nat, b: nat)
    requires a <= b
    ensures BlocksFor(a) <= BlocksFor(b)
  {
  }

  lemma {:induction false} CostNone(a: nat)
    ensures Cost(a, a) == 0
  {
  }

  lemma {:induction false} CostZero(a: nat)
    ensures Cost(0, a) == BlocksFor(a)
  {
  }

  lemma {:induction false} CostSplit(a: nat, b: nat, c: nat)
    requires a <= b <= c
    ensures Cost(a, c) == Cost(a, b) + Cost(b, c)
  {
  }

  /** The blocks that finding a place for block bn of file i takes. */
  function Takes(disk: Disk, ino: seq<Node>, i: nat, bn: nat): nat
    requires Shaped(SB, disk, ino) && i < |ino| && bn < MAXFILE
  {
    (if bn >= NDIRECT && ino[i].addrs[NDIRECT] == 0 then 1 else 0)
    + (if Ref(SB, disk, ino, Pos(i, DataPos(bn))) == 0 then 1 else 0)
  }

  lemma {:induction false} TakesCost(disk: Disk, ino: seq<Node>, i: nat, off: nat, m: nat)
    requires Shaped(SB, disk, ino) && i < |ino| && Exact(disk, ino, i, off) && off < MAXBYTES && 0 < m && off % BSIZE + m <= BSIZE
    ensures Takes(disk, ino, i, off / BSIZE) == Cost(off, off + m)
  {
    var bn := off / BSIZE;
    assert Ref(SB, disk, ino, Pos(i, DataPos(bn))) != 0 <==> off % BSIZE != 0;
    if bn >= NDIRECT {
      assert Ref(SB, disk, ino, Pos(i, DataPos(NDIRECT))) != 0 <==> off > NDIRECT * BSIZE;
      assert ino[i].addrs[NDIRECT] != 0 <==> off > NDIRECT * BSIZE;
    }
  }

  /** Of all data blocks, only block bn of file i changed its place. */
  ghost predicate BlocksBut(disk: Disk, ino: seq<Node>, disk': Disk, ino': seq<Node>, i: nat, bn: nat)
    requires Shaped(SB, disk, ino) && Shaped(SB, disk', ino') && |ino'| == |ino|
  {
    forall j, n :: 0 <= j < |ino| && 0 <= n < MAXFILE && !(j == i && n == bn) ==>
      Ref(SB, disk', ino', Pos(j, DataPos(n))) == Ref(SB, disk, ino, Pos(j, DataPos(n)))
  }

  /** And only a block behind the direct ones gave file i its indirect block. */
  ghost predicate IndirectBut(ino: seq<Node>, ino': seq<Node>, i: nat, bn: nat)
    requires |ino'| == |ino| && forall j :: 0 <= j < |ino| ==> |ino[j].addrs| == |ino'[j].addrs| == 13
  {
    forall j :: 0 <= j < |ino| && !(j == i && bn >= NDIRECT) ==> ino'[j].addrs[NDIRECT] == ino[j].addrs[NDIRECT]
  }

  lemma {:induction false} BelowFree(disk: Disk, ino: seq<Node>, owner: map<nat, Pos>, k: nat)
    requires |disk| == FSSIZE && NMETA <= k <= FSSIZE && Own(SB, View(disk, k), ino, owner, {}, {})
    ensures forall b :: b in owner ==> NMETA <= b < k
  {
    forall b | b in owner ensures b < k {
      ViewUsed(disk, k, b);
    }
  }

  /** What lies in a file's blocks behind its end is zero. */
  ghost predicate Tidy(disk: Disk, ino: seq<Node>)
    requires Shaped(SB, disk, ino)
  { forall j, o :: 0 <= j < |ino| && ino[j].size <= o < MAXBYTES ==> ByteAt(SB, disk, ino, j, o) == 0 }

  lemma {:induction false} TidyOn(d: Disk, n: seq<Node>, disk: Disk, was: seq<Node>, ino: seq<Node>, i: nat, p: seq<Byte>)
    requires Shaped(SB, d, n) && Shaped(SB, disk, was) && |was| == |n| && i < |n| && n[i].size + |p| <= MAXBYTES && Tidy(d, n)
    requires (forall j :: 0 <= j < |n| ==> was[j].size == n[j].size) && Written(SB, d, n, disk, was, i, n[i].size, p, |p|)
    requires ino == PutSize(was, i, n[i].size + |p|)
    ensures Shaped(SB, disk, ino) && Tidy(disk, ino)
  {
    hide ByteAt;
    forall j, o | 0 <= j < |ino| && ino[j].size <= o < MAXBYTES ensures ByteAt(SB, disk, ino, j, o) == 0 {
      SizeNoByte(disk, was, ino, i, j, o);
      assert ByteAt(SB, d, n, j, o) == 0;
    }
  }

  lemma {:induction false} SizeNoByte(disk: Disk, was: seq<Node>, ino: seq<Node>, i: nat, j: nat, o: nat)
    requires Shaped(SB, disk, was) && i < |was| && j < |was| && o < MAXBYTES && |ino| == |was| && ino[i].addrs == was[i].addrs
    requires ino == was[i := ino[i]]
    ensures Shaped(SB, disk, ino) && ByteAt(SB, disk, ino, j, o) == ByteAt(SB, disk, was, j, o)
  {
  }

  /** A file named on the command line. */
  datatype HostFile = HostFile(name: seq<Byte>, data: seq<Byte>)

  /** A file mkfs gives up on: a slash in its name, or more than MAXFILE blocks. */
  predicate Refused(f: HostFile) { 47 in f.name || |f.data| > MAXBYTES }

  /** The name without its leading '_'. */
  function DirName(name: seq<Byte>): seq<Byte> {
    if |name| > 0 && name[0] == 95 then name[1..] else name
  }

  /** struct dirent: a little-endian inode number and a name cut or padded to DIRSIZ. */
  function Dirent(inum: nat, name: seq<Byte>): (e: seq<Byte>)
    requires inum < 0x1_0000
    ensures |e| == 16
  {
    [inum % 0x100, inum / 0x100] + if |name| >= 14 then name[..14] else name + seq(14 - |name|, k => 0)
  }

  /** The root directory once k files are added. */
  function Entries(files: seq<HostFile>, k: nat): (e: seq<Byte>)
    requires k <= |files| < NINODES
    ensures |e| == 16 * (2 + k)
  {
    if k == 0 then Dirent(ROOTINO, [46]) + Dirent(ROOTINO, [46, 46])
    else Entries(files, k - 1) + Dirent(1 + k, DirName(files[k - 1].name))
  }

  /** The blocks the contents of the first k files take. */
  function DataBlocks(files: seq<HostFile>, k: nat): nat
    requires k <= |files|
  { if k == 0 then 0 else DataBlocks(files, k - 1) + BlocksFor(|files[k - 1].data|) }

  /** The blocks that the root and the first k files take. */
  function NeedFor(files: seq<HostFile>, k: nat): nat
    requires k <= |files|
  { BlocksFor(16 * (2 + k)) + DataBlocks(files, k) }

  lemma {:induction false} NeedGrows(files: seq<HostFile>, j: nat, k: nat)
    requires j <= k <= |files|
    ensures NeedFor(files, j) <= NeedFor(files, k)
  {
    if j < k {
      NeedGrows(files, j, k - 1);
      BlocksMore(16 * (1 + k), 16 * (2 + k));
    }
  }

  lemma {:induction false} NextNeed(files: seq<HostFile>, k: nat)
    requires k < |files|
    ensures NeedFor(files, k + 1) == NeedFor(files, k) + Cost(16 * (2 + k), 16 * (2 + k) + 16) + BlocksFor(|files[k].data|)
  {
  }

  /** mkfs can build an image with these files. */
  predicate Buildable(files: seq<HostFile>) {
    (forall t :: 0 <= t < |files| ==> !Refused(files[t])) && NMETA + NeedFor(files, |files|) <= FSSIZE
  }

  /** Inode j is a plain file with the contents of f. */
  ghost predicate FileIn(disk: Disk, ino: seq<Node>, f: HostFile, j: nat)
    requires Shaped(SB, disk, ino) && j < |ino| && ino[j].size <= MAXBYTES
  { Content(SB, disk, ino, j) == f.data && ino[j].typ == T_FILE && ino[j].nlink == 1 }

  /** Every file has its contents and its blocks. */
  ghost predicate FilesIn(disk: Disk, ino: seq<Node>, files: seq<HostFile>)
    requires |files| <= NINODES - 2 && Shaped(SB, disk, ino) && |ino| == NINODES
    requires forall j :: 0 <= j < NINODES ==> ino[j].size <= MAXBYTES
  {
    && (forall t :: 0 <= t < |files| ==> FileIn(disk, ino, files[t], 2 + t))
    && (forall j :: 0 <= j < NINODES && j != ROOTINO ==> Mapped(SB, disk, ino, j))
  }

  /** The root lists the files, and its last block exists unless the entries fill whole blocks. */
  ghost predicate RootIn(disk: Disk, ino: seq<Node>, files: seq<HostFile>)
    requires |files| <= NINODES - 2 && Shaped(SB, disk, ino) && |ino| == NINODES
    requires forall j :: 0 <= j < NINODES ==> ino[j].size <= MAXBYTES
  {
    && ino[ROOTINO].size == (16 * (2 + |files|) / BSIZE + 1) * BSIZE
    && Content(SB, disk, ino, ROOTINO)[..16 * (2 + |files|)] == Entries(files, |files|)
    && (forall o :: 16 * (2 + |files|) <= o < ino[ROOTINO].size ==> Content(SB, disk, ino, ROOTINO)[o] == 0)
    && ino[ROOTINO].typ == T_DIR && ino[ROOTINO].nlink == 1
    && Exact(disk, ino, ROOTINO, 16 * (2 + |files|))
    && (Mapped(SB, disk, ino, ROOTINO) <==> 16 * (2 + |files|) % BSIZE != 0)
  }

  /** The finished image, with every block accounted for. */
  ghost predicate Built(disk: Disk, ino: seq<Node>, owner: map<nat, Pos>, files: seq<HostFile>)
    requires |files| <= NINODES - 2
  {
    && Own(SB, disk, ino, owner, {}, {}) && |ino| == NINODES
    && (forall j :: 0 <= j < NINODES ==> ino[j].size <= MAXBYTES)
    && FilesIn(disk, ino, files) && RootIn(disk, ino, files)
    && (forall b :: 0 <= b < FSSIZE ==> (Used(SB, disk, b) <==> b < NMETA + NeedFor(files, |files|)))
  }

  class Image {
    var disk: Disk
    var ino: seq<Node>
    var freeblock: nat
    var freeinode: nat
    ghost var owner: map<nat, Pos>

    /** The blocks handed out so far are [0, freeblock); the rest of the disk is zero. */
    ghost predicate Laid()
      reads this
    {
      && |disk| == FSSIZE && |ino| == NINODES && NMETA <= freeblock <= FSSIZE
      && Own(SB, View(disk, freeblock), ino, owner, {}, {})
      && (forall c :: freeblock <= c < FSSIZE ==> disk[c] == ZeroBlock())
    }

    /** Since (d, n), file i gained block bn, and no byte changed. */
    ghost predicate Gained(d: Disk, n: seq<Node>, i: nat, bn: nat)
      requires |disk| == FSSIZE && freeblock <= FSSIZE
      reads this
    {
      var v := View(disk, freeblock);
      && Shaped(SB, d, n) && Shaped(SB, v, ino) && |ino| == |n|
      && Grows(SB, d, n, v, ino, i) && SameBytes(SB, d, n, v, ino) && BlocksBut(d, n, v, ino, i, bn) && IndirectBut(n, ino, i, bn)
    }

    /** din.addrs[k] = freeblock++; reading the block fails past the end of the image. */
    method NextAddr(i: nat, k: nat) returns (ok: bool)
      requires Laid() && i < |ino| && k <= NDIRECT && ino[i].addrs[k] == 0
      modifies `ino, `freeblock, `owner
      ensures ok <==> old(freeblock) < FSSIZE
      ensures !ok ==> freeblock == FSSIZE
      ensures ok ==> Laid() && ino[i].addrs[k] == old(freeblock) && freeblock == old(freeblock) + 1
      ensures ok ==> forall bn :: bn == k || bn > k == NDIRECT ==> Gained(View(disk, old(freeblock)), old(ino), i, bn)
    {
      hide Own, Used, Ref, View, Taken, ByteAt;
      if freeblock >= FSSIZE {
        return false;
      }
      ghost var v := View(disk, freeblock);
      OwnFacts(SB, v, ino, owner, {}, {});
      ViewUsed(disk, freeblock, freeblock);
      LinkAddrKeeps(SB, v, ino, owner, i, k, freeblock);
      ViewTaken(disk, freeblock);
      ino := PutAddr(ino, i, k, freeblock);
      owner := owner[freeblock := Pos(i, k)];
      freeblock := freeblock + 1;
      OwnFacts(SB, View(disk, freeblock), ino, owner, {}, {});
      OneBlock(v, old(ino), View(disk, freeblock), ino, i, k);
      return true;
    }
  
    /** indirect[j] = freeblock++, written back to the indirect block. */
    method NextEntry(i: nat, j: nat) returns (ok: bool)
      requires Laid() && i < |ino| && j < NINDIRECT && ino[i].addrs[NDIRECT] != 0
      requires Ref(SB, View(disk, freeblock), ino, Pos(i, 13 + j)) == 0
      modifies `disk, `freeblock, `owner
      ensures ok <==> old(freeblock) < FSSIZE
      ensures !ok ==> freeblock == FSSIZE
      ensures ok ==> Laid() && freeblock == old(freeblock) + 1
      ensures ok ==> Gained(View(old(disk), old(freeblock)), ino, i, NDIRECT + j)
      ensures ok ==> Ref(SB, View(disk, freeblock), ino, Pos(i, 13 + j)) == old(freeblock)
    {
      hide Own, Used, Ref, Taken, ByteAt, SetWord, BitmapOf;
      if freeblock >= FSSIZE {
        return false;
      }
      ghost var v := View(disk, freeblock);
      OwnFacts(SB, v, ino, owner, {}, {});
      BelowFree(disk, ino, owner, freeblock);
      ViewUsed(disk, freeblock, freeblock);
      LinkEntryKeeps(SB, v, ino, owner, i, j, freeblock);
      ViewTaken(disk, freeblock);
      var x := ino[i].addrs[NDIRECT];
      AddrOwned(SB, v, ino, owner, i, NDIRECT);
      disk := disk[x := SetWord(disk[x], j, freeblock)];
      assert View(disk, freeblock + 1) == View(old(disk), freeblock + 1)[x := SetWord(v[x], j, freeblock)];
      owner := owner[freeblock := Pos(i, 13 + j)];
      freeblock := freeblock + 1;
      OwnFacts(SB, View(disk, freeblock), ino, owner, {}, {});
      OneBlock(v, ino, View(disk, freeblock), ino, i, 13 + j);
      return true;
    }

    /** Block NDIRECT + j of the file, through the indirect block. */
    method FindEntry(i: nat, j: nat) returns (ok: bool, x: nat)
      requires Laid() && i < |ino| && j < NINDIRECT && ino[i].addrs[NDIRECT] != 0
      modifies `disk, `freeblock, `owner
      ensures ok ==> Laid() && Gained(View(old(disk), old(freeblock)), ino, i, NDIRECT + j)
      ensures var t := if Ref(SB, View(old(disk), old(freeblock)), ino, Pos(i, 13 + j)) == 0 then 1 else 0;
        (ok <==> old(freeblock) + t <= FSSIZE) && (ok ==> freeblock == old(freeblock) + t)
      ensures ok ==> x != 0 && x == Ref(SB, View(disk, freeblock), ino, Pos(i, 13 + j))
    {
      hide Own, ByteAt, GetWord, BitmapOf, Used;
      ok, x := true, 0;
      OwnFacts(SB, View(disk, freeblock), ino, owner, {}, {});
      GainedNone(i, NDIRECT + j);
      AddrOwned(SB, View(disk, freeblock), ino, owner, i, NDIRECT);
      if GetWord(disk[ino[i].addrs[NDIRECT]], j) == 0 {
        ok := NextEntry(i, j);
        if !ok {
          return;
        }
        AddrOwned(SB, View(disk, freeblock), ino, owner, i, NDIRECT);
      }
      x := GetWord(disk[ino[i].addrs[NDIRECT]], j);
    }

    /** The block that holds block bn of the file, taken from the free ones if the file lacks it. */
    method FindBlock(i: nat, bn: nat) returns (ok: bool, x: nat)
      requires Laid() && i < |ino| && bn < MAXFILE
      modifies `disk, `ino, `freeblock, `owner
      ensures ok ==> Laid() && Gained(View(old(disk), old(freeblock)), old(ino), i, bn)
      ensures var t := Takes(View(old(disk), old(freeblock)), old(ino), i, bn);
        (ok <==> old(freeblock) + t <= FSSIZE) && (ok ==> freeblock == old(freeblock) + t)
      ensures ok ==> x != 0 && x == Ref(SB, View(disk, freeblock), ino, Pos(i, DataPos(bn)))
    {
      hide Own, ByteAt, GetWord, View, Grows, SameBytes, BlocksBut;
      ok, x := true, 0;
      OwnFacts(SB, View(disk, freeblock), ino, owner, {}, {});
      GainedNone(i, bn);
      GainedNone(i, NDIRECT);
      GainedNone(i, NDIRECT + 1);
      if bn < NDIRECT {
        if ino[i].addrs[bn] == 0 {
          ok := NextAddr(i, bn);
          if !ok {
            return;
          }
        }
        assert Gained(View(old(disk), old(freeblock)), old(ino), i, bn);
        x := ino[i].addrs[bn];
      } else {
        if ino[i].addrs[NDIRECT] == 0 {
          ok := NextAddr(i, NDIRECT);
          if !ok {
            return;
          }
        }
        assert Gained(View(old(disk), old(freeblock)), old(ino), i, bn);
        assert bn > NDIRECT ==> Gained(View(old(disk), old(freeblock)), old(ino), i, NDIRECT);
        assert bn == NDIRECT ==> Gained(View(old(disk), old(freeblock)), old(ino), i, NDIRECT + 1);
        ghost var v, n := View(disk, freeblock), ino;
        EntrySame(View(old(disk), old(freeblock)), old(ino), v, n, i, bn);
        ok, x := FindEntry(i, bn - NDIRECT);
        if !ok {
          return;
        }
        GainedOn(View(old(disk), old(freeblock)), old(ino), v, n, i, bn);
      }
    }

    lemma {:induction false} GainedNone(i: nat, bn: nat)
      requires |disk| == FSSIZE && freeblock <= FSSIZE && Shaped(SB, View(disk, freeblock), ino)
      ensures Gained(View(disk, freeblock), ino, i, bn)
    {
      hide Ref, ByteAt, View, Shaped;
    }

    lemma {:induction false} GainedOn(d: Disk, n: seq<Node>, d': Disk, n': seq<Node>, i: nat, bn: nat)
      requires |disk| == FSSIZE && freeblock <= FSSIZE && Shaped(SB, d, n) && Shaped(SB, d', n') && |n'| == |n|
      requires Grows(SB, d, n, d', n', i) && SameBytes(SB, d, n, d', n') && BlocksBut(d, n, d', n', i, bn)
      requires IndirectBut(n, n', i, bn) && Gained(d', n', i, bn)
      ensures Gained(d, n, i, bn)
    {
      hide Ref, ByteAt, View, Shaped, Grows;
      GrowsOn(SB, d, n, d', n', View(disk, freeblock), ino, i);
      SameBytesOn(SB, d, n, d', n', View(disk, freeblock), ino);
    }
  
    /** Every file has exactly the blocks its size needs, and unused inodes are empty. */
    ghost predicate Valid()
      reads this
    {
      && Laid() && 1 <= freeinode <= NINODES
      && Shaped(SB, View(disk, freeblock), ino)
      && (forall j :: 0 <= j < NINODES ==> ino[j].size <= MAXBYTES && Exact(View(disk, freeblock), ino, j, ino[j].size))
      && (forall j :: freeinode <= j < NINODES ==> ino[j].size == 0 && Unmapped(ino[j]))
      && Tidy(View(disk, freeblock), ino)
    }

    /** Where iappend's loop stands: tot bytes of p are in place, nothing else changed since (d, n). */
    ghost predicate Appended(d: Disk, n: seq<Node>, i: nat, p: seq<Byte>, tot: nat)
      reads this
    {
      && Laid() && Shaped(SB, d, n) && Shaped(SB, View(disk, freeblock), ino) && |ino| == |n| && i < |n| && tot <= |p|
      && Grows(SB, d, n, View(disk, freeblock), ino, i)
      && Written(SB, d, n, View(disk, freeblock), ino, i, n[i].size, p, tot)
      && (forall j :: 0 <= j < |n| ==> Exact(View(disk, freeblock), ino, j, n[j].size + if j == i then tot else 0))
    }

    /** One round of iappend's loop; false where it exits: the file or the disk is full. */
    method AppendPart(i: nat, p: seq<Byte>, tot: nat, ghost d: Disk, ghost n: seq<Node>) returns (ok: bool, tot': nat)
      requires Appended(d, n, i, p, tot) && tot < |p|
      modifies `disk, `ino, `freeblock, `owner
      ensures ok ==> tot' == tot + PartSize(|p| - tot, n[i].size + tot) && Appended(d, n, i, p, tot')
      ensures var q, m := n[i].size + tot, PartSize(|p| - tot, n[i].size + tot);
        && (ok <==> q < MAXBYTES && old(freeblock) + Cost(q, q + m) <= FSSIZE)
        && (ok ==> q + m <= MAXBYTES && freeblock == old(freeblock) + Cost(q, q + m))
    {
      hide Own, ByteAt, Ref, Used, BitmapOf, Grows, SameBytes, Written, Spliced, Exact, BlocksBut, IndirectBut, Takes, Cost, PartSize;
      GrowsNode(SB, d, n, View(disk, freeblock), ino, i);
      var off: nat := ino[i].size + tot;
      var bn := off / BSIZE;
      if bn >= MAXFILE {
        return false, tot;
      }
      var x;
      ghost var v := View(disk, freeblock);
      var m := PartSize(|p| - tot, off);
      TakesCost(v, ino, i, off, m);
      ok, x := FindBlock(i, bn);
      if !ok {
        return false, tot;
      }
      ghost var v1 := View(disk, freeblock);
      GrowsOn(SB, d, n, v, old(ino), v1, ino, i);
      WrittenOn(SB, d, n, v, old(ino), v1, ino, i, n[i].size, p, tot);
      WriteChunk(SB, d, n, v1, ino, owner, i, n[i].size, p, tot, m);
      OwnerOf(SB, v1, ino, owner, {}, Pos(i, DataPos(bn)));
      BelowFree(disk, ino, owner, freeblock);
      disk := disk[x := Spliced(disk[x], off % BSIZE, p, tot, m)];
      assert View(disk, freeblock) == v1[x := Spliced(v1[x], off % BSIZE, p, tot, m)];
      OwnFacts(SB, View(disk, freeblock), ino, owner, {}, {});
      SameRefsGrows(SB, d, n, v1, ino, View(disk, freeblock), i);
      forall j | 0 <= j < |n| ensures Exact(View(disk, freeblock), ino, j, n[j].size + if j == i then tot + m else 0) {
        ExactOn(v, old(ino), v1, ino, View(disk, freeblock), i, n[j].size + (if j == i then tot else 0), off, m, j);
      }
      return true, tot + m;
    }
  
    /** iappend */
    method Iappend(i: nat, p: seq<Byte>) returns (ok: bool)
      requires Valid() && i < freeinode
      modifies `disk, `ino, `freeblock, `owner
      ensures var z := old(ino[i].size);
        && (ok <==> z + |p| <= MAXBYTES && old(freeblock) + Cost(z, z + |p|) <= FSSIZE)
        && (ok ==> Valid() && freeblock == old(freeblock) + Cost(z, z + |p|))
      ensures ok ==>
        && Content(SB, View(disk, freeblock), ino, i) == old(Content(SB, View(disk, freeblock), ino, i)) + p
        && ino[i].typ == old(ino[i].typ) && ino[i].nlink == old(ino[i].nlink)
        && forall j :: 0 <= j < NINODES && j != i ==>
             ino[j] == old(ino[j]) && Content(SB, View(disk, freeblock), ino, j) == old(Content(SB, View(disk, freeblock), ino, j))
    {
      hide Own, ByteAt, Ref, Used, View, Grows, Written, Exact, Content, Patch, Touched, Cost, PartSize, Tidy;
      ghost var d, n, z := View(disk, freeblock), ino, ino[i].size;
      WroteNothing(SB, d, n, i, n[i].size, p);
      CostNone(z);
      var tot: nat := 0;
      ok := true;
      while tot < |p|
        invariant ok && Appended(d, n, i, p, tot) && tot <= |p| && n[i].size + tot <= MAXBYTES
        invariant freeblock == old(freeblock) + Cost(z, z + tot)
      {
        ghost var m := PartSize(|p| - tot, z + tot);
        CostSplit(z, z + tot, z + tot + m);
        CostSplit(z, z + tot + m, z + |p|);
        ok, tot := AppendPart(i, p, tot, d, n);
        if !ok {
          return;
        }
      }
      ghost var v := View(disk, freeblock);
      ExactTouched(v, ino, i, n[i].size, n[i].size + |p|);
      GrowsNode(SB, d, n, v, ino, i);
      WriteDone(SB, d, n, v, ino, owner, i, n[i].size, p);
      PutSizeKeeps(SB, v, ino, owner, i, n[i].size + |p|);
      AppendPatch(Content(SB, d, n, i), p);
      ghost var was := ino;
      TidyOn(d, n, v, ino, PutSize(ino, i, ino[i].size + |p|), i, p);
      ino := PutSize(ino, i, ino[i].size + |p|);
      forall j | 0 <= j < NINODES ensures Exact(v, ino, j, ino[j].size) {
        SameExact(v, was, ino, j, ino[j].size);
      }
    }
  
    /** ialloc */
    method Ialloc(typ: int) returns (inum: nat)
      requires Valid() && freeinode < NINODES
      modifies `ino, `freeinode
      ensures Valid() && inum == old(freeinode) && freeinode == inum + 1
      ensures ino == old(ino)[inum := Node(typ, 1, 0, seq(13, k => 0))]
      ensures forall j :: 0 <= j < NINODES ==>
        Content(SB, View(disk, freeblock), ino, j) == old(Content(SB, View(disk, freeblock), ino, j))
    {
      hide Own, ByteAt, Ref, View, Exact, Content;
      assert forall k :: 0 <= k < 13 ==> ino[freeinode].addrs[k] == 0;
      inum := freeinode;
      freeinode := freeinode + 1;
      ino := ino[inum := Node(typ, 1, 0, seq(13, k => 0))];
      ghost var v := View(disk, freeblock);
      SameAddrs(v, old(ino), ino, owner);
      forall j | 0 <= j < NINODES ensures Exact(v, ino, j, ino[j].size) {
        SameExact(v, old(ino), ino, j, ino[j].size);
      }
      forall j | 0 <= j < NINODES ensures Content(SB, v, ino, j) == Content(SB, v, old(ino), j) {
        LongerContent(v, old(ino), ino, j);
      }
    }

    constructor ()
      ensures Valid() && freeinode == 1 && freeblock == NMETA
      ensures forall j :: 0 <= j < NINODES ==> Content(SB, View(disk, freeblock), ino, j) == []
    {
      disk := seq(FSSIZE, c => ZeroBlock());
      ino := seq(NINODES, j => Node(0, 0, 0, seq(13, k => 0)));
      freeblock := NMETA;
      freeinode := 1;
      owner := map[];
      new;
      EmptyImage(disk, ino);
      EmptyTidy(disk, ino);
    }

    /** The file as it stands. */
    ghost function File(j: nat): seq<Byte>
      requires Valid() && j < NINODES
      reads this
    { Content(SB, View(disk, freeblock), ino, j) }

    /** The body of main's loop over the files. */
    method AddFile(f: HostFile) returns (ok: bool)
      requires Valid() && ROOTINO < freeinode < NINODES
      modifies this
      ensures ok ==> Valid() && freeinode == old(freeinode) + 1
      ensures var z := |old(File(ROOTINO))|;
        var need := old(freeblock) + Cost(z, z + 16) + BlocksFor(|f.data|);
        (ok <==> !Refused(f) && z + 16 <= MAXBYTES && need <= FSSIZE) && (ok ==> freeblock == need)
      ensures ok ==>
        && File(ROOTINO) == old(File(ROOTINO)) + Dirent(old(freeinode), DirName(f.name))
        && File(old(freeinode)) == f.data
        && ino[old(freeinode)].typ == T_FILE && ino[old(freeinode)].nlink == 1
        && ino[ROOTINO].typ == old(ino[ROOTINO].typ) && ino[ROOTINO].nlink == old(ino[ROOTINO].nlink)
        && forall j :: 1 < j < old(freeinode) ==> ino[j] == old(ino[j]) && File(j) == old(File(j))
    {
      hide Content, Own, Exact, View, Dirent, Cost, BlocksFor, Tidy;
      ghost var f1 := freeblock + Cost(|File(ROOTINO)|, |File(ROOTINO)| + 16);
      if 47 in f.name {
        return false;
      }
      ghost var z := freeinode;
      var inum := Ialloc(T_FILE);
      assert File(inum) == [];
      ok := Iappend(ROOTINO, Dirent(inum, DirName(f.name)));
      if !ok {
        return;
      }
      ghost var root := File(ROOTINO);
      CostNone(0);
      CostZero(0);
      CostZero(|f.data|);
      var tot := 0;
      while tot < |f.data|
        invariant ok && 0 <= tot <= |f.data| && Valid() && freeinode == inum + 1
        invariant File(inum) == f.data[..tot] && File(ROOTINO) == root && freeblock == f1 + BlocksFor(tot) && tot <= MAXBYTES
        invariant ino[inum].typ == T_FILE && ino[inum].nlink == 1
        invariant ino[ROOTINO].typ == old(ino[ROOTINO].typ) && ino[ROOTINO].nlink == old(ino[ROOTINO].nlink)
        invariant forall j :: 1 < j < inum ==> ino[j] == old(ino[j]) && File(j) == old(File(j))
      {
        var cc := Min(|f.data| - tot, BSIZE);
        CostZero(tot);
        CostSplit(0, tot, tot + cc);
        CostZero(tot + cc);
        BlocksMore(tot + cc, |f.data|);
        ok := Iappend(inum, f.data[tot..tot + cc]);
        if !ok {
          return;
        }
        assert f.data[..tot] + f.data[tot..tot + cc] == f.data[..tot + cc];
        tot := tot + cc;
      }
      assert f.data[..tot] == f.data;
    }

    /** Root and the first k files are in place. */
    ghost predicate Holds(files: seq<HostFile>, k: nat)
      requires k <= |files| <= NINODES - 2
      reads this
    {
      && Valid() && freeinode == 2 + k && freeblock == NMETA + NeedFor(files, k)
      && File(ROOTINO) == Entries(files, k) && ino[ROOTINO].typ == T_DIR && ino[ROOTINO].nlink == 1
      && forall t :: 0 <= t < k ==> FileIn(View(disk, freeblock), ino, files[t], 2 + t)
    }

    /** main, up to the loop over the files. */
    method MakeRoot(files: seq<HostFile>) returns (ok: bool)
      requires Valid() && freeinode == 1 && freeblock == NMETA && |files| <= NINODES - 2 && File(ROOTINO) == []
      modifies this
      ensures ok && Holds(files, 0) && NMETA + NeedFor(files, 0) <= FSSIZE
    {
      hide Content, Own, Exact, View, Dirent;
      var root := Ialloc(T_DIR);
      assert File(root) == [];
      ok := Iappend(root, Dirent(root, [46]));
      if !ok {
        return;
      }
      ok := Iappend(root, Dirent(root, [46, 46]));
    }

    /** main: root, files, the root's size, then the bitmap. */
    method Build(files: seq<HostFile>) returns (ok: bool)
      requires Valid() && freeinode == 1 && freeblock == NMETA && |files| <= NINODES - 2 && File(ROOTINO) == []
      modifies this
      ensures ok <==> Buildable(files)
      ensures ok ==> Built(disk, ino, owner, files)
    {
      hide Holds, Built, NeedFor;
      ok := MakeRoot(files);
      if !ok {
        return;
      }
      for k := 0 to |files|
        invariant ok && Holds(files, k) && NMETA + NeedFor(files, k) <= FSSIZE && forall t :: 0 <= t < k ==> !Refused(files[t])
      {
        NeedGrows(files, k + 1, |files|);
        ok := AddNext(files, k);
        if !ok {
          return;
        }
      }
      FixRoot(files);
    }

    method AddNext(files: seq<HostFile>, k: nat) returns (ok: bool)
      requires k < |files| <= NINODES - 2 && Holds(files, k)
      modifies this
      ensures ok <==> !Refused(files[k]) && NMETA + NeedFor(files, k + 1) <= FSSIZE
      ensures ok ==> Holds(files, k + 1)
    {
      hide Content, Own, Exact, View, Dirent, Valid, BlocksFor, Cost, NeedFor;
      ValidLen();
      NextNeed(files, k);
      ok := AddFile(files[k]);
      if ok {
        ValidLen();
        forall t | 0 <= t < k + 1 ensures FileIn(View(disk, freeblock), ino, files[t], 2 + t) {
          if t < k {
            assert FileIn(old(View(disk, freeblock)), old(ino), files[t], 2 + t);
            assert File(2 + t) == old(File(2 + t)) && ino[2 + t] == old(ino[2 + t]);
          }
        }
        assert Entries(files, k + 1) == Entries(files, k) + Dirent(1 + (k + 1), DirName(files[k].name));
      }
    }

    lemma {:induction false} ValidLen()
      requires Valid()
      ensures |ino| == NINODES && |disk| == FSSIZE && freeblock <= FSSIZE && Shaped(SB, View(disk, freeblock), ino)
      ensures forall j :: 0 <= j < NINODES ==> ino[j].size <= MAXBYTES
    {
    }

    /** main's last steps: round the root's size up, write the bitmap. */
    method FixRoot(files: seq<HostFile>)
      requires |files| <= NINODES - 2 && Holds(files, |files|)
      modifies `disk, `ino
      ensures Built(disk, ino, owner, files)
    {
      hide Content, Own, Exact, Dirent, BitmapOf, Used, NeedFor, Built;
      ghost var v := View(disk, freeblock);
      var off := ino[ROOTINO].size;
      assert off == |File(ROOTINO)|;
      RoundUp(off);
      off := (off / BSIZE + 1) * BSIZE;
      ino := PutSize(ino, ROOTINO, off);
      forall b | 0 <= b < FSSIZE ensures Used(SB, v, b) <==> b < freeblock { ViewUsed(disk, freeblock, b); }
      assert Unrounded(v, old(ino), owner, files);
      RootFixed(v, old(ino), ino, owner, files);
      var bits := UsedBits(freeblock);
      disk := disk[BMAPSTART := bits];
      assert disk == v;
    }

    /** balloc(used): the bitmap block with the first used bits set. */
    static method UsedBits(used: nat) returns (buf: Block)
      requires used <= BPB
      ensures forall j :: 0 <= j < BPB ==> (Bit(buf, j) <==> j < used)
      ensures buf == BitmapOf(used)
    {
      hide SetBit, Bit;
      buf := ZeroBlock();
      for i := 0 to used
        invariant buf == BitmapOf(i)
      {
        buf := SetBit(buf, i);
      }
      forall j | 0 <= j < BPB ensures Bit(buf, j) <==> j < used { BitmapOfBit(used, j); }
    }
  }

  /** The image before the root's size is rounded up. */
  ghost predicate Unrounded(v: Disk, n: seq<Node>, owner: map<nat, Pos>, files: seq<HostFile>)
    requires |files| <= NINODES - 2
  {
    && Own(SB, v, n, owner, {}, {}) && |n| == NINODES && Shaped(SB, v, n)
    && (forall j :: 0 <= j < NINODES ==> n[j].size <= MAXBYTES && Exact(v, n, j, n[j].size))
    && Content(SB, v, n, ROOTINO) == Entries(files, |files|) && n[ROOTINO].typ == T_DIR && n[ROOTINO].nlink == 1
    && (forall t :: 0 <= t < |files| ==> FileIn(v, n, files[t], 2 + t)) && Tidy(v, n)
  }

  /** With the root's size rounded up the image is the one promised. */
  lemma {:induction false} RootFixed(v: Disk, n: seq<Node>, ino: seq<Node>, owner: map<nat, Pos>, files: seq<HostFile>)
    requires |files| <= NINODES - 2 && Unrounded(v, n, owner, files)
    requires ino == PutSize(n, ROOTINO, (16 * (2 + |files|) / BSIZE + 1) * BSIZE)
    requires SuperOk(SB) && |v| == FSSIZE
    requires forall b :: 0 <= b < FSSIZE ==> (Used(SB, v, b) <==> b < NMETA + NeedFor(files, |files|))
    ensures Built(v, ino, owner, files)
  {
    hide Content, Own, Exact, Dirent, Mapped, Ref, ByteAt, SameRefs, SameBytes, Used, NeedFor, Entries, FilesIn, RootIn;
    RoundUp(16 * (2 + |files|));
    SameAddrs(v, n, ino, owner);
    OwnFacts(SB, v, ino, owner, {}, {});
    FilesStay(v, n, ino, owner, files);
    RootGrows(v, n, ino, owner, files);
  }

  lemma {:induction false} FilesStay(v: Disk, n: seq<Node>, ino: seq<Node>, owner: map<nat, Pos>, files: seq<HostFile>)
    requires |files| <= NINODES - 2 && Unrounded(v, n, owner, files) && Shaped(SB, v, ino) && |ino| == NINODES
    requires ino == n[ROOTINO := ino[ROOTINO]] && n[ROOTINO].size <= ino[ROOTINO].size <= MAXBYTES
    requires SameRefs(SB, v, n, v, ino) && SameBytes(SB, v, n, v, ino)
    ensures FilesIn(v, ino, files)
  {
    hide Content, Own, Exact, Mapped, Ref, ByteAt, SameRefs, SameBytes, Entries;
    forall j | 0 <= j < NINODES && j != ROOTINO
      ensures Mapped(SB, v, ino, j) && Content(SB, v, ino, j) == Content(SB, v, n, j)
    {
      LongerContent(v, n, ino, j);
      SameExact(v, n, ino, j, n[j].size);
      ExactMapped(v, ino, j, n[j].size);
      var c := Content(SB, v, ino, j);
      assert c[..|c|] == c;
    }
    forall t | 0 <= t < |files| ensures FileIn(v, ino, files[t], 2 + t) {
      assert FileIn(v, n, files[t], 2 + t);
      assert ino[2 + t] == n[2 + t] && Content(SB, v, ino, 2 + t) == Content(SB, v, n, 2 + t);
    }
  }

  lemma {:induction false} RootGrows(v: Disk, n: seq<Node>, ino: seq<Node>, owner: map<nat, Pos>, files: seq<HostFile>)
    requires |files| <= NINODES - 2 && Unrounded(v, n, owner, files) && Shaped(SB, v, ino) && |ino| == NINODES
    requires forall j :: 0 <= j < NINODES ==> ino[j].size <= MAXBYTES
    requires ino == PutSize(n, ROOTINO, (16 * (2 + |files|) / BSIZE + 1) * BSIZE)
    requires SameRefs(SB, v, n, v, ino) && SameBytes(SB, v, n, v, ino)
    ensures RootIn(v, ino, files)
  {
    hide Content, Own, Exact, Mapped, Ref, ByteAt, SameRefs, SameBytes;
    var z := 16 * (2 + |files|);
    assert n[ROOTINO].size == |Content(SB, v, n, ROOTINO)| == z;
    RoundUp(z);
    LongerContent(v, n, ino, ROOTINO);
    TailZero(v, n, ino);
    SameExact(v, n, ino, ROOTINO, z);
    ExactMapped(v, ino, ROOTINO, z);
  }

  lemma {:induction false} TailZero(v: Disk, n: seq<Node>, ino: seq<Node>)
    requires Shaped(SB, v, n) && Shaped(SB, v, ino) && Tidy(v, n) && |ino| == |n| && ROOTINO < |n| && SameBytes(SB, v, n, v, ino)
    requires ino[ROOTINO].size <= MAXBYTES
    ensures forall o :: n[ROOTINO].size <= o < ino[ROOTINO].size ==> Content(SB, v, ino, ROOTINO)[o] == 0
  {
    hide ByteAt;
  }

  lemma {:induction false} RoundUp(off: nat)
    requires off <= 16 * NINODES
    ensures off < (off / BSIZE + 1) * BSIZE <= MAXBYTES
  {
  }

  /** A file whose size says z' but whose blocks were laid for z bytes. */
  lemma {:induction false} ExactMapped(disk: Disk, ino: seq<Node>, j: nat, z: nat)
    requires Shaped(SB, disk, ino) && j < |ino| && Exact(disk, ino, j, z) && z <= ino[j].size <= MAXBYTES
    ensures z == ino[j].size ==> Mapped(SB, disk, ino, j)
    ensures ino[j].size == (z / BSIZE + 1) * BSIZE ==> (Mapped(SB, disk, ino, j) <==> z % BSIZE != 0)
  {
    hide Ref;
    if ino[j].size == (z / BSIZE + 1) * BSIZE {
      var n := z / BSIZE;
      assert n * BSIZE < ino[j].size && (n * BSIZE < z <==> z % BSIZE != 0);
      assert Ref(SB, disk, ino, Pos(j, DataPos(n))) != 0 <==> n * BSIZE < z;
      forall m | 0 <= m < MAXFILE && m * BSIZE < ino[j].size && z % BSIZE != 0
        ensures Ref(SB, disk, ino, Pos(j, DataPos(m))) != 0
      {
        assert m <= n;
      }
    }
  }

  lemma {:induction false} EmptyImage(disk: Disk, ino: seq<Node>)
    requires disk == seq(FSSIZE, c => ZeroBlock())
    requires |ino| == NINODES && forall j :: 0 <= j < NINODES ==> ino[j] == Node(0, 0, 0, seq(13, k => 0))
    ensures Own(SB, View(disk, NMETA), ino, map[], {}, {})
    ensures forall j :: 0 <= j < NINODES ==> Exact(View(disk, NMETA), ino, j, 0)
  {
    hide Used;
    forall b | 0 <= b < FSSIZE ensures Used(SB, View(disk, NMETA), b) <==> b < NMETA { ViewUsed(disk, NMETA, b); }
  }

  lemma {:induction false} EmptyTidy(disk: Disk, ino: seq<Node>)
    requires |disk| == FSSIZE && |ino| == NINODES && forall j :: 0 <= j < NINODES ==> ino[j] == Node(0, 0, 0, seq(13, k => 0))
    ensures Shaped(SB, View(disk, NMETA), ino) && Tidy(View(disk, NMETA), ino)
  {
  }

  /** Inodes with the same addresses have the same blocks. */
  lemma {:induction false} SameAddrs(disk: Disk, ino: seq<Node>, ino': seq<Node>, owner: map<nat, Pos>)
    requires Own(SB, disk, ino, owner, {}, {}) && |ino'| == |ino|
    requires forall j :: 0 <= j < |ino| ==> ino'[j].addrs == ino[j].addrs
    ensures Own(SB, disk, ino', owner, {}, {})
    ensures SameRefs(SB, disk, ino, disk, ino') && SameBytes(SB, disk, ino, disk, ino')
  {
    assert forall p :: ValidPos(ino, p) ==> Ref(SB, disk, ino', p) == Ref(SB, disk, ino, p);
    hide Ref, Used;
  }

  /** A file that only grew in size starts with what it was. */
  lemma {:induction false} LongerContent(disk: Disk, ino: seq<Node>, ino': seq<Node>, j: nat)
    requires Shaped(SB, disk, ino) && Shaped(SB, disk, ino') && |ino'| == |ino| && SameBytes(SB, disk, ino, disk, ino')
    requires j < |ino| && ino[j].size <= ino'[j].size <= MAXBYTES
    ensures Content(SB, disk, ino', j)[..ino[j].size] == Content(SB, disk, ino, j)
  {
    hide Ref, ByteAt, Shaped;
  }

  lemma {:induction false} ExactTouched(disk: Disk, ino: seq<Node>, i: nat, from: nat, to: nat)
    requires Shaped(SB, disk, ino) && i < |ino| && Exact(disk, ino, i, to)
    ensures Touched(SB, disk, ino, i, from, to)
  {
    hide Ref;
  }

  lemma {:induction false} SameExact(disk: Disk, ino: seq<Node>, ino': seq<Node>, j: nat, z: nat)
    requires Shaped(SB, disk, ino) && Shaped(SB, disk, ino') && |ino'| == |ino| && j < |ino|
    requires SameRefs(SB, disk, ino, disk, ino') && Exact(disk, ino, j, z)
    ensures Exact(disk, ino', j, z)
  {
    assert Ref(SB, disk, ino, Pos(j, NDIRECT)) == ino[j].addrs[NDIRECT] && Ref(SB, disk, ino', Pos(j, NDIRECT)) == ino'[j].addrs[NDIRECT];
    hide Ref, Shaped;
    assert forall n :: 0 <= n < MAXFILE ==> ValidPos(ino, Pos(j, DataPos(n)));
  }

  lemma {:induction false} AppendPatch(c: seq<Byte>, p: seq<Byte>)
    ensures Patch(c, |c|, p) == c + p
  {
  }

  predicate Unmapped(n: Node) { n.addrs == seq(13, k => 0) }

  /** Filling block off / BSIZE brings the file to off + m bytes. */
  lemma {:induction false} ExactOn(d: Disk, n: seq<Node>, v: Disk, ino: seq<Node>, v': Disk, i: nat, z: nat, off: nat, m: nat,
                                   j: nat)
    requires Shaped(SB, d, n) && Shaped(SB, v, ino) && Shaped(SB, v', ino) && |ino| == |n| && i < |n| && j < |n|
    requires BlocksBut(d, n, v, ino, i, off / BSIZE) && IndirectBut(n, ino, i, off / BSIZE)
    requires SameRefs(SB, v, ino, v', ino) && off / BSIZE < MAXFILE
    requires Ref(SB, v, ino, Pos(i, DataPos(off / BSIZE))) != 0 && 0 < m && off % BSIZE + m <= BSIZE
    requires Exact(d, n, j, z) && (j == i ==> z == off)
    ensures Exact(v', ino, j, if j == i then off + m else z)
  {
    hide Ref, Shaped;
    forall bn | 0 <= bn < MAXFILE
      ensures Ref(SB, v', ino, Pos(j, DataPos(bn))) != 0 <==> bn * BSIZE < if j == i then off + m else z
    {
      var p := Pos(j, DataPos(bn));
      assert ValidPos(ino, p);
      assert Ref(SB, v', ino, p) == Ref(SB, v, ino, p);
      assert bn != off / BSIZE ==> (bn * BSIZE < off + m <==> bn * BSIZE < off);
    }
  }

  lemma {:induction false} AddrOwned(sb: Super, disk: Disk, ino: seq<Node>, owner: map<nat, Pos>, i: nat, k: nat)
    requires Own(sb, disk, ino, owner, {}, {}) && i < |ino| && k <= NDIRECT && ino[i].addrs[k] != 0
    ensures ino[i].addrs[k] in owner && sb.nmeta <= ino[i].addrs[k] < sb.size
  {
    assert Ref(sb, disk, ino, Pos(i, k)) == ino[i].addrs[k];
  }

  /** A changed address is the place of one data block, or of none. */
  lemma {:induction false} OneBlock(disk: Disk, ino: seq<Node>, disk': Disk, ino': seq<Node>, i: nat, k: nat)
    requires Shaped(SB, disk, ino) && Shaped(SB, disk', ino') && |ino'| == |ino|
    requires RefsBut(SB, disk, ino, disk', ino', Pos(i, k))
    ensures BlocksBut(disk, ino, disk', ino', i, if k > NDIRECT then k - 1 else k)
    ensures k == NDIRECT ==> forall bn :: BlocksBut(disk, ino, disk', ino', i, bn)
    ensures k != NDIRECT ==> forall bn :: IndirectBut(ino, ino', i, bn)
    ensures k == NDIRECT ==> forall bn :: bn >= NDIRECT ==> IndirectBut(ino, ino', i, bn)
  {
    forall j | 0 <= j < |ino| && !(j == i && k == NDIRECT) ensures ino'[j].addrs[NDIRECT] == ino[j].addrs[NDIRECT] {
      assert ValidPos(ino, Pos(j, NDIRECT));
      assert Ref(SB, disk, ino, Pos(j, NDIRECT)) == ino[j].addrs[NDIRECT];
      assert Ref(SB, disk', ino', Pos(j, NDIRECT)) == ino'[j].addrs[NDIRECT];
    }
    hide Ref, Shaped;
  }

  /** Giving a file its indirect block gives it no data block. */
  lemma {:induction false} EntrySame(d: Disk, n: seq<Node>, d': Disk, n': seq<Node>, i: nat, bn: nat)
    requires Shaped(SB, d, n) && Shaped(SB, d', n') && |n'| == |n| && i < |n| && NDIRECT <= bn < MAXFILE
    requires BlocksBut(d, n, d', n', i, if bn == NDIRECT then NDIRECT + 1 else NDIRECT)
    ensures Ref(SB, d', n', Pos(i, bn + 1)) == Ref(SB, d, n, Pos(i, bn + 1))
  {
    hide Ref, Shaped;
    assert DataPos(bn) == bn + 1;
    assert Ref(SB, d', n', Pos(i, DataPos(bn))) == Ref(SB, d, n, Pos(i, DataPos(bn)));
  }
}
