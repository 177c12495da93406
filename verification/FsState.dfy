/** Which inode owns which block, and what the bytes of a file are.

    An inode refers to blocks through 141 positions: 0-11 are its direct addresses,
    12 the address of its indirect block, and 13 + j entry j of that block. */
module FsState {
  import opened Blocks
  import opened DiskWrites
  import opened Bitmap

  const NDIRECT := 12
  const NINDIRECT := 128
  const MAXFILE := 140       // NDIRECT + NINDIRECT
  const POSITIONS := 141
  const MAXBYTES := 71680    // MAXFILE * BSIZE

  type Disk = seq<Block>

  /** struct inode: type, link count, size and block addresses. */
  datatype Node = Node(typ: int, nlink: int, size: Word, addrs: seq<Word>)

  /** Blocks below nmeta are boot block, superblock, log, inodes and bitmap. */
  datatype Super = Super(size: nat, bmapstart: nat, nmeta: nat)

  predicate SuperOk(sb: Super) {
    && 0 < sb.bmapstart < sb.nmeta <= sb.size <= 0x7fff_f000   // block numbers are ints
    && sb.size <= (sb.nmeta - sb.bmapstart) * BPB
  }

  datatype Pos = Pos(i: nat, k: nat)

  /** Position of block n of a file. */
  function DataPos(n: nat): nat { if n < NDIRECT then n else n + 1 }

  predicate Shaped(sb: Super, disk: Disk, ino: seq<Node>) {
    && |disk| == sb.size
    && (forall i :: 0 <= i < |ino| ==> |ino[i].addrs| == 13)
    && (forall i :: 0 <= i < |ino| ==> ino[i].addrs[NDIRECT] < sb.size)
  }

  predicate ValidPos(ino: seq<Node>, p: Pos) { p.i < |ino| && p.k < POSITIONS }

  /** The block number stored at a position, 0 if none. */
  function Ref(sb: Super, disk: Disk, ino: seq<Node>, p: Pos): Word
    requires Shaped(sb, disk, ino) && ValidPos(ino, p)
  {
    if p.k <= NDIRECT then ino[p.i].addrs[p.k]
    else if ino[p.i].addrs[NDIRECT] == 0 then 0
    else GetWord(disk[ino[p.i].addrs[NDIRECT]], p.k - 13)
  }

  /** BBLOCK(b): the bitmap block holding b's bit. */
  function BBlock(sb: Super, b: nat): nat { sb.bmapstart + b / BPB }

  /** Block b's bit in the bitmap. */
  predicate Used(sb: Super, disk: Disk, b: nat)
    requires SuperOk(sb) && |disk| == sb.size && b < sb.size
  {
    Bit(disk[BBlock(sb, b)], b % BPB)
  }

  /** Every block in use is metadata, owned by exactly one position, or in `limbo`
      (just allocated, not stored yet). Positions in `gone` are being truncated. */
  ghost predicate Own(sb: Super, disk: Disk, ino: seq<Node>, owner: map<nat, Pos>, limbo: set<nat>, gone: set<Pos>) {
    && SuperOk(sb) && Shaped(sb, disk, ino)
    && (forall p :: ValidPos(ino, p) && p !in gone && Ref(sb, disk, ino, p) != 0 ==>
          Ref(sb, disk, ino, p) in owner && owner[Ref(sb, disk, ino, p)] == p)
    && (forall b :: b in owner ==>
          && sb.nmeta <= b < sb.size && b !in limbo
          && ValidPos(ino, owner[b]) && owner[b] !in gone && Ref(sb, disk, ino, owner[b]) == b)
    && (forall b :: b in limbo ==> sb.nmeta <= b < sb.size)
    && (forall b :: 0 <= b < sb.size ==> (Used(sb, disk, b) <==> b < sb.nmeta || b in owner || b in limbo))
  }

  /** Byte o of file i; a block that was never written reads as zeros. */
  function ByteAt(sb: Super, disk: Disk, ino: seq<Node>, i: nat, o: nat): Byte
    requires Shaped(sb, disk, ino) && i < |ino| && o < MAXBYTES
  {
    BlockByte(disk, Ref(sb, disk, ino, Pos(i, DataPos(o / BSIZE))), o % BSIZE)
  }

  function BlockByte(disk: Disk, r: nat, x: nat): Byte
    requires x < BSIZE
  { if r == 0 || r >= |disk| then 0 else disk[r][x] }

  /** Where byte o of file i is: in the block at addrs[n] for the first NDIRECT blocks n, then in the
      block whose number is word n - NDIRECT, little-endian, of the block at addrs[NDIRECT]. */
  lemma {:induction false} ByteFormat(sb: Super, disk: Disk, ino: seq<Node>, i: nat, o: nat)
    requires Shaped(sb, disk, ino) && i < |ino| && o < MAXBYTES
    ensures var n, x := o / 512, ino[i].addrs[12];
      && (n < 12 && 0 < ino[i].addrs[n] < |disk| ==> ByteAt(sb, disk, ino, i, o) == disk[ino[i].addrs[n]][o % 512])
      && (n >= 12 && x != 0 ==>
            var t, j := disk[x], 4 * (n - 12);
            var a := t[j] as int + 0x100 * t[j + 1] as int + 0x1_0000 * t[j + 2] as int + 0x100_0000 * t[j + 3] as int;
            0 < a < |disk| ==> ByteAt(sb, disk, ino, i, o) == disk[a][o % 512])
  {
  }

  /** The file as a flat byte array. */
  function Content(sb: Super, disk: Disk, ino: seq<Node>, i: nat): (c: seq<Byte>)
    requires Shaped(sb, disk, ino) && i < |ino| && ino[i].size <= MAXBYTES
    ensures |c| == ino[i].size
  {
    seq(ino[i].size, o requires 0 <= o < ino[i].size => ByteAt(sb, disk, ino, i, o))
  }

  /** All blocks below the file's size are mapped. */
  ghost predicate Mapped(sb: Super, disk: Disk, ino: seq<Node>, i: nat)
    requires Shaped(sb, disk, ino) && i < |ino|
  {
    forall n :: 0 <= n < MAXFILE && n * BSIZE < ino[i].size ==> Ref(sb, disk, ino, Pos(i, DataPos(n))) != 0
  }

  /** All blocks below z are. */
  ghost predicate MappedTo(sb: Super, disk: Disk, ino: seq<Node>, i: nat, z: nat)
    requires Shaped(sb, disk, ino) && i < |ino|
  {
    forall n :: 0 <= n < MAXFILE && n * BSIZE < z ==> Ref(sb, disk, ino, Pos(i, DataPos(n))) != 0
  }

  lemma {:induction false} MappedLess(sb: Super, disk: Disk, ino: seq<Node>, i: nat, z: nat, z': nat)
    requires Shaped(sb, disk, ino) && i < |ino| && z' <= z
    ensures Mapped(sb, disk, ino, i) && z <= ino[i].size ==> MappedTo(sb, disk, ino, i, z)
    ensures MappedTo(sb, disk, ino, i, z) ==> MappedTo(sb, disk, ino, i, z')
  {
    hide Ref;
  }

  /** No file changed a byte. */
  ghost predicate SameBytes(sb: Super, disk: Disk, ino: seq<Node>, disk': Disk, ino': seq<Node>)
    requires Shaped(sb, disk, ino) && Shaped(sb, disk', ino') && |ino'| == |ino|
  {
    forall j, o :: 0 <= j < |ino| && 0 <= o < MAXBYTES ==> ByteAt(sb, disk', ino', j, o) == ByteAt(sb, disk, ino, j, o)
  }

  // ------------------------------------------------------------- allocation

  /** The disk after balloc: bit set, block zeroed. */
  function Taken(sb: Super, disk: Disk, b: nat): (d: Disk)
    requires SuperOk(sb) && |disk| == sb.size && sb.nmeta <= b < sb.size
    ensures |d| == |disk|
  {
    disk[BBlock(sb, b) := SetBit(disk[BBlock(sb, b)], b % BPB)][b := ZeroBlock()]
  }

  function Freed(sb: Super, disk: Disk, b: nat): (d: Disk)
    requires SuperOk(sb) && |disk| == sb.size && b < sb.size
    ensures |d| == |disk|
  {
    disk[BBlock(sb, b) := ClearBit(disk[BBlock(sb, b)], b % BPB)]
  }

  /** Bitmap blocks are metadata. */
  lemma {:induction false} BitmapBlock(sb: Super, b: nat)
    requires SuperOk(sb) && b < sb.size
    ensures BBlock(sb, b) < sb.nmeta
  {
  }

  lemma {:induction false} TakenUsed(sb: Super, disk: Disk, b: nat, c: nat)
    requires SuperOk(sb) && |disk| == sb.size && sb.nmeta <= b < sb.size && c < sb.size
    ensures Used(sb, Taken(sb, disk, b), c) <==> c == b || Used(sb, disk, c)
  {
    BitmapBlock(sb, b);
    BitmapBlock(sb, c);
    SetBitOnly(disk[BBlock(sb, b)], b % BPB, c % BPB);
  }

  lemma {:induction false} FreedUsed(sb: Super, disk: Disk, b: nat, c: nat)
    requires SuperOk(sb) && |disk| == sb.size && b < sb.size && c < sb.size
    ensures Used(sb, Freed(sb, disk, b), c) <==> c != b && Used(sb, disk, c)
  {
    BitmapBlock(sb, b);
    BitmapBlock(sb, c);
    SetBitOnly(disk[BBlock(sb, b)], b % BPB, c % BPB);
  }

  /** No position changed its reference. */
  ghost predicate SameRefs(sb: Super, disk: Disk, ino: seq<Node>, disk': Disk, ino': seq<Node>)
    requires Shaped(sb, disk, ino) && Shaped(sb, disk', ino') && |ino'| == |ino|
  {
    forall p :: ValidPos(ino, p) ==> Ref(sb, disk', ino', p) == Ref(sb, disk, ino, p)
  }

  /** A free block is nobody's, so taking and zeroing it disturbs no file. */
  lemma {:induction false} TakeKeeps(sb: Super, disk: Disk, ino: seq<Node>, owner: map<nat, Pos>, b: nat)
    requires Own(sb, disk, ino, owner, {}, {}) && b < sb.size && !Used(sb, disk, b)
    ensures sb.nmeta <= b && b !in owner
    ensures Own(sb, Taken(sb, disk, b), ino, owner, {b}, {})
    ensures SameRefs(sb, disk, ino, Taken(sb, disk, b), ino)
    ensures SameBytes(sb, disk, ino, Taken(sb, disk, b), ino)
    ensures Taken(sb, disk, b)[b] == ZeroBlock()
  {
    hide Own, Used, SameRefs, SameBytes, Shaped;
    OwnFacts(sb, disk, ino, owner, {}, {});
    FreeIsNobodys(sb, disk, ino, owner, b);
    TakenRefs(sb, disk, ino, owner, b);
    TakenOwn(sb, disk, ino, owner, b);
    BitmapBlock(sb, b);
    OwnedBytes(sb, disk, ino, owner, Taken(sb, disk, b));
  }

  lemma {:induction false} OwnFacts(sb: Super, disk: Disk, ino: seq<Node>, owner: map<nat, Pos>, limbo: set<nat>, gone: set<Pos>)
    requires Own(sb, disk, ino, owner, limbo, gone)
    ensures SuperOk(sb) && Shaped(sb, disk, ino) && |disk| == sb.size
    ensures forall b :: b in owner ==> sb.nmeta <= b < sb.size && ValidPos(ino, owner[b])
  {
  }

  lemma {:induction false} FreeIsNobodys(sb: Super, disk: Disk, ino: seq<Node>, owner: map<nat, Pos>, b: nat)
    requires Own(sb, disk, ino, owner, {}, {}) && b < sb.size && !Used(sb, disk, b)
    ensures sb.nmeta <= b && b !in owner
  {
  }

  lemma {:induction false} TakenRefs(sb: Super, disk: Disk, ino: seq<Node>, owner: map<nat, Pos>, b: nat)
    requires Own(sb, disk, ino, owner, {}, {}) && sb.nmeta <= b < sb.size && b !in owner
    ensures Shaped(sb, Taken(sb, disk, b), ino) && SameRefs(sb, disk, ino, Taken(sb, disk, b), ino)
  {
    BitmapBlock(sb, b);
    forall p | ValidPos(ino, p) ensures Ref(sb, Taken(sb, disk, b), ino, p) == Ref(sb, disk, ino, p) {
      var q := Pos(p.i, NDIRECT);
      assert ValidPos(ino, q);
      assert Ref(sb, disk, ino, q) != 0 ==> Ref(sb, disk, ino, q) in owner;
    }
  }

  lemma {:induction false} TakenOwn(sb: Super, disk: Disk, ino: seq<Node>, owner: map<nat, Pos>, b: nat)
    requires Own(sb, disk, ino, owner, {}, {}) && sb.nmeta <= b < sb.size && b !in owner
    requires SameRefs(sb, disk, ino, Taken(sb, disk, b), ino)
    ensures Own(sb, Taken(sb, disk, b), ino, owner, {b}, {})
  {
    var d := Taken(sb, disk, b);
    forall c | 0 <= c < sb.size ensures Used(sb, d, c) <==> c < sb.nmeta || c in owner || c in {b} {
      TakenUsed(sb, disk, b, c);
    }
  }

  /** If references and owned data blocks stay, so do all bytes. */
  lemma {:induction false} OwnedBytes(sb: Super, disk: Disk, ino: seq<Node>, owner: map<nat, Pos>, disk': Disk)
    requires Own(sb, disk, ino, owner, {}, {}) && Shaped(sb, disk', ino) && SameRefs(sb, disk, ino, disk', ino)
    requires forall r :: r in owner && owner[r].k != NDIRECT ==> disk'[r] == disk[r]
    ensures SameBytes(sb, disk, ino, disk', ino)
  {
    forall j, o | 0 <= j < |ino| && 0 <= o < MAXBYTES
      ensures ByteAt(sb, disk', ino, j, o) == ByteAt(sb, disk, ino, j, o)
    {
      var p := Pos(j, DataPos(o / BSIZE));
      assert ValidPos(ino, p);
      var r := Ref(sb, disk, ino, p);
      assert Ref(sb, disk', ino, p) == r;
      assert r != 0 ==> r in owner && owner[r] == p;
    }
  }

  // ---------------------------------------------------------------- linking

  /** Position q, empty before, now refers to b; no other reference changed. */
  ghost predicate Refers(sb: Super, disk: Disk, ino: seq<Node>, disk': Disk, ino': seq<Node>, q: Pos, b: nat)
    requires Shaped(sb, disk, ino) && Shaped(sb, disk', ino') && |ino'| == |ino|
  {
    && ValidPos(ino, q) && Ref(sb, disk, ino, q) == 0
    && forall p :: ValidPos(ino, p) ==> Ref(sb, disk', ino', p) == if p == q then b else Ref(sb, disk, ino, p)
  }

  /** The bitmap lies in the metadata blocks. */
  lemma {:induction false} SameUsed(sb: Super, disk: Disk, disk': Disk, c: nat)
    requires SuperOk(sb) && |disk| == sb.size && |disk'| == sb.size && c < sb.size
    requires forall x :: 0 <= x < sb.nmeta ==> disk'[x] == disk[x]
    ensures Used(sb, disk', c) == Used(sb, disk, c)
  {
    BitmapBlock(sb, c);
  }

  /** A block in limbo finds its place. */
  lemma {:induction false} LinkKeeps(sb: Super, disk: Disk, ino: seq<Node>, owner: map<nat, Pos>, b: nat, disk': Disk,
                                     ino': seq<Node>, q: Pos)
    requires Own(sb, disk, ino, owner, {b}, {}) && b != 0
    requires Shaped(sb, disk', ino') && |ino'| == |ino| && Refers(sb, disk, ino, disk', ino', q, b)
    requires forall c :: 0 <= c < sb.nmeta ==> disk'[c] == disk[c]
    ensures Own(sb, disk', ino', owner[b := q], {}, {})
  {
    hide Used, Ref;
    forall c | 0 <= c < sb.size ensures Used(sb, disk', c) <==> c < sb.nmeta || c in owner[b := q] {
      SameUsed(sb, disk, disk', c);
      assert c in {b} <==> c == b;
    }
    forall p | ValidPos(ino', p) && Ref(sb, disk', ino', p) != 0
      ensures Ref(sb, disk', ino', p) in owner[b := q] && owner[b := q][Ref(sb, disk', ino', p)] == p
    {
      assert ValidPos(ino, p);
      assert b in {b};
    }
    var owner' := owner[b := q];
    forall c | c in owner'
      ensures sb.nmeta <= c < sb.size && ValidPos(ino', owner'[c]) && Ref(sb, disk', ino', owner'[c]) == c
    {
      assert b in {b};
    }
  }

  /** A zeroed block linked into a hole reads as the hole did. */
  lemma {:induction false} LinkBytes(sb: Super, disk: Disk, ino: seq<Node>, owner: map<nat, Pos>, b: nat, disk': Disk,
                                     ino': seq<Node>, q: Pos)
    requires Own(sb, disk, ino, owner, {b}, {}) && b != 0
    requires Shaped(sb, disk', ino') && |ino'| == |ino| && Refers(sb, disk, ino, disk', ino', q, b)
    requires disk'[b] == ZeroBlock()
    requires forall r :: r in owner && owner[r].k != NDIRECT ==> disk'[r] == disk[r]
    ensures SameBytes(sb, disk, ino, disk', ino')
  {
    forall j, o | 0 <= j < |ino| && 0 <= o < MAXBYTES
      ensures ByteAt(sb, disk', ino', j, o) == ByteAt(sb, disk, ino, j, o)
    {
      var p := Pos(j, DataPos(o / BSIZE));
      assert ValidPos(ino, p);
      var r := Ref(sb, disk, ino, p);
      assert Ref(sb, disk', ino', p) == if p == q then b else r;
      assert r != 0 ==> r in owner && owner[r] == p;
    }
  }

  function PutAddr(ino: seq<Node>, i: nat, k: nat, b: Word): seq<Node>
    requires i < |ino| && k < |ino[i].addrs|
  { ino[i := ino[i].(addrs := ino[i].addrs[k := b])] }

  /** ip->addrs[k] = b, for a direct address or for the indirect block. */
  lemma {:induction false} PutAddrRefers(sb: Super, disk: Disk, ino: seq<Node>, i: nat, k: nat, b: Word)
    requires Shaped(sb, disk, ino) && i < |ino| && k <= NDIRECT && ino[i].addrs[k] == 0
    requires 0 < b < sb.size && disk[b] == ZeroBlock()
    ensures Shaped(sb, disk, PutAddr(ino, i, k, b))
    ensures Refers(sb, disk, ino, disk, PutAddr(ino, i, k, b), Pos(i, k), b)
  {
    var ino' := PutAddr(ino, i, k, b);
    forall p | ValidPos(ino, p) ensures Ref(sb, disk, ino', p) == if p == Pos(i, k) then b else Ref(sb, disk, ino, p) {
      if p.i == i && p.k > NDIRECT && k == NDIRECT { ZeroWords(p.k - 13); }
    }
  }

  /** a[j] = b in the indirect block. */
  lemma {:induction false} PutEntryRefers(sb: Super, disk: Disk, ino: seq<Node>, owner: map<nat, Pos>, limbo: set<nat>, i: nat,
                                          j: nat, b: Word)
    requires Own(sb, disk, ino, owner, limbo, {}) && i < |ino| && j < NINDIRECT && 0 < b < sb.size
    requires ino[i].addrs[NDIRECT] != 0 && Ref(sb, disk, ino, Pos(i, 13 + j)) == 0
    ensures var x := ino[i].addrs[NDIRECT];
            var disk' := disk[x := SetWord(disk[x], j, b)];
            && x in owner && owner[x] == Pos(i, NDIRECT) && Shaped(sb, disk', ino)
            && Refers(sb, disk, ino, disk', ino, Pos(i, 13 + j), b)
  {
    var x := ino[i].addrs[NDIRECT];
    var disk' := disk[x := SetWord(disk[x], j, b)];
    assert Ref(sb, disk, ino, Pos(i, NDIRECT)) == x;
    forall p | ValidPos(ino, p) ensures Ref(sb, disk', ino, p) == if p == Pos(i, 13 + j) then b else Ref(sb, disk, ino, p) {
      if p.k > NDIRECT {
        var q := Pos(p.i, NDIRECT);
        assert ValidPos(ino, q);
        assert Ref(sb, disk, ino, q) == x ==> owner[x] == q;
        if p.i == i { SetGetWord(disk[x], j, b, p.k - 13); }
      }
    }
  }

  // ------------------------------------------------------------ data writes

  /** Writing the data block of (i, n) changes the bytes of that block of that file only. */
  lemma {:induction false} DataWriteKeeps(sb: Super, disk: Disk, ino: seq<Node>, owner: map<nat, Pos>, i: nat, n: nat, blk: Block)
    requires Own(sb, disk, ino, owner, {}, {}) && i < |ino| && n < MAXFILE
    requires Ref(sb, disk, ino, Pos(i, DataPos(n))) != 0
    ensures var r := Ref(sb, disk, ino, Pos(i, DataPos(n)));
            && sb.nmeta <= r < sb.size && Shaped(sb, disk[r := blk], ino)
            && SameRefs(sb, disk, ino, disk[r := blk], ino)
            && Own(sb, disk[r := blk], ino, owner, {}, {})
            && (forall j, o :: 0 <= j < |ino| && 0 <= o < MAXBYTES ==>
                  ByteAt(sb, disk[r := blk], ino, j, o) ==
                  if j == i && o / BSIZE == n then blk[o % BSIZE] else ByteAt(sb, disk, ino, j, o))
  {
    var q := Pos(i, DataPos(n));
    assert ValidPos(ino, q);
    var r := Ref(sb, disk, ino, q);
    var d := disk[r := blk];
    assert r in owner && owner[r] == q;
    forall p | ValidPos(ino, p) ensures Ref(sb, d, ino, p) == Ref(sb, disk, ino, p) {
      var x := Pos(p.i, NDIRECT);
      assert ValidPos(ino, x);
      assert x != q && (Ref(sb, disk, ino, x) == 0 || owner[Ref(sb, disk, ino, x)] == x);
    }
    DataWriteOwn(sb, disk, ino, owner, r, blk);
    forall j, o | 0 <= j < |ino| && 0 <= o < MAXBYTES
      ensures ByteAt(sb, d, ino, j, o) == if j == i && o / BSIZE == n then blk[o % BSIZE] else ByteAt(sb, disk, ino, j, o)
    {
      var p := Pos(j, DataPos(o / BSIZE));
      assert ValidPos(ino, p);
      assert Ref(sb, disk, ino, p) == r ==> owner[r] == p;
    }
  }

  lemma {:induction false} DataWriteOwn(sb: Super, disk: Disk, ino: seq<Node>, owner: map<nat, Pos>, r: nat, blk: Block)
    requires Own(sb, disk, ino, owner, {}, {}) && sb.nmeta <= r < sb.size
    requires Shaped(sb, disk[r := blk], ino) && SameRefs(sb, disk, ino, disk[r := blk], ino)
    ensures Own(sb, disk[r := blk], ino, owner, {}, {})
  {
    hide Ref, Used;
    forall c | 0 <= c < sb.size ensures Used(sb, disk[r := blk], c) <==> c < sb.nmeta || c in owner {
      SameUsed(sb, disk, disk[r := blk], c);
    }
  }

  // ------------------------------------------------------------- truncation

  /** References that are not being dropped stay, and so do the bytes behind them. */
  ghost predicate SameRefsBut(sb: Super, disk: Disk, ino: seq<Node>, disk': Disk, ino': seq<Node>, gone: set<Pos>)
    requires Shaped(sb, disk, ino) && Shaped(sb, disk', ino') && |ino'| == |ino|
  {
    forall p :: ValidPos(ino, p) && p !in gone ==> Ref(sb, disk', ino', p) == Ref(sb, disk, ino, p)
  }

  /** The indirect block's own position is never among the dropped ones. */
  predicate KeepsIndirect(gone: set<Pos>) { forall p :: p in gone ==> p.k != NDIRECT }

  /** Clearing a bit of the bitmap moves no reference. */
  lemma {:induction false} FreedRefs(sb: Super, disk: Disk, ino: seq<Node>, owner: map<nat, Pos>, gone: set<Pos>, b: nat)
    requires Own(sb, disk, ino, owner, {}, gone) && b < sb.size && KeepsIndirect(gone)
    ensures Shaped(sb, Freed(sb, disk, b), ino) && SameRefs(sb, disk, ino, Freed(sb, disk, b), ino)
    ensures forall c :: sb.nmeta <= c < sb.size ==> Freed(sb, disk, b)[c] == disk[c]
  {
    BitmapBlock(sb, b);
    forall p | ValidPos(ino, p) ensures Ref(sb, Freed(sb, disk, b), ino, p) == Ref(sb, disk, ino, p) {
      var q := Pos(p.i, NDIRECT);
      assert ValidPos(ino, q) && q !in gone;
      assert Ref(sb, disk, ino, q) != 0 ==> Ref(sb, disk, ino, q) in owner;
    }
  }

  /** bfree of a block some position owns: the bit was set, and that position is now dangling. */
  lemma {:induction false} FreeKeeps(sb: Super, disk: Disk, ino: seq<Node>, owner: map<nat, Pos>, gone: set<Pos>, b: nat)
    requires Own(sb, disk, ino, owner, {}, gone) && b in owner && KeepsIndirect(gone)
    ensures b < sb.size && Used(sb, disk, b)
    ensures Own(sb, Freed(sb, disk, b), ino, owner - {b}, {}, gone + {owner[b]})
  {
    hide Ref, Used;
    var d := Freed(sb, disk, b);
    var q := owner[b];
    FreedRefs(sb, disk, ino, owner, gone, b);
    forall c | 0 <= c < sb.size ensures Used(sb, d, c) <==> c < sb.nmeta || c in owner - {b} {
      FreedUsed(sb, disk, b, c);
    }
    forall p | ValidPos(ino, p) && p !in gone + {q} && Ref(sb, d, ino, p) != 0
      ensures Ref(sb, d, ino, p) in owner - {b} && (owner - {b})[Ref(sb, d, ino, p)] == p
    {
      assert p !in gone && p != q;
    }
    var owner' := owner - {b};
    forall c | c in owner'
      ensures sb.nmeta <= c < sb.size && ValidPos(ino, owner'[c]) && owner'[c] !in gone + {q} && Ref(sb, d, ino, owner'[c]) == c
    {
      assert c != b && owner'[c] == owner[c] && Ref(sb, disk, ino, owner[c]) == c;
      assert Ref(sb, disk, ino, q) == b;
    }
  }

  /** Dangling positions whose reference is erased are ordinary empty positions again. */
  lemma {:induction false} DropKeeps(sb: Super, disk: Disk, ino: seq<Node>, owner: map<nat, Pos>, gone: set<Pos>, ino': seq<Node>)
    requires Own(sb, disk, ino, owner, {}, gone) && |ino'| == |ino| && Shaped(sb, disk, ino')
    requires SameRefsBut(sb, disk, ino, disk, ino', gone)
    requires forall p :: p in gone ==> ValidPos(ino, p) && Ref(sb, disk, ino', p) == 0
    ensures Own(sb, disk, ino', owner, {}, {})
  {
    hide Ref, Used;
  }

  /** ip->addrs[k] = 0 erases position k, and the entries too when k is the indirect block. */
  lemma {:induction false} ClearAddrRefs(sb: Super, disk: Disk, ino: seq<Node>, i: nat, k: nat)
    requires Shaped(sb, disk, ino) && i < |ino| && k <= NDIRECT && 0 < sb.size
    ensures Shaped(sb, disk, PutAddr(ino, i, k, 0))
    ensures forall p :: ValidPos(ino, p) ==>
      Ref(sb, disk, PutAddr(ino, i, k, 0), p) ==
      if p.i == i && (p.k == k || (k == NDIRECT && p.k > NDIRECT)) then 0 else Ref(sb, disk, ino, p)
  {
  }
}
