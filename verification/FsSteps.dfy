/** What one allocation, one block write and one truncation step do to the files. */
module FsSteps {
  import opened Blocks
  import opened DiskWrites
  import opened Bitmap
  import opened FsState

  /** File i may have gained blocks; nothing else about any file moved. */
  ghost predicate Grows(sb: Super, disk: Disk, ino: seq<Node>, disk': Disk, ino': seq<Node>, i: nat)
    requires Shaped(sb, disk, ino) && Shaped(sb, disk', ino')
  {
    && |ino'| == |ino|
    && (forall j :: 0 <= j < |ino| && j != i ==> ino'[j] == ino[j])
    && (i < |ino| ==> ino'[i] == ino[i].(addrs := ino'[i].addrs))
    && (forall p :: ValidPos(ino, p) && (p.i != i || Ref(sb, disk, ino, p) != 0) ==>
          Ref(sb, disk', ino', p) == Ref(sb, disk, ino, p))
  }

  lemma {:induction false} GrowsOn(sb: Super, disk: Disk, ino: seq<Node>, disk': Disk, ino': seq<Node>, disk'': Disk,
                                   ino'': seq<Node>, i: nat)
    requires Shaped(sb, disk, ino) && Shaped(sb, disk', ino') && Shaped(sb, disk'', ino'')
    requires Grows(sb, disk, ino, disk', ino', i) && Grows(sb, disk', ino', disk'', ino'', i)
    ensures Grows(sb, disk, ino, disk'', ino'', i)
  {
    hide Ref, Shaped;
    forall p | ValidPos(ino, p) && (p.i != i || Ref(sb, disk, ino, p) != 0)
      ensures Ref(sb, disk'', ino'', p) == Ref(sb, disk, ino, p)
    {
      assert ValidPos(ino', p);
      assert Ref(sb, disk', ino', p) == Ref(sb, disk, ino, p);
    }
  }

  lemma {:induction false} SameBytesOn(sb: Super, disk: Disk, ino: seq<Node>, disk': Disk, ino': seq<Node>, disk'': Disk,
                                       ino'': seq<Node>)
    requires Shaped(sb, disk, ino) && Shaped(sb, disk', ino') && Shaped(sb, disk'', ino'')
    requires |ino| == |ino'| == |ino''|
    requires SameBytes(sb, disk, ino, disk', ino') && SameBytes(sb, disk', ino', disk'', ino'')
    ensures SameBytes(sb, disk, ino, disk'', ino'')
  {
    hide ByteAt, Shaped;
  }

  /** Only position q changed its reference. */
  ghost predicate RefsBut(sb: Super, disk: Disk, ino: seq<Node>, disk': Disk, ino': seq<Node>, q: Pos)
    requires Shaped(sb, disk, ino) && Shaped(sb, disk', ino') && |ino'| == |ino|
  {
    forall p :: ValidPos(ino, p) && p != q ==> Ref(sb, disk', ino', p) == Ref(sb, disk, ino, p)
  }

  // ---------------------------------------------------------------- linking

  /** balloc into an address field: the new block belongs to that position, and no file changes a byte. */
  lemma {:induction false} LinkAddrKeeps(sb: Super, disk: Disk, ino: seq<Node>, owner: map<nat, Pos>, i: nat, k: nat, b: nat)
    requires Own(sb, disk, ino, owner, {}, {}) && i < |ino| && k <= NDIRECT && ino[i].addrs[k] == 0
    requires b < sb.size && !Used(sb, disk, b)
    ensures sb.nmeta <= b
    ensures var d, ino' := Taken(sb, disk, b), PutAddr(ino, i, k, b);
            && Own(sb, d, ino', owner[b := Pos(i, k)], {}, {})
            && Ref(sb, d, ino', Pos(i, k)) == b && d[b] == ZeroBlock()
            && RefsBut(sb, disk, ino, d, ino', Pos(i, k))
            && Grows(sb, disk, ino, d, ino', i) && SameBytes(sb, disk, ino, d, ino')
  {
    hide Own, Used, Ref, Taken, Bit, ByteAt;
    TakeKeeps(sb, disk, ino, owner, b);
    OwnFacts(sb, disk, ino, owner, {}, {});
    var d, ino' := Taken(sb, disk, b), PutAddr(ino, i, k, b);
    OwnFacts(sb, d, ino, owner, {b}, {});
    AddrRef(sb, d, ino, i, k);
    PutAddrRefers(sb, d, ino, i, k, b);
    LinkKeeps(sb, d, ino, owner, b, d, ino', Pos(i, k));
    LinkBytes(sb, d, ino, owner, b, d, ino', Pos(i, k));
    SameBytesOn(sb, disk, ino, d, ino, d, ino');
    LinkGrows(sb, disk, ino, d, d, ino', Pos(i, k), b);
  }

  lemma {:induction false} AddrRef(sb: Super, disk: Disk, ino: seq<Node>, i: nat, k: nat)
    requires Shaped(sb, disk, ino) && i < |ino| && k <= NDIRECT
    ensures Ref(sb, disk, ino, Pos(i, k)) == ino[i].addrs[k]
  {
  }

  lemma {:induction false} LinkGrows(sb: Super, disk: Disk, ino: seq<Node>, d: Disk, disk': Disk, ino': seq<Node>, q: Pos, b: nat)
    requires Shaped(sb, disk, ino) && Shaped(sb, d, ino) && Shaped(sb, disk', ino') && |ino'| == |ino|
    requires SameRefs(sb, disk, ino, d, ino) && Refers(sb, d, ino, disk', ino', q, b)
    requires forall j :: 0 <= j < |ino| && j != q.i ==> ino'[j] == ino[j]
    requires ino'[q.i] == ino[q.i].(addrs := ino'[q.i].addrs)
    ensures Grows(sb, disk, ino, disk', ino', q.i) && Ref(sb, disk', ino', q) == b
    ensures RefsBut(sb, disk, ino, disk', ino', q)
  {
    hide Ref, Shaped;
  }

  /** balloc into an entry of the indirect block. */
  lemma {:induction false} LinkEntryKeeps(sb: Super, disk: Disk, ino: seq<Node>, owner: map<nat, Pos>, i: nat, j: nat, b: nat)
    requires Own(sb, disk, ino, owner, {}, {}) && i < |ino| && j < NINDIRECT && ino[i].addrs[NDIRECT] != 0
    requires Ref(sb, disk, ino, Pos(i, 13 + j)) == 0 && b < sb.size && !Used(sb, disk, b)
    ensures sb.nmeta <= b && Taken(sb, disk, b)[ino[i].addrs[NDIRECT]] == disk[ino[i].addrs[NDIRECT]]
    ensures var x := ino[i].addrs[NDIRECT];
            var d := Taken(sb, disk, b)[x := SetWord(disk[x], j, b)];
            && Own(sb, d, ino, owner[b := Pos(i, 13 + j)], {}, {})
            && Ref(sb, d, ino, Pos(i, 13 + j)) == b
            && RefsBut(sb, disk, ino, d, ino, Pos(i, 13 + j))
            && Grows(sb, disk, ino, d, ino, i) && SameBytes(sb, disk, ino, d, ino)
  {
    hide Own, Used, Ref, Taken, Bit, ByteAt, SetWord, GetWord;
    TakeKeeps(sb, disk, ino, owner, b);
    OwnFacts(sb, disk, ino, owner, {}, {});
    var t := Taken(sb, disk, b);
    OwnFacts(sb, t, ino, owner, {b}, {});
    var q := Pos(i, 13 + j);
    assert ValidPos(ino, q);
    PutEntryRefers(sb, t, ino, owner, {b}, i, j, b);
    var x := ino[i].addrs[NDIRECT];
    TakenElsewhere(sb, disk, b, x);
    var d := t[x := SetWord(t[x], j, b)];
    OwnedApart(sb, t, ino, owner, {b}, x);
    LinkKeeps(sb, t, ino, owner, b, d, ino, q);
    LinkBytes(sb, t, ino, owner, b, d, ino, q);
    SameBytesOn(sb, disk, ino, t, ino, d, ino);
    LinkGrows(sb, disk, ino, t, d, ino, q, b);
  }

  lemma {:induction false} TakenElsewhere(sb: Super, disk: Disk, b: nat, x: nat)
    requires SuperOk(sb) && |disk| == sb.size && sb.nmeta <= b < sb.size && sb.nmeta <= x < sb.size && x != b
    ensures Taken(sb, disk, b)[x] == disk[x]
  {
    BitmapBlock(sb, b);
  }

  lemma {:induction false} OwnedApart(sb: Super, disk: Disk, ino: seq<Node>, owner: map<nat, Pos>, limbo: set<nat>, x: nat)
    requires Own(sb, disk, ino, owner, limbo, {}) && x in owner
    ensures sb.nmeta <= x < sb.size && x !in limbo
  {
  }

  // -------------------------------------------------------- reading, writing

  /** The part of a block that readi copies is the same part of the flat file. */
  lemma {:induction false} ReadChunk(sb: Super, disk: Disk, ino: seq<Node>, i: nat, off: nat, m: nat, a: nat)
    requires Shaped(sb, disk, ino) && i < |ino| && ino[i].size <= MAXBYTES
    requires 0 < m && off + m <= ino[i].size && off % BSIZE + m <= BSIZE
    requires a == Ref(sb, disk, ino, Pos(i, DataPos(off / BSIZE))) && 0 < a < sb.size
    ensures disk[a][off % BSIZE..off % BSIZE + m] == Content(sb, disk, ino, i)[off..off + m]
  {
    hide Ref;
    var x, c := disk[a][off % BSIZE..off % BSIZE + m], Content(sb, disk, ino, i);
    forall t | 0 <= t < m ensures x[t] == c[off + t] {
      assert (off + t) / BSIZE == off / BSIZE && (off + t) % BSIZE == off % BSIZE + t;
    }
  }

  /** Files that kept size and bytes kept their contents. */
  lemma {:induction false} SameContent(sb: Super, disk: Disk, ino: seq<Node>, disk': Disk, ino': seq<Node>, i: nat, j: nat)
    requires Shaped(sb, disk, ino) && Shaped(sb, disk', ino') && Grows(sb, disk, ino, disk', ino', i)
    requires SameBytes(sb, disk, ino, disk', ino') && j < |ino| && ino[j].size <= MAXBYTES
    ensures ino'[j].size == ino[j].size && Content(sb, disk', ino', j) == Content(sb, disk, ino, j)
  {
    hide Ref, ByteAt, Shaped;
  }

  /** File i may have gained blocks; no file changed a byte. */
  ghost predicate Stepped(sb: Super, d: Disk, n: seq<Node>, disk: Disk, ino: seq<Node>, i: nat) {
    && Shaped(sb, d, n) && Shaped(sb, disk, ino) && |ino| == |n|
    && Grows(sb, d, n, disk, ino, i) && SameBytes(sb, d, n, disk, ino)
  }

  lemma {:induction false} SteppedContent(sb: Super, d: Disk, n: seq<Node>, disk: Disk, ino: seq<Node>, i: nat)
    requires Stepped(sb, d, n, disk, ino, i) && i < |n| && n[i].size <= MAXBYTES
    ensures |ino| == |n| && Shaped(sb, d, n) && Shaped(sb, disk, ino)
    ensures ino[i].size == n[i].size && Content(sb, disk, ino, i) == Content(sb, d, n, i)
  {
    hide Ref, Content, Grows, SameBytes, Shaped;
    SameContent(sb, d, n, disk, ino, i, i);
  }

  /** Since (d, n), exactly the first tot bytes of src were put into file i at off. */
  ghost predicate Written(sb: Super, d: Disk, n: seq<Node>, disk: Disk, ino: seq<Node>, i: nat, off: nat, src: seq<Byte>,
                          tot: nat)
    requires Shaped(sb, d, n) && Shaped(sb, disk, ino) && |ino| == |n| && tot <= |src|
  {
    forall j, o :: 0 <= j < |n| && 0 <= o < MAXBYTES ==>
      ByteAt(sb, disk, ino, j, o) == if j == i && off <= o < off + tot then src[o - off] else ByteAt(sb, d, n, j, o)
  }

  /** A block with m bytes of src from tot on copied in at x. */
  function Spliced(b: Block, x: nat, src: seq<Byte>, tot: nat, m: nat): Block
    requires x + m <= BSIZE && tot + m <= |src|
  { b[..x] + src[tot..tot+m] + b[x+m..] }

  /** One round of writei's loop. */
  lemma {:induction false} WriteChunk(sb: Super, d: Disk, n: seq<Node>, disk: Disk, ino: seq<Node>, owner: map<nat, Pos>,
                   i: nat, off: nat, src: seq<Byte>, tot: nat, m: nat)
    requires Shaped(sb, d, n) && Own(sb, disk, ino, owner, {}, {}) && |ino| == |n| && i < |ino|
    requires tot + m <= |src| && 0 < m && off + tot + m <= MAXBYTES && (off + tot) % BSIZE + m <= BSIZE
    requires Written(sb, d, n, disk, ino, i, off, src, tot)
    requires Ref(sb, disk, ino, Pos(i, DataPos((off + tot) / BSIZE))) != 0
    ensures var a, x := Ref(sb, disk, ino, Pos(i, DataPos((off + tot) / BSIZE))), (off + tot) % BSIZE;
            && a < sb.size
            && var disk' := disk[a := Spliced(disk[a], x, src, tot, m)];
               && Own(sb, disk', ino, owner, {}, {}) && SameRefs(sb, disk, ino, disk', ino)
               && Written(sb, d, n, disk', ino, i, off, src, tot + m)
  {
    hide Own, ByteAt, Ref, Shaped, Spliced;
    OwnFacts(sb, disk, ino, owner, {}, {});
    var bn, x := (off + tot) / BSIZE, (off + tot) % BSIZE;
    var a := Ref(sb, disk, ino, Pos(i, DataPos(bn)));
    DataWriteKeeps(sb, disk, ino, owner, i, bn, ZeroBlock());
    var blk := Spliced(disk[a], x, src, tot, m);
    DataWriteKeeps(sb, disk, ino, owner, i, bn, blk);
    var disk' := disk[a := blk];
    forall j, o | 0 <= j < |n| && 0 <= o < MAXBYTES
      ensures ByteAt(sb, disk', ino, j, o) == if j == i && off <= o < off + (tot + m) then src[o - off] else ByteAt(sb, d, n, j, o)
    {
      SamePart(off + tot, m, o);
      assert ByteAt(sb, disk', ino, j, o) == if j == i && o / BSIZE == bn then blk[o % BSIZE] else ByteAt(sb, disk, ino, j, o);
      assert ByteAt(sb, disk, ino, j, o) == if j == i && off <= o < off + tot then src[o - off] else ByteAt(sb, d, n, j, o);
      if j == i && o / BSIZE == bn {
        OwnByte(sb, disk, ino, i, o, a);
        SplicedAt(disk[a], x, src, tot, m, o % BSIZE);
      }
    }
  }

  /** The bytes from q to q + m, inside one block. */
  lemma {:induction false} SamePart(q: nat, m: nat, o: nat)
    requires q % BSIZE + m <= BSIZE
    ensures q <= o < q + m <==> o / BSIZE == q / BSIZE && q % BSIZE <= o % BSIZE < q % BSIZE + m
    ensures o / BSIZE == q / BSIZE ==> o % BSIZE - q % BSIZE == o - q
  {
  }

  lemma {:induction false} SplicedAt(b: Block, x: nat, src: seq<Byte>, tot: nat, m: nat, y: nat)
    requires x + m <= BSIZE && tot + m <= |src| && y < BSIZE
    ensures Spliced(b, x, src, tot, m)[y] == if x <= y < x + m then src[tot + y - x] else b[y]
  {
  }

  lemma {:induction false} OwnByte(sb: Super, disk: Disk, ino: seq<Node>, i: nat, o: nat, a: nat)
    requires Shaped(sb, disk, ino) && i < |ino| && o < MAXBYTES
    requires a == Ref(sb, disk, ino, Pos(i, DataPos(o / BSIZE))) && 0 < a < sb.size
    ensures ByteAt(sb, disk, ino, i, o) == disk[a][o % BSIZE]
  {
  }

  lemma {:induction false} SameRefsGrows(sb: Super, d: Disk, n: seq<Node>, disk: Disk, ino: seq<Node>, disk': Disk, i: nat)
    requires Shaped(sb, d, n) && Shaped(sb, disk, ino) && Shaped(sb, disk', ino)
    requires Grows(sb, d, n, disk, ino, i) && SameRefs(sb, disk, ino, disk', ino)
    ensures Grows(sb, d, n, disk', ino, i)
  {
    hide Ref, Shaped;
  }

  lemma {:induction false} WrittenOn(sb: Super, d: Disk, n: seq<Node>, disk: Disk, ino: seq<Node>, disk': Disk, ino': seq<Node>,
                  i: nat, off: nat, src: seq<Byte>, tot: nat)
    requires Shaped(sb, d, n) && Shaped(sb, disk, ino) && Shaped(sb, disk', ino') && |n| == |ino| == |ino'| && tot <= |src|
    requires Written(sb, d, n, disk, ino, i, off, src, tot) && SameBytes(sb, disk, ino, disk', ino')
    ensures Written(sb, d, n, disk', ino', i, off, src, tot)
  {
    hide ByteAt, Shaped;
  }

  /** The blocks of file i that hold bytes from..to are mapped. */
  ghost predicate Touched(sb: Super, disk: Disk, ino: seq<Node>, i: nat, from: nat, to: nat)
    requires Shaped(sb, disk, ino) && i < |ino|
  {
    from < to ==> forall bn :: from / BSIZE <= bn < MAXFILE && bn * BSIZE < to ==> Ref(sb, disk, ino, Pos(i, DataPos(bn))) != 0
  }

  lemma {:induction false} TouchedOn(sb: Super, disk: Disk, ino: seq<Node>, disk': Disk, ino': seq<Node>, i: nat, from: nat,
                                     q: nat, m: nat)
    requires Shaped(sb, disk, ino) && Shaped(sb, disk', ino') && Grows(sb, disk, ino, disk', ino', i)
    requires i < |ino| && from <= q && Touched(sb, disk, ino, i, from, q) && q / BSIZE < MAXFILE && q % BSIZE + m <= BSIZE
    requires Ref(sb, disk', ino', Pos(i, DataPos(q / BSIZE))) != 0
    ensures Touched(sb, disk', ino', i, from, q + m)
  {
    hide Ref, Shaped;
    forall bn | from / BSIZE <= bn < MAXFILE && bn * BSIZE < q + m
      ensures Ref(sb, disk', ino', Pos(i, DataPos(bn))) != 0
    {
      if bn != q / BSIZE {
        assert bn * BSIZE < q;
        assert ValidPos(ino, Pos(i, DataPos(bn)));
      }
    }
  }

  function PutSize(ino: seq<Node>, i: nat, z: Word): seq<Node>
    requires i < |ino|
  { ino[i := ino[i].(size := z)] }

  /** Sizes are not part of the block structure. */
  lemma {:induction false} PutSizeKeeps(sb: Super, disk: Disk, ino: seq<Node>, owner: map<nat, Pos>, i: nat, z: Word)
    requires Own(sb, disk, ino, owner, {}, {}) && i < |ino|
    ensures Own(sb, disk, PutSize(ino, i, z), owner, {}, {})
    ensures SameRefs(sb, disk, ino, disk, PutSize(ino, i, z)) && SameBytes(sb, disk, ino, disk, PutSize(ino, i, z))
  {
    var ino' := PutSize(ino, i, z);
    assert forall p :: ValidPos(ino, p) ==> Ref(sb, disk, ino', p) == Ref(sb, disk, ino, p);
    hide Ref, Used;
  }

  /** The file with src put at off. */
  function Patch(c: seq<Byte>, off: nat, src: seq<Byte>): seq<Byte>
    requires off <= |c|
  {
    c[..off] + src + if off + |src| < |c| then c[off + |src|..] else []
  }

  /** Byte by byte, a written file is the patched flat array, and the other files are what they were. */
  lemma {:induction false} WrittenContent(sb: Super, d: Disk, n: seq<Node>, disk: Disk, ino: seq<Node>, i: nat, off: nat,
                                          src: seq<Byte>, j: nat)
    requires Shaped(sb, d, n) && Shaped(sb, disk, ino) && |ino| == |n| && i < |n| && j < |n|
    requires Written(sb, d, n, disk, ino, i, off, src, |src|) && off <= n[i].size
    requires n[j].size <= MAXBYTES && off + |src| <= MAXBYTES
    requires ino[j].size == if j == i && off + |src| > n[i].size then off + |src| else n[j].size
    ensures Content(sb, disk, ino, j) ==
            if j == i then Patch(Content(sb, d, n, i), off, src) else Content(sb, d, n, j)
  {
    hide Ref, ByteAt, Shaped;
    var c := Content(sb, disk, ino, j);
    var c' := if j == i then Patch(Content(sb, d, n, i), off, src) else Content(sb, d, n, j);
    assert |c| == |c'|;
    forall o | 0 <= o < |c| ensures c[o] == c'[o] {
      assert c[o] == ByteAt(sb, disk, ino, j, o);
    }
  }

  /** File i, and no other, was patched with src at off. */
  ghost predicate Patched(sb: Super, d: Disk, n: seq<Node>, disk: Disk, ino: seq<Node>, i: nat, off: nat, src: seq<Byte>) {
    && Shaped(sb, d, n) && Shaped(sb, disk, ino) && |ino| == |n| && i < |n| && off <= n[i].size && off + |src| <= MAXBYTES
    && (forall j :: 0 <= j < |n| ==> n[j].size <= MAXBYTES && ino[j].size <= MAXBYTES)
    && ino[i] == n[i].(addrs := ino[i].addrs, size := Max(n[i].size, off + |src|))
    && Content(sb, disk, ino, i) == Patch(Content(sb, d, n, i), off, src)
    && (forall j :: 0 <= j < |n| && j != i ==> ino[j] == n[j] && Content(sb, disk, ino, j) == Content(sb, d, n, j))
    && (forall j :: 0 <= j < |n| && Mapped(sb, d, n, j) ==> Mapped(sb, disk, ino, j))
  }

  function Max(a: nat, b: nat): nat { if a < b then b else a }

  /** When writei's loop is over and the size is brought up to date, file i is patched. */
  lemma {:induction false} WriteDone(sb: Super, d: Disk, n: seq<Node>, disk: Disk, ino: seq<Node>, owner: map<nat, Pos>, i: nat,
                                     off: nat, src: seq<Byte>)
    requires Shaped(sb, d, n) && Own(sb, disk, ino, owner, {}, {}) && |ino| == |n| && i < |n|
    requires Grows(sb, d, n, disk, ino, i) && Written(sb, d, n, disk, ino, i, off, src, |src|)
    requires Touched(sb, disk, ino, i, off, off + |src|)
    requires off <= n[i].size && off + |src| <= MAXBYTES && forall j :: 0 <= j < |n| ==> n[j].size <= MAXBYTES
    ensures var ino' := PutSize(ino, i, Max(n[i].size, off + |src|));
            Own(sb, disk, ino', owner, {}, {}) && Patched(sb, d, n, disk, ino', i, off, src)
  {
    hide Own, Ref, ByteAt, Content, Shaped, Mapped, Written, Touched, Patch;
    OwnFacts(sb, disk, ino, owner, {}, {});
    var z: Word := Max(n[i].size, off + |src|);
    var ino' := PutSize(ino, i, z);
    PutSizeKeeps(sb, disk, ino, owner, i, z);
    OwnFacts(sb, disk, ino', owner, {}, {});
    WrittenOn(sb, d, n, disk, ino, disk, ino', i, off, src, |src|);
    forall j | 0 <= j < |n|
      ensures Content(sb, disk, ino', j) == if j == i then Patch(Content(sb, d, n, i), off, src) else Content(sb, d, n, j)
    {
      WrittenContent(sb, d, n, disk, ino', i, off, src, j);
    }
    forall j | 0 <= j < |n| && Mapped(sb, d, n, j) ensures Mapped(sb, disk, ino', j) {
      PatchMapped(sb, d, n, disk, ino, ino', i, off, off + |src|, j);
    }
  }

  lemma {:induction false} PatchMapped(sb: Super, d: Disk, n: seq<Node>, disk: Disk, ino: seq<Node>, ino': seq<Node>, i: nat,
                                       off: nat, to: nat, j: nat)
    requires Shaped(sb, d, n) && Shaped(sb, disk, ino) && Shaped(sb, disk, ino') && |ino'| == |ino| == |n| && i < |n| && j < |n|
    requires Grows(sb, d, n, disk, ino, i) && SameRefs(sb, disk, ino, disk, ino') && Touched(sb, disk, ino, i, off, to)
    requires off <= n[i].size && to <= MAXBYTES && ino' == PutSize(ino, i, Max(n[i].size, to)) && Mapped(sb, d, n, j)
    ensures Mapped(sb, disk, ino', j)
  {
    hide Ref, Shaped;
    forall bn | 0 <= bn < MAXFILE && bn * BSIZE < ino'[j].size ensures Ref(sb, disk, ino', Pos(j, DataPos(bn))) != 0 {
      var p := Pos(j, DataPos(bn));
      assert ValidPos(n, p) && ValidPos(ino, p);
      if bn * BSIZE >= n[j].size {
        assert j == i && off / BSIZE <= bn;
      }
    }
  }

  /** The address field that leads to block bn. */
  function AddrOf(bn: nat): nat { if bn < NDIRECT then bn else NDIRECT }

  /** Bytes off to q of file i were read since (d, n), and their blocks are there now. */
  ghost predicate ReadTo(sb: Super, d: Disk, n: seq<Node>, disk: Disk, ino: seq<Node>, i: nat, off: nat, q: nat) {
    Stepped(sb, d, n, disk, ino, i) && i < |n| && Touched(sb, disk, ino, i, off, q)
  }

  lemma {:induction false} ReadFacts(sb: Super, d: Disk, n: seq<Node>, disk: Disk, ino: seq<Node>, i: nat, off: nat, q: nat)
    requires ReadTo(sb, d, n, disk, ino, i, off, q) && n[i].size <= MAXBYTES
    ensures Stepped(sb, d, n, disk, ino, i) && |ino| == |n| && Shaped(sb, d, n) && Shaped(sb, disk, ino)
    ensures ino[i].size == n[i].size && Content(sb, disk, ino, i) == Content(sb, d, n, i)
    ensures Addressed(ino[i], off, q) && (ino[i] == n[i] || Behind(n[i], ino[i]))
  {
    SteppedContent(sb, d, n, disk, ino, i);
    TouchedAddressed(sb, disk, ino, i, off, q);
    GrowsBehind(sb, d, n, disk, ino, i);
  }

  /** One more part of the file, at q. */
  lemma {:induction false} ReadOn(sb: Super, d0: Disk, n0: seq<Node>, d1: Disk, n1: seq<Node>, d2: Disk, n2: seq<Node>,
                                  i: nat, off: nat, q: nat, m: nat)
    requires ReadTo(sb, d0, n0, d1, n1, i, off, q) && Stepped(sb, d1, n1, d2, n2, i)
    requires off <= q && q / BSIZE < MAXFILE && q % BSIZE + m <= BSIZE
    requires Ref(sb, d2, n2, Pos(i, DataPos(q / BSIZE))) != 0
    ensures ReadTo(sb, d0, n0, d2, n2, i, off, q + m)
  {
    hide Ref, ByteAt, Grows, SameBytes, Shaped, Touched;
    SteppedOn(sb, d0, n0, d1, n1, d2, n2, i);
    TouchedOn(sb, d1, n1, d2, n2, i, off, q, m);
  }

  lemma {:induction false} SteppedOn(sb: Super, d0: Disk, n0: seq<Node>, d1: Disk, n1: seq<Node>, d2: Disk, n2: seq<Node>, i: nat)
    requires Stepped(sb, d0, n0, d1, n1, i) && Stepped(sb, d1, n1, d2, n2, i)
    ensures Stepped(sb, d0, n0, d2, n2, i)
  {
    hide Ref, ByteAt, Grows, SameBytes, Shaped;
    GrowsOn(sb, d0, n0, d1, n1, d2, n2, i);
    SameBytesOn(sb, d0, n0, d1, n1, d2, n2);
  }

  /** Every address field that leads to bytes from..to is filled. */
  ghost predicate Addressed(n: Node, from: nat, to: nat)
    requires |n.addrs| == 13
  {
    from < to ==> forall bn :: from / BSIZE <= bn < MAXFILE && bn * BSIZE < to ==> n.addrs[AddrOf(bn)] != 0
  }

  lemma {:induction false} TouchedAddressed(sb: Super, disk: Disk, ino: seq<Node>, i: nat, from: nat, to: nat)
    requires Shaped(sb, disk, ino) && i < |ino| && Touched(sb, disk, ino, i, from, to)
    ensures Addressed(ino[i], from, to)
  {
    if from < to {
      forall bn | from / BSIZE <= bn < MAXFILE && bn * BSIZE < to ensures ino[i].addrs[AddrOf(bn)] != 0 {
        assert Ref(sb, disk, ino, Pos(i, DataPos(bn))) != 0;
      }
    }
  }

  lemma {:induction false} MappedAddressed(sb: Super, disk: Disk, ino: seq<Node>, i: nat, from: nat, to: nat)
    requires Shaped(sb, disk, ino) && i < |ino| && Mapped(sb, disk, ino, i) && to <= ino[i].size
    ensures Addressed(ino[i], from, to)
  {
    forall bn | from / BSIZE <= bn < MAXFILE && bn * BSIZE < to ensures ino[i].addrs[AddrOf(bn)] != 0 {
      assert Ref(sb, disk, ino, Pos(i, DataPos(bn))) != 0;
    }
  }

  // ------------------------------------------------------------- truncation

  /** owner is owner0 after some of file i's positions lost their blocks. */
  ghost predicate Trimmed(owner0: map<nat, Pos>, owner: map<nat, Pos>, i: nat) {
    && (forall b :: b in owner ==> b in owner0 && owner[b] == owner0[b])
    && (forall b :: b in owner0 && owner0[b].i != i ==> b in owner)
  }

  /** File i was truncated: its blocks, and only they, are free again, and no other file noticed. */
  ghost predicate Truncated(sb: Super, d: Disk, n: seq<Node>, owner: map<nat, Pos>, disk: Disk, ino: seq<Node>, i: nat) {
    && SuperOk(sb) && Shaped(sb, d, n) && Shaped(sb, disk, ino) && |ino| == |n| && i < |n|
    && ino[i] == n[i].(size := 0, addrs := ino[i].addrs)
    && (forall k :: 0 <= k < 13 ==> ino[i].addrs[k] == 0)
    && (forall b :: 0 <= b < sb.size ==> (Used(sb, disk, b) <==> Used(sb, d, b) && !(b in owner && owner[b].i == i)))
    && (forall j :: 0 <= j < |n| && j != i ==> ino[j] == n[j])
    && (forall p :: ValidPos(n, p) && p.i != i ==> Ref(sb, disk, ino, p) == Ref(sb, d, n, p))
    && (forall j, o :: 0 <= j < |n| && j != i && 0 <= o < MAXBYTES ==> ByteAt(sb, disk, ino, j, o) == ByteAt(sb, d, n, j, o))
  }

  /** What itrunc's steps add up to. */
  lemma {:induction false} TruncDone(sb: Super, d: Disk, n: seq<Node>, owner0: map<nat, Pos>, disk: Disk, ino: seq<Node>,
                                     owner: map<nat, Pos>, i: nat)
    requires Own(sb, d, n, owner0, {}, {}) && Own(sb, disk, ino, owner, {}, {}) && |ino| == |n| && i < |n|
    requires Trimmed(owner0, owner, i) && forall c :: sb.nmeta <= c < sb.size ==> disk[c] == d[c]
    requires forall j :: 0 <= j < |n| && j != i ==> ino[j] == n[j]
    requires ino[i] == n[i].(size := 0, addrs := ino[i].addrs) && forall k :: 0 <= k < 13 ==> ino[i].addrs[k] == 0
    ensures Truncated(sb, d, n, owner0, disk, ino, i)
  {
    hide Used, ByteAt;
    forall p | ValidPos(n, p) && p.i != i ensures Ref(sb, disk, ino, p) == Ref(sb, d, n, p) {
      var x := Pos(p.i, NDIRECT);
      assert ValidPos(n, x);
      assert Ref(sb, d, n, x) == 0 || Ref(sb, d, n, x) in owner0;
    }
    forall j, o | 0 <= j < |n| && j != i && 0 <= o < MAXBYTES ensures ByteAt(sb, disk, ino, j, o) == ByteAt(sb, d, n, j, o) {
      SameByte(sb, d, n, owner0, disk, ino, j, o);
    }
    forall b | b in owner ensures owner[b].i != i {
      assert Ref(sb, disk, ino, owner[b]) == b && b > 0;
    }
  }

  lemma {:induction false} SameByte(sb: Super, d: Disk, n: seq<Node>, owner: map<nat, Pos>, disk: Disk, ino: seq<Node>, j: nat,
                                    o: nat)
    requires Own(sb, d, n, owner, {}, {}) && Shaped(sb, disk, ino) && |ino| == |n| && j < |n| && o < MAXBYTES
    requires forall c :: sb.nmeta <= c < sb.size ==> disk[c] == d[c]
    requires var p := Pos(j, DataPos(o / BSIZE)); Ref(sb, disk, ino, p) == Ref(sb, d, n, p)
    ensures ByteAt(sb, disk, ino, j, o) == ByteAt(sb, d, n, j, o)
  {
    var p := Pos(j, DataPos(o / BSIZE));
    assert ValidPos(n, p);
    assert Ref(sb, d, n, p) == 0 || Ref(sb, d, n, p) in owner;
  }

  /** bfree of ip->addrs[k], then ip->addrs[k] = 0, for a direct address. */
  lemma {:induction false} DropDirect(sb: Super, disk: Disk, ino: seq<Node>, owner: map<nat, Pos>, i: nat, k: nat)
    requires Own(sb, disk, ino, owner, {}, {}) && i < |ino| && k < NDIRECT && ino[i].addrs[k] != 0
    ensures var b := ino[i].addrs[k];
            && b in owner && b < sb.size && owner[b].i == i && Used(sb, disk, b)
            && Own(sb, Freed(sb, disk, b), PutAddr(ino, i, k, 0), owner - {b}, {}, {})
            && (forall c :: sb.nmeta <= c < sb.size ==> Freed(sb, disk, b)[c] == disk[c])
  {
    var b, q := ino[i].addrs[k], Pos(i, k);
    OwnerOf(sb, disk, ino, owner, {}, q);
    hide Own, Ref, Used, Freed;
    OwnFacts(sb, disk, ino, owner, {}, {});
    FreeKeeps(sb, disk, ino, owner, {}, b);
    FreedRefs(sb, disk, ino, owner, {}, b);
    assert {} + {q} == {q};
    var d, ino' := Freed(sb, disk, b), PutAddr(ino, i, k, 0);
    ClearAddrRefs(sb, d, ino, i, k);
    DropKeeps(sb, d, ino, owner - {b}, {q}, ino');
  }

  lemma {:induction false} OwnerOf(sb: Super, disk: Disk, ino: seq<Node>, owner: map<nat, Pos>, gone: set<Pos>, q: Pos)
    requires Own(sb, disk, ino, owner, {}, gone) && ValidPos(ino, q) && q !in gone && Ref(sb, disk, ino, q) != 0
    ensures Ref(sb, disk, ino, q) in owner && owner[Ref(sb, disk, ino, q)] == q
    ensures sb.nmeta <= Ref(sb, disk, ino, q) < sb.size
  {
  }

  /** bfree of an entry of the indirect block; the entry itself is left dangling. */
  lemma {:induction false} DropEntry(sb: Super, disk: Disk, ino: seq<Node>, owner: map<nat, Pos>, gone: set<Pos>, q: Pos)
    requires Own(sb, disk, ino, owner, {}, gone) && KeepsIndirect(gone) && ValidPos(ino, q) && q.k > NDIRECT && q !in gone
    requires Ref(sb, disk, ino, q) != 0
    ensures var b := Ref(sb, disk, ino, q);
            && b in owner && b < sb.size && owner[b] == q && Used(sb, disk, b)
            && Own(sb, Freed(sb, disk, b), ino, owner - {b}, {}, gone + {q})
            && (forall c :: sb.nmeta <= c < sb.size ==> Freed(sb, disk, b)[c] == disk[c])
  {
    hide Own, Ref, Used, Freed;
    OwnFacts(sb, disk, ino, owner, {}, gone);
    OwnerOf(sb, disk, ino, owner, gone, q);
    FreeKeeps(sb, disk, ino, owner, gone, Ref(sb, disk, ino, q));
    FreedRefs(sb, disk, ino, owner, gone, Ref(sb, disk, ino, q));
  }

  /** bfree of the indirect block, then ip->addrs[NDIRECT] = 0: the dangling entries go with it. */
  lemma {:induction false} DropIndirect(sb: Super, disk: Disk, ino: seq<Node>, owner: map<nat, Pos>, gone: set<Pos>, i: nat)
    requires Own(sb, disk, ino, owner, {}, gone) && i < |ino| && ino[i].addrs[NDIRECT] != 0
    requires forall p :: p in gone ==> p.i == i && NDIRECT < p.k < POSITIONS
    requires forall b :: b in owner && owner[b].i == i ==> owner[b].k <= NDIRECT
    ensures var b := ino[i].addrs[NDIRECT];
            && b in owner && b < sb.size && owner[b].i == i && Used(sb, disk, b)
            && Own(sb, Freed(sb, disk, b), PutAddr(ino, i, NDIRECT, 0), owner - {b}, {}, {})
            && (forall c :: sb.nmeta <= c < sb.size ==> Freed(sb, disk, b)[c] == disk[c])
  {
    var b, q := ino[i].addrs[NDIRECT], Pos(i, NDIRECT);
    assert Ref(sb, disk, ino, q) == b;
    OwnerOf(sb, disk, ino, owner, gone, q);
    hide Own, Ref, Used, Freed;
    OwnFacts(sb, disk, ino, owner, {}, gone);
    FreeKeeps(sb, disk, ino, owner, gone, b);
    FreedRefs(sb, disk, ino, owner, gone, b);
    var d, ino' := Freed(sb, disk, b), PutAddr(ino, i, NDIRECT, 0);
    ClearAddrRefs(sb, d, ino, i, NDIRECT);
    DropAll(sb, d, ino, owner - {b}, gone + {q}, ino', i);
  }

  /** No block of file i's entries is left, so all entries may be forgotten. */
  lemma {:induction false} DropAll(sb: Super, disk: Disk, ino: seq<Node>, owner: map<nat, Pos>, gone: set<Pos>, ino': seq<Node>,
                                   i: nat)
    requires Own(sb, disk, ino, owner, {}, gone) && |ino'| == |ino| && Shaped(sb, disk, ino')
    requires forall p :: p in gone ==> p.i == i && NDIRECT <= p.k < POSITIONS
    requires i < |ino| && forall b :: b in owner && owner[b].i == i ==> owner[b].k < NDIRECT
    requires forall p :: ValidPos(ino, p) ==>
      Ref(sb, disk, ino', p) == if p.i == i && p.k >= NDIRECT then 0 else Ref(sb, disk, ino, p)
    ensures Own(sb, disk, ino', owner, {}, {})
  {
    hide Ref, Used;
  }

  lemma {:induction false} GrowsNode(sb: Super, disk: Disk, ino: seq<Node>, disk': Disk, ino': seq<Node>, i: nat)
    requires Shaped(sb, disk, ino) && Shaped(sb, disk', ino') && i < |ino| && Grows(sb, disk, ino, disk', ino', i)
    ensures |ino'| == |ino| && ino'[i].size == ino[i].size
    ensures PutSize(ino', i, ino[i].size) == ino'
  {
    hide Ref;
  }

  /** Inode a is inode b before some of its addresses were filled in. */
  ghost predicate Behind(a: Node, b: Node) {
    && |a.addrs| == |b.addrs| == 13 && a == b.(addrs := a.addrs) && a != b
    && forall k :: 0 <= k < 13 && a.addrs[k] != 0 ==> b.addrs[k] == a.addrs[k]
  }

  lemma {:induction false} GrowsBehind(sb: Super, disk: Disk, ino: seq<Node>, disk': Disk, ino': seq<Node>, i: nat)
    requires Shaped(sb, disk, ino) && Shaped(sb, disk', ino') && i < |ino| && Grows(sb, disk, ino, disk', ino', i)
    ensures ino'[i] == ino[i] || Behind(ino[i], ino'[i])
  {
    forall k | 0 <= k < 13 && ino[i].addrs[k] != 0 ensures ino'[i].addrs[k] == ino[i].addrs[k] {
      assert ValidPos(ino, Pos(i, k)) && Ref(sb, disk, ino, Pos(i, k)) == ino[i].addrs[k];
      assert Ref(sb, disk', ino', Pos(i, k)) == ino'[i].addrs[k];
    }
  }

  /** With an inode that is behind, a block in use has no owner, however ownership is told. */
  lemma {:induction false} BehindLoses(sb: Super, disk: Disk, ino: seq<Node>, owner: map<nat, Pos>, i: nat, node: Node,
                                       owner': map<nat, Pos>)
    requires Own(sb, disk, ino, owner, {}, {}) && i < |ino| && Behind(node, ino[i])
    ensures !Own(sb, disk, ino[i := node], owner', {}, {})
  {
    var k :| 0 <= k < 13 && node.addrs[k] != ino[i].addrs[k];
    NobodyRefers(sb, disk, ino, owner, i, k, node);
    hide Ref, Behind;
    assert ino[i].addrs[k] in owner' ==> ValidPos(ino, owner'[ino[i].addrs[k]]) || !Own(sb, disk, ino[i := node], owner', {}, {});
  }

  lemma {:induction false} NobodyRefers(sb: Super, disk: Disk, ino: seq<Node>, owner: map<nat, Pos>, i: nat, k: nat, node: Node)
    requires Own(sb, disk, ino, owner, {}, {}) && i < |ino| && Behind(node, ino[i]) && k < 13 && node.addrs[k] != ino[i].addrs[k]
    ensures var b, ino' := ino[i].addrs[k], ino[i := node];
            && Shaped(sb, disk, ino') && sb.nmeta <= b < sb.size && Used(sb, disk, b)
            && forall p :: ValidPos(ino', p) ==> Ref(sb, disk, ino', p) != b
  {
    var b, ino', q := ino[i].addrs[k], ino[i := node], Pos(i, k);
    assert Ref(sb, disk, ino, q) == b && owner[b] == q;
    forall p | ValidPos(ino', p) ensures Ref(sb, disk, ino', p) != b {
      assert Ref(sb, disk, ino', p) == 0 || Ref(sb, disk, ino', p) == Ref(sb, disk, ino, p);
      assert Ref(sb, disk, ino, p) == b ==> p == q;
      assert Ref(sb, disk, ino', q) == 0;
    }
  }

  /** Truncating a file leaves every other file's blocks mapped. */
  lemma {:induction false} TruncMapped(sb: Super, d: Disk, n: seq<Node>, owner: map<nat, Pos>, disk: Disk, ino: seq<Node>,
                                       i: nat, j: nat)
    requires Truncated(sb, d, n, owner, disk, ino, i) && j < |n| && Mapped(sb, d, n, j)
    ensures Mapped(sb, disk, ino, j)
  {
    hide Ref, Used, ByteAt;
    forall m | 0 <= m < MAXFILE && m * BSIZE < ino[j].size ensures Ref(sb, disk, ino, Pos(j, DataPos(m))) != 0 {
      assert ValidPos(n, Pos(j, DataPos(m)));
    }
  }

  lemma {:induction false} WroteNothing(sb: Super, disk: Disk, ino: seq<Node>, i: nat, off: nat, src: seq<Byte>)
    requires Shaped(sb, disk, ino) && i < |ino|
    ensures Grows(sb, disk, ino, disk, ino, i) && Written(sb, disk, ino, disk, ino, i, off, src, 0)
    ensures Touched(sb, disk, ino, i, off, off)
  {
    hide Ref, ByteAt;
  }

  lemma {:induction false} RefOwned(sb: Super, disk: Disk, ino: seq<Node>, owner: map<nat, Pos>, p: Pos)
    requires Own(sb, disk, ino, owner, {}, {}) && ValidPos(ino, p)
    ensures Ref(sb, disk, ino, p) != 0 ==> sb.nmeta <= Ref(sb, disk, ino, p) < sb.size
  {
  }

  /** min(n - tot, BSIZE - off % BSIZE) */
  function PartSize(rest: nat, q: nat): (m: nat)
    requires rest > 0
    ensures 0 < m <= rest && q % BSIZE + m <= BSIZE
  { Min(rest, BSIZE - q % BSIZE) }

  function Min(a: nat, b: nat): nat { if a < b then a else b }
}
