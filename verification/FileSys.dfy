/** Block allocation, block maps and byte-level file access of fs.c. */
module FileSys {
  import opened Blocks
  import opened DiskWrites
  import opened Bitmap
  import opened FsState
  import opened FsSteps

  /** A block number, or one of the panics. */
  datatype Found = Addr(b: nat) | OutOfBlocks | OutOfRange

  datatype ReadResult = Bytes(data: seq<Byte>) | ReadFailed | ReadPanic

  datatype WriteResult = Wrote(n: nat) | WriteFailed | WritePanic

  const WORD := 0x1_0000_0000

  class FileSystem {
    const sb: Super
    var disk: Disk                  // data blocks, as read and logged through the buffer cache
    var ino: seq<Node>              // inodes in memory
    var dino: seq<Node>             // inodes on disk
    ghost var owner: map<nat, Pos>  // the position that owns each block

    ghost predicate Valid()
      reads this
    {
      && Own(sb, disk, ino, owner, {}, {})
      && |dino| == |ino|
      && forall i :: 0 <= i < |ino| ==> ino[i].size <= MAXBYTES
    }

    /** No file has a hole below its size, and the disk has every inode as memory has it: whatever
        the kernel drops from its cache, it reads back. */
    ghost predicate Settled()
      reads this
    { Valid() && dino == ino && forall i :: 0 <= i < |ino| ==> Mapped(sb, disk, ino, i) }

    /** Mount an image whose blocks are accounted for, such as the one mkfs builds. */
    constructor (sb: Super, disk: Disk, ino: seq<Node>, ghost owner: map<nat, Pos>)
      requires Own(sb, disk, ino, owner, {}, {}) && forall i :: 0 <= i < |ino| ==> ino[i].size <= MAXBYTES
      ensures Valid() && this.sb == sb && this.disk == disk && this.ino == ino && dino == ino && this.owner == owner
    {
      this.sb, this.disk, this.ino, this.dino, this.owner := sb, disk, ino, ino, owner;
    }

    /** bzero */
    method Bzero(b: nat)
      requires b < |disk|
      modifies `disk
      ensures disk == old(disk)[b := ZeroBlock()]
    {
      disk := disk[b := ZeroBlock()];
    }

    /** balloc: the lowest free block, marked in use and zeroed. */
    method Balloc() returns (r: Found)
      requires SuperOk(sb) && |disk| == sb.size && forall b :: 0 <= b < sb.nmeta ==> Used(sb, disk, b)
      modifies `disk
      ensures r.OutOfBlocks? ==> disk == old(disk) && forall b :: 0 <= b < sb.size ==> Used(sb, disk, b)
      ensures r.Addr? ==>
        && sb.nmeta <= r.b < sb.size && !Used(sb, old(disk), r.b)
        && (forall b :: 0 <= b < r.b ==> Used(sb, old(disk), b))
        && disk == Taken(sb, old(disk), r.b)
      ensures !r.OutOfRange?
    {
      hide Bit, SetBit;
      var b := 0;
      while b < sb.size
        invariant b % BPB == 0 && disk == old(disk)
        invariant forall c :: 0 <= c < b && c < sb.size ==> Used(sb, disk, c)
      {
        var n := BBlock(sb, b);
        BitmapBlock(sb, b);
        var bp := disk[n];
        var bi := 0;
        while bi < BPB && b + bi < sb.size
          invariant 0 <= bi <= BPB && b + bi <= sb.size && disk == old(disk)
          invariant forall c :: 0 <= c < b + bi ==> Used(sb, disk, c)
        {
          assert (b + bi) / BPB == b / BPB && (b + bi) % BPB == bi;
          if !Bit(bp, bi) {
            assert !Used(sb, disk, b + bi);
            disk := disk[n := SetBit(bp, bi)];
            Bzero(b + bi);
            return Addr(b + bi);
          }
          assert Used(sb, disk, b + bi);
          bi := bi + 1;
        }
        b := b + BPB;
      }
      r := OutOfBlocks;
    }

    /** bfree; false is the panic "freeing free block". */
    method Bfree(b: nat) returns (ok: bool)
      requires SuperOk(sb) && |disk| == sb.size && b < sb.size
      modifies `disk
      ensures ok <==> Used(sb, old(disk), b)
      ensures disk == if ok then Freed(sb, old(disk), b) else old(disk)
    {
      BitmapBlock(sb, b);
      var bp := disk[BBlock(sb, b)];
      if !Bit(bp, b % BPB) {
        return false;
      }
      disk := disk[BBlock(sb, b) := ClearBit(bp, b % BPB)];
      return true;
    }

    /** iupdate */
    method Iupdate(i: nat)
      requires i < |ino| && |dino| == |ino|
      modifies `dino
      ensures dino == old(dino)[i := ino[i]]
    {
      dino := dino[i := ino[i]];
    }

    /** ilock of an inode that is no longer in memory. In a settled file system nothing changes; if
        the inode on disk lacks an address, its block has no owner from now on. */
    method Reload(i: nat)
      requires i < |ino| == |dino|
      modifies `ino
      ensures ino == old(ino)[i := dino[i]]
      ensures old(Settled()) ==> Settled() && ino == old(ino)
      ensures old(Valid()) && Behind(dino[i], old(ino)[i]) ==> forall o :: !Own(sb, disk, ino, o, {}, {})
    {
      hide Own, Mapped, Behind;
      ino := ino[i := dino[i]];
      assert old(Settled()) ==> ino == old(ino);
      if old(Valid()) && Behind(dino[i], old(ino)[i]) {
        forall o ensures !Own(sb, disk, ino, o, {}, {}) {
          BehindLoses(sb, disk, old(ino), owner, i, dino[i], o);
        }
      }
    }

    /** balloc for ip->addrs[k]. */
    method FillAddr(i: nat, k: nat) returns (r: Found)
      requires Valid() && i < |ino| && k <= NDIRECT && ino[i].addrs[k] == 0
      modifies `disk, `ino, `owner
      ensures Valid() && Step(i, old(disk), old(ino))
      ensures r.OutOfBlocks? ==> disk == old(disk) && ino == old(ino) && AllUsed()
      ensures r.Addr? ==> r.b != 0 && ino[i].addrs[k] == r.b && Ref(sb, disk, ino, Pos(i, k)) == r.b && disk[r.b] == ZeroBlock()
      ensures !r.OutOfRange?
    {
      hide Own, Used, Ref, Taken, Bit, ByteAt;
      OwnFacts(sb, disk, ino, owner, {}, {});
      MetaUsed(sb, disk, ino, owner);
      StepNone(i);
      r := Balloc();
      if r.Addr? {
        LinkAddrKeeps(sb, old(disk), ino, owner, i, k, r.b);
        ino := PutAddr(ino, i, k, r.b);
        owner := owner[r.b := Pos(i, k)];
        OwnFacts(sb, disk, ino, owner, {}, {});
      }
    }

    ghost predicate AllUsed()
      requires SuperOk(sb) && |disk| == sb.size
      reads this
    { forall b :: 0 <= b < sb.size ==> Used(sb, disk, b) }

    /** File i may have gained blocks since (d, n); no file changed a byte. */
    ghost predicate Step(i: nat, d: Disk, n: seq<Node>)
      reads this
    { Stepped(sb, d, n, disk, ino, i) }

    lemma {:induction false} StepNone(i: nat)
      requires Shaped(sb, disk, ino)
      ensures Step(i, disk, ino)
    {
      hide Ref, ByteAt, Shaped;
    }

    /** Entry j of the indirect block, filled by balloc if it is 0. */
    method FillEntry(i: nat, j: nat) returns (r: Found)
      requires Valid() && i < |ino| && j < NINDIRECT && ino[i].addrs[NDIRECT] != 0
      modifies `disk, `owner
      ensures Valid() && Step(i, old(disk), ino)
      ensures r.OutOfBlocks? ==> AllUsed()
      ensures old(Ref(sb, disk, ino, Pos(i, 13 + j))) != 0 ==>
        r == Addr(old(Ref(sb, disk, ino, Pos(i, 13 + j)))) && disk == old(disk)
      ensures r.Addr? ==> r.b != 0 && r.b == Ref(sb, disk, ino, Pos(i, 13 + j))
      ensures !r.OutOfRange?
    {
      hide Own, Used, Bit, ByteAt, GetWord, SetWord, Taken;
      OwnFacts(sb, disk, ino, owner, {}, {});
      MetaUsed(sb, disk, ino, owner);
      StepNone(i);
      var addr := ino[i].addrs[NDIRECT];
      var a := disk[addr];
      if GetWord(a, j) != 0 {
        return Addr(GetWord(a, j));
      }
      r := Balloc();
      if r.Addr? {
        LinkEntryKeeps(sb, old(disk), ino, owner, i, j, r.b);
        disk := disk[addr := SetWord(a, j, r.b)];
        owner := owner[r.b := Pos(i, 13 + j)];
        OwnFacts(sb, disk, ino, owner, {}, {});
      }
    }

    /** bmap's second half: block NDIRECT + j, through the indirect block. */
    method BmapIndirect(i: nat, j: nat) returns (r: Found)
      requires Valid() && i < |ino| && j < NINDIRECT
      modifies `disk, `ino, `owner
      ensures Valid() && Step(i, old(disk), old(ino))
      ensures r.OutOfBlocks? ==> AllUsed()
      ensures old(Ref(sb, disk, ino, Pos(i, 13 + j))) != 0 ==>
        r == Addr(old(Ref(sb, disk, ino, Pos(i, 13 + j)))) && disk == old(disk) && ino == old(ino)
      ensures old(ino[i].addrs[NDIRECT]) != 0 ==> ino == old(ino)
      ensures r.Addr? ==> r.b != 0 && r.b == Ref(sb, disk, ino, Pos(i, 13 + j))
      ensures !r.OutOfRange?
    {
      hide Own, Used, Bit, ByteAt, GetWord, SetWord;
      OwnFacts(sb, disk, ino, owner, {}, {});
      StepNone(i);
      if ino[i].addrs[NDIRECT] == 0 {
        r := FillAddr(i, NDIRECT);
        if r.OutOfBlocks? {
          return;
        }
      }
      ghost var d, n := disk, ino;
      r := FillEntry(i, j);
      SteppedOn(sb, old(disk), old(ino), d, n, disk, ino, i);
    }

    /** bmap: the address of block bn of file i, allocating what is missing. */
    method Bmap(i: nat, bn: nat) returns (r: Found)
      requires Valid() && i < |ino|
      modifies `disk, `ino, `owner
      ensures Valid() && Step(i, old(disk), old(ino))
      ensures r.OutOfRange? <==> bn >= MAXFILE
      ensures r.OutOfBlocks? ==> AllUsed()
      ensures r.OutOfBlocks? && bn < NDIRECT ==> disk == old(disk)
      ensures bn < MAXFILE && old(Ref(sb, disk, ino, Pos(i, DataPos(bn)))) != 0 ==>
        r == Addr(old(Ref(sb, disk, ino, Pos(i, DataPos(bn))))) && disk == old(disk) && ino == old(ino)
      ensures old(ino[i].addrs[AddrOf(bn)]) != 0 ==> ino == old(ino)
      ensures r.Addr? ==> r.b != 0 && r.b == Ref(sb, disk, ino, Pos(i, DataPos(bn)))
    {
      hide Own, Used, Bit, ByteAt, GetWord, SetWord;
      OwnFacts(sb, disk, ino, owner, {}, {});
      StepNone(i);
      if bn < NDIRECT {
        if ino[i].addrs[bn] == 0 {
          r := FillAddr(i, bn);
          return;
        }
        return Addr(ino[i].addrs[bn]);
      }
      var j := bn - NDIRECT;
      if j < NINDIRECT {
        r := BmapIndirect(i, j);
        return;
      }
      r := OutOfRange;
    }
  
    /** One round of readi's loop: m bytes at q, all inside one block. */
    method ReadPart(i: nat, q: nat, m: nat) returns (r: ReadResult)
      requires Valid() && i < |ino| && 0 < m && q + m <= ino[i].size && q % BSIZE + m <= BSIZE
      modifies `disk, `ino, `owner
      ensures Valid() && Step(i, old(disk), old(ino))
      ensures r.Bytes? ==> r.data == old(Content(sb, disk, ino, i))[q..q + m]
      ensures old(MappedTo(sb, disk, ino, i, q + m)) ==> r.Bytes? && disk == old(disk) && ino == old(ino)
      ensures r.ReadPanic? ==> AllUsed() && (q / BSIZE < NDIRECT ==> disk == old(disk))
      ensures !r.ReadFailed?
      ensures r.Bytes? ==> Ref(sb, disk, ino, Pos(i, DataPos(q / BSIZE))) != 0
      ensures old(ino[i].addrs[AddrOf(q / BSIZE)]) != 0 ==> ino == old(ino)
    {
      hide Own, Used, ByteAt, Ref, Content, Grows, SameBytes;
      OwnFacts(sb, disk, ino, owner, {}, {});
      assert q / BSIZE * BSIZE <= q;
      var a := Bmap(i, q / BSIZE);
      if a.OutOfBlocks? {
        return ReadPanic;
      }
      RefOwned(sb, disk, ino, owner, Pos(i, DataPos(q / BSIZE)));
      SameContent(sb, old(disk), old(ino), disk, ino, i, i);
      ReadChunk(sb, disk, ino, i, q, m, a.b);
      r := Bytes(disk[a.b][q % BSIZE..q % BSIZE + m]);
    }

    /** readi's loop: len bytes from off on. */
    method ReadBytes(i: nat, off: nat, len: nat) returns (r: ReadResult)
      requires Valid() && i < |ino| && off + len <= ino[i].size
      modifies `disk, `ino, `owner
      ensures Valid() && Step(i, old(disk), old(ino)) && !r.ReadFailed?
      ensures r.Bytes? ==>
        r.data == old(Content(sb, disk, ino, i))[off..off + len] && ReadTo(sb, old(disk), old(ino), disk, ino, i, off, off + len)
      ensures old(MappedTo(sb, disk, ino, i, off + len)) ==> r.Bytes? && disk == old(disk) && ino == old(ino)
      ensures Addressed(old(ino[i]), off, off + len) ==> ino == old(ino)
      ensures r.ReadPanic? ==> AllUsed() && (off % BSIZE + len <= BSIZE && off / BSIZE < NDIRECT ==> disk == old(disk))
    {
      hide Own, Used, ByteAt, Ref, Content, Stepped, Mapped, MappedTo, PartSize, ReadTo, Addressed, Shaped;
      OwnFacts(sb, disk, ino, owner, {}, {});
      var tot: nat, data := 0, [];
      ghost var d, n, c := disk, ino, Content(sb, disk, ino, i);
      ReadNone(sb, disk, ino, i, off);
      while tot < len
        invariant tot <= len && Valid() && ReadTo(sb, d, n, disk, ino, i, off, off + tot) && data == c[off..off + tot]
        invariant old(MappedTo(sb, disk, ino, i, off + len)) ==> disk == d && ino == n
        invariant Addressed(n[i], off, off + len) ==> ino == n
        invariant tot == 0 ==> disk == d
        invariant off % BSIZE + len <= BSIZE ==> tot == 0 || tot == len
      {
        ghost var d1, n1 := disk, ino;
        ReadFacts(sb, d, n, disk, ino, i, off, off + tot);
        AddressedAt(n[i], off, off + tot, off + len);
        OnePart(off, len, tot);
        var m := PartSize(len - tot, off + tot);
        MappedLess(sb, d, n, i, off + len, off + tot + m);
        var part := ReadPart(i, off + tot, m);
        SteppedOn(sb, d, n, d1, n1, disk, ino, i);
        if part.ReadPanic? {
          return ReadPanic;
        }
        ReadOn(sb, d, n, d1, n1, disk, ino, i, off, off + tot, m);
        JoinSlices(c, data, part.data, off, off + tot, off + tot + m);
        data := data + part.data;
        tot := tot + m;
      }
      ReadFacts(sb, d, n, disk, ino, i, off, off + tot);
      r := Bytes(data);
    }

    /** readi on a file that is not a device. Like writei it may leave the disk inode behind. */
    method Readi(i: nat, off: Word, n: Word) returns (r: ReadResult)
      requires Valid() && i < |ino|
      modifies `disk, `ino, `owner
      ensures Valid() && Step(i, old(disk), old(ino))
      ensures r.ReadFailed? <==> off > old(ino[i].size) || off + n >= WORD
      ensures r.Bytes? ==>
        off <= old(ino[i].size) && r.data == old(Content(sb, disk, ino, i))[off..Min(off + n, old(ino[i].size))]
      ensures old(Mapped(sb, disk, ino, i) || MappedTo(sb, disk, ino, i, Min(off + n, ino[i].size))) ==>
        !r.ReadPanic? && disk == old(disk) && ino == old(ino)
      ensures r.ReadPanic? ==> AllUsed() && (off % BSIZE + n <= BSIZE && off / BSIZE < NDIRECT ==> disk == old(disk))
      ensures r.Bytes? && old(dino[i] == ino[i]) ==>
        && (dino[i] == ino[i] <==> Addressed(old(ino[i]), off, Min(off + n, old(ino[i].size))))
        && (dino[i] != ino[i] ==> Behind(dino[i], ino[i]))
      ensures old(Settled()) ==> Settled()
    {
      hide Own, Used, ByteAt, Ref, Content, Stepped, Mapped, MappedTo, Add, ReadTo, Addressed, Behind, Shaped;
      AddWraps(off, n);
      OwnFacts(sb, disk, ino, owner, {}, {});
      MappedLess(sb, disk, ino, i, Min(off + n, ino[i].size), 0);
      ReadNone(sb, disk, ino, i, off);
      if off > ino[i].size || Add(off, n) < off {
        return ReadFailed;
      }
      var len := if Add(off, n) > ino[i].size then ino[i].size - off else n;
      r := ReadBytes(i, off, len);
      if r.Bytes? {
        ReadFacts(sb, old(disk), old(ino), disk, ino, i, off, off + len);
      }
    }

    /** Where writei's loop stands: tot bytes of src are in place, nothing else changed since (d, n). */
    ghost predicate Progress(d: Disk, n: seq<Node>, i: nat, off: nat, src: seq<Byte>, tot: nat)
      reads this
    {
      && Shaped(sb, d, n) && Shaped(sb, disk, ino) && |ino| == |n| && i < |n| && tot <= |src|
      && Grows(sb, d, n, disk, ino, i) && Written(sb, d, n, disk, ino, i, off, src, tot)
      && Touched(sb, disk, ino, i, off, off + tot)
    }

    /** One round of writei's loop. */
    method WritePart(i: nat, off: nat, src: seq<Byte>, tot: nat, m: nat, ghost d: Disk, ghost n: seq<Node>) returns (ok: bool)
      requires Valid() && Progress(d, n, i, off, src, tot)
      requires 0 < m && tot + m <= |src| && off + tot + m <= MAXBYTES && (off + tot) % BSIZE + m <= BSIZE
      modifies `disk, `ino, `owner
      ensures Valid()
      ensures ok ==> Progress(d, n, i, off, src, tot + m)
      ensures !ok ==> AllUsed()
      ensures old(Ref(sb, disk, ino, Pos(i, DataPos((off + tot) / BSIZE)))) != 0 ==> ok
      ensures old(ino[i].addrs[AddrOf((off + tot) / BSIZE)]) != 0 ==> ino == old(ino)
    {
      hide Own, Used, ByteAt, Ref, Grows, SameBytes, Written, Touched, Spliced;
      OwnFacts(sb, disk, ino, owner, {}, {});
      var q := off + tot;
      var a := Bmap(i, q / BSIZE);
      ghost var d1, n1 := disk, ino;
      if a.OutOfBlocks? {
        return false;
      }
      GrowsOn(sb, d, n, old(disk), old(ino), disk, ino, i);
      WrittenOn(sb, d, n, old(disk), old(ino), disk, ino, i, off, src, tot);
      WriteChunk(sb, d, n, disk, ino, owner, i, off, src, tot, m);
      disk := disk[a.b := Spliced(disk[a.b], q % BSIZE, src, tot, m)];
      OwnFacts(sb, disk, ino, owner, {}, {});
      SameRefsGrows(sb, d, n, d1, ino, disk, i);
      SameRefsGrows(sb, old(disk), old(ino), d1, ino, disk, i);
      SameRefAt(sb, d1, ino, disk, Pos(i, DataPos(q / BSIZE)));
      TouchedOn(sb, old(disk), old(ino), disk, ino, i, off, q, m);
      ok := true;
    }

    /** writei's loop. */
    method WriteBytes(i: nat, off: nat, src: seq<Byte>) returns (ok: bool)
      requires Valid() && i < |ino| && off <= ino[i].size && off + |src| <= MAXBYTES
      modifies `disk, `ino, `owner
      ensures Valid()
      ensures ok ==> Progress(old(disk), old(ino), i, off, src, |src|)
      ensures !ok ==> AllUsed()
      ensures old(Mapped(sb, disk, ino, i)) && off + |src| <= old(ino[i].size) ==> ok
      ensures Addressed(old(ino[i]), off, off + |src|) ==> ino == old(ino)
    {
      hide Own, Used, ByteAt, Ref, Grows, SameBytes, Written, Touched, PartSize;
      OwnFacts(sb, disk, ino, owner, {}, {});
      WroteNothing(sb, disk, ino, i, off, src);
      var tot: nat := 0;
      while tot < |src|
        invariant tot <= |src| && Valid() && Progress(old(disk), old(ino), i, off, src, tot)
        invariant Addressed(old(ino[i]), off, off + |src|) ==> ino == old(ino)
      {
        assert off / BSIZE <= (off + tot) / BSIZE < MAXFILE && (off + tot) / BSIZE * BSIZE < off + |src|;
        var m := PartSize(|src| - tot, off + tot);
        PartMapped(sb, old(disk), old(ino), disk, ino, i, off + tot);
        ok := WritePart(i, off, src, tot, m, old(disk), old(ino));
        if !ok {
          return;
        }
        tot := tot + m;
      }
      ok := true;
    }

    /** writei on a file that is not a device. */
    method Writei(i: nat, src: seq<Byte>, off: Word) returns (r: WriteResult)
      requires Valid() && i < |ino| && |src| < WORD
      modifies this
      ensures Valid()
      ensures r.WriteFailed? <==> off > old(ino[i].size) || off + |src| >= WORD || off + |src| > MAXBYTES
      ensures r.WriteFailed? ==> disk == old(disk) && ino == old(ino) && dino == old(dino)
      ensures r.WritePanic? ==> AllUsed()
      ensures r.Wrote? ==> r.n == |src| && Patched(sb, old(disk), old(ino), disk, ino, i, off, src)
      ensures r.Wrote? ==> forall j :: 0 <= j < |ino| && j != i ==> dino[j] == old(dino[j])
      ensures r.Wrote? && old(dino[i] == ino[i]) ==>
        (dino[i] == ino[i] <==> off + |src| > old(ino[i].size) || Addressed(old(ino[i]), off, off + |src|))
      ensures r.Wrote? && old(Mapped(sb, disk, ino, i) && dino[i] == ino[i]) ==> dino[i] == ino[i]
      ensures r.Wrote? && old(dino[i] == ino[i]) && dino[i] != ino[i] ==> Behind(dino[i], ino[i])
      ensures old(Settled()) && !r.WritePanic? ==> Settled()
    {
      hide Own, Used, ByteAt, Ref, Grows, SameBytes, Written, Touched, Add, Mapped, Content, Patch, Behind;
      AddWraps(off, |src|);
      if off > ino[i].size || Add(off, |src|) < off {
        return WriteFailed;
      }
      if Add(off, |src|) > MAXBYTES {
        return WriteFailed;
      }
      var ok := WriteBytes(i, off, src);
      if !ok {
        return WritePanic;
      }
      WriteDone(sb, old(disk), old(ino), disk, ino, owner, i, off, src);
      GrowsNode(sb, old(disk), old(ino), disk, ino, i);
      GrowsBehind(sb, old(disk), old(ino), disk, ino, i);
      TouchedAddressed(sb, disk, ino, i, off, off + |src|);
      if old(Mapped(sb, disk, ino, i)) && off + |src| <= old(ino[i].size) {
        MappedAddressed(sb, old(disk), old(ino), i, off, off + |src|);
      }
      if |src| > 0 && off + |src| > ino[i].size {
        ino := PutSize(ino, i, off + |src|);
        Iupdate(i);
      }
      r := Wrote(|src|);
    }
  
    /** itrunc's first loop. */
    method TruncDirect(i: nat) returns (ok: bool)
      requires Valid() && i < |ino|
      modifies `disk, `ino, `owner
      ensures ok && Valid() && Cut(i, old(disk), old(ino), old(owner))
      ensures forall k :: 0 <= k < NDIRECT ==> ino[i].addrs[k] == 0
    {
      hide Own, Used, Freed;
      OwnFacts(sb, disk, ino, owner, {}, {});
      for k := 0 to NDIRECT
        invariant Valid() && Cut(i, old(disk), old(ino), old(owner))
        invariant forall t :: 0 <= t < k ==> ino[i].addrs[t] == 0
      {
        OwnFacts(sb, disk, ino, owner, {}, {});
        var b := ino[i].addrs[k];
        if b != 0 {
          DropDirect(sb, disk, ino, owner, i, k);
          ok := Bfree(b);
          if !ok {
            return;
          }
          ino := PutAddr(ino, i, k, 0);
          owner := owner - {b};
        }
      }
      ok := true;
    }

    /** Since (d, n, o), only addresses of file i changed, and only bitmap blocks. */
    ghost predicate Cut(i: nat, d: Disk, n: seq<Node>, o: map<nat, Pos>)
      reads this
    {
      && Shaped(sb, disk, ino) && |disk| == |d| == sb.size && |ino| == |n| && i < |n|
      && (forall c :: sb.nmeta <= c < sb.size ==> disk[c] == d[c])
      && (forall j :: 0 <= j < |n| && j != i ==> ino[j] == n[j])
      && ino[i] == n[i].(addrs := ino[i].addrs)
      && Trimmed(o, owner, i)
    }

    /** itrunc's second loop, over the entries of the indirect block. */
    method TruncEntries(i: nat) returns (ok: bool, ghost gone: set<Pos>)
      requires Valid() && i < |ino| && ino[i].addrs[NDIRECT] != 0
      modifies `disk, `owner
      ensures ok && Own(sb, disk, ino, owner, {}, gone) && Cut(i, old(disk), ino, old(owner))
      ensures forall p :: p in gone ==> p.i == i && NDIRECT < p.k < POSITIONS
      ensures forall b :: b in owner && owner[b].i == i ==> owner[b].k <= NDIRECT
    {
      hide Own, Used, Freed;
      OwnFacts(sb, disk, ino, owner, {}, {});
      IndirectOwned(sb, disk, ino, owner, i);
      var a := disk[ino[i].addrs[NDIRECT]];
      gone := {};
      for j := 0 to NINDIRECT
        invariant Own(sb, disk, ino, owner, {}, gone) && Cut(i, old(disk), ino, old(owner))
        invariant forall p :: p in gone ==> p.i == i && NDIRECT < p.k < 13 + j
        invariant forall b :: b in owner && owner[b].i == i && owner[b].k > NDIRECT ==> owner[b].k >= 13 + j
      {
        OwnFacts(sb, disk, ino, owner, {}, gone);
        var q := Pos(i, 13 + j);
        assert Ref(sb, disk, ino, q) == GetWord(a, j);
        OneOwner(sb, disk, ino, owner, gone, q);
        if GetWord(a, j) != 0 {
          DropEntry(sb, disk, ino, owner, gone, q);
          ok := Bfree(GetWord(a, j));
          if !ok {
            return;
          }
          owner := owner - {GetWord(a, j)};
          gone := gone + {q};
        }
      }
      OwnFacts(sb, disk, ino, owner, {}, gone);
      ok := true;
    }

    /** itrunc's treatment of the indirect block. */
    method TruncIndirect(i: nat) returns (ok: bool)
      requires Valid() && i < |ino|
      modifies `disk, `ino, `owner
      ensures ok && Valid() && Cut(i, old(disk), old(ino), old(owner))
      ensures ino[i].addrs == old(ino[i].addrs)[NDIRECT := 0]
    {
      hide Own, Used, Freed, Ref;
      ok := true;
      OwnFacts(sb, disk, ino, owner, {}, {});
      if ino[i].addrs[NDIRECT] != 0 {
        ghost var gone;
        ok, gone := TruncEntries(i);
        DropIndirect(sb, disk, ino, owner, gone, i);
        var b := ino[i].addrs[NDIRECT];
        ok := Bfree(b);
        ino := PutAddr(ino, i, NDIRECT, 0);
        owner := owner - {b};
      }
    }

    /** itrunc: the panic in bfree is never reached. */
    method Itrunc(i: nat) returns (ok: bool)
      requires Valid() && i < |ino|
      modifies this
      ensures ok && Valid()
      ensures Truncated(sb, old(disk), old(ino), old(owner), disk, ino, i)
      ensures dino == old(dino)[i := ino[i]]
      ensures old(Settled()) ==> Settled()
    {
      hide Own, Used, Ref, Truncated, Mapped;
      ok := TruncDirect(i);
      ok := TruncIndirect(i);
      PutSizeKeeps(sb, disk, ino, owner, i, 0);
      ino := PutSize(ino, i, 0);
      TruncDone(sb, old(disk), old(ino), old(owner), disk, ino, owner, i);
      Iupdate(i);
      if old(Settled()) {
        TruncNodes(sb, old(disk), old(ino), old(owner), disk, ino, i);
        forall j | 0 <= j < |ino| ensures Mapped(sb, disk, ino, j) {
          TruncMapped(sb, old(disk), old(ino), old(owner), disk, ino, i, j);
        }
      }
    }
  }

  lemma {:induction false} ReadNone(sb: Super, disk: Disk, ino: seq<Node>, i: nat, off: nat)
    requires Shaped(sb, disk, ino) && i < |ino|
    ensures ReadTo(sb, disk, ino, disk, ino, i, off, off) && Stepped(sb, disk, ino, disk, ino, i)
  {
    hide Ref, ByteAt, Shaped;
  }

  lemma {:induction false} AddressedAt(n: Node, from: nat, q: nat, to: nat)
    requires |n.addrs| == 13 && from <= q < to <= MAXBYTES
    ensures Addressed(n, from, to) ==> n.addrs[AddrOf(q / BSIZE)] != 0
  {
    assert from / BSIZE <= q / BSIZE < MAXFILE && q / BSIZE * BSIZE < to;
  }

  /** A read inside one block is one round. */
  lemma {:induction false} OnePart(off: nat, len: nat, tot: nat)
    requires tot < len
    ensures off % BSIZE + len <= BSIZE && tot == 0 ==> PartSize(len - tot, off + tot) == len
  {
  }

  lemma {:induction false} TruncNodes(sb: Super, d: Disk, n: seq<Node>, owner: map<nat, Pos>, disk: Disk, ino: seq<Node>, i: nat)
    requires Truncated(sb, d, n, owner, disk, ino, i)
    ensures |ino| == |n| && i < |n| && ino == n[i := ino[i]]
  {
  }

  lemma {:induction false} IndirectOwned(sb: Super, disk: Disk, ino: seq<Node>, owner: map<nat, Pos>, i: nat)
    requires Own(sb, disk, ino, owner, {}, {}) && i < |ino| && ino[i].addrs[NDIRECT] != 0
    ensures sb.nmeta <= ino[i].addrs[NDIRECT] < sb.size
  {
    assert Ref(sb, disk, ino, Pos(i, NDIRECT)) == ino[i].addrs[NDIRECT];
  }

  /** Only the block a position refers to can be owned by it. */
  lemma {:induction false} OneOwner(sb: Super, disk: Disk, ino: seq<Node>, owner: map<nat, Pos>, gone: set<Pos>, q: Pos)
    requires Own(sb, disk, ino, owner, {}, gone) && ValidPos(ino, q)
    ensures forall b :: b in owner && owner[b] == q ==> b != 0 && b == Ref(sb, disk, ino, q)
  {
  }

  /** A mapped file's block below its size is still mapped. */
  lemma {:induction false} PartMapped(sb: Super, d: Disk, n: seq<Node>, disk: Disk, ino: seq<Node>, i: nat, q: nat)
    requires Shaped(sb, d, n) && Shaped(sb, disk, ino) && i < |n| && Grows(sb, d, n, disk, ino, i) && q < MAXBYTES
    ensures Mapped(sb, d, n, i) && q < n[i].size ==> Ref(sb, disk, ino, Pos(i, DataPos(q / BSIZE))) != 0
  {
    hide Ref;
    assert q / BSIZE * BSIZE <= q;
    assert ValidPos(n, Pos(i, DataPos(q / BSIZE)));
  }

  lemma {:induction false} SameRefAt(sb: Super, disk: Disk, ino: seq<Node>, disk': Disk, p: Pos)
    requires Shaped(sb, disk, ino) && Shaped(sb, disk', ino) && SameRefs(sb, disk, ino, disk', ino) && ValidPos(ino, p)
    ensures Ref(sb, disk', ino, p) == Ref(sb, disk, ino, p)
  {
  }

  /** Addition of two uints. */
  function Add(a: Word, b: Word): Word { (a + b) % WORD }

  lemma {:induction false} AddWraps(a: Word, b: Word)
    ensures Add(a, b) < a <==> a + b >= WORD
    ensures a + b < WORD ==> Add(a, b) == a + b
  {
  }

  lemma {:induction false} JoinSlices<T>(c: seq<T>, a: seq<T>, b: seq<T>, x: nat, y: nat, z: nat)
    requires x <= y <= z <= |c| && a == c[x..y] && b == c[y..z]
    ensures a + b == c[x..z]
  {
  }

  lemma {:induction false} MetaUsed(sb: Super, disk: Disk, ino: seq<Node>, owner: map<nat, Pos>)
    requires Own(sb, disk, ino, owner, {}, {})
    ensures forall b :: 0 <= b < sb.nmeta ==> Used(sb, disk, b)
  {
  }
}
