/** The file system mkfs builds, as the kernel finds it. */
module Mount {
  import opened Blocks
  import opened FsConsts
  import opened FsState
  import opened FsSteps
  import opened FileSys
  import opened Mkfs
  import Directory

  /** mkfs, then a kernel that starts on the image. Its file system is settled if and only if the
      root's entries do not fill whole blocks. */
  method Boot(files: seq<HostFile>) returns (fs: FileSystem?)
    requires |files| <= NINODES - 2
    ensures fs != null <==> Buildable(files)
    ensures fs != null ==>
      && fresh(fs) && fs.Valid() && fs.dino == fs.ino && Built(fs.disk, fs.ino, fs.owner, files) && fs.sb == SB
      && (fs.Settled() <==> 16 * (2 + |files|) % BSIZE != 0)
  {
    hide Own, Content, Mapped, View, Used, Buildable;
    var image := new Image();
    var ok := image.Build(files);
    if !ok {
      return null;
    }
    fs := new FileSystem(SB, image.disk, image.ino, image.owner);
  }

  /** Boot, look a file up in the root by its name, and read it: what comes back is the host's file, if
      and only if no earlier entry has its name. */
  method BootFinds(files: seq<HostFile>, t: nat, name: seq<Byte>) returns (r: Directory.LookupResult, data: ReadResult)
    requires |files| <= NINODES - 2 && Buildable(files) && Directory.Strings(files) && t < |files|
    requires 0 !in name && Directory.Cut(name, Directory.DIRSIZ) == Directory.ShortName(files[t])
    ensures r.Found? && (r == Directory.Found(2 + t, 16 * (2 + t)) <==> Directory.Leads(files, t))
    ensures Directory.Leads(files, t) ==> data == Bytes(files[t].data)
  {
    hide Own, Content, Mapped, MappedTo, Used, Buildable, NeedFor, Stepped, RootIn;
    hide Directory.Same, Directory.FirstEntry, Directory.ShortName, Directory.Leads;
    var booted := Boot(files);
    var fs: FileSystem := booted;
    OwnFacts(SB, fs.disk, fs.ino, fs.owner, {}, {});
    Directory.RootEntries(fs.disk, fs.ino, fs.owner, files);
    Directory.FindsFile(fs.disk, fs.ino, fs.owner, files, name, t);
    assert FileIn(fs.disk, fs.ino, files[t], 2 + t);
    ghost var d, n := fs.disk, fs.ino;
    r := Directory.DirLookup(fs, ROOTINO, name);
    var i := r.inum;
    SteppedFile(SB, d, n, fs.disk, fs.ino, ROOTINO, i);
    data := fs.Readi(i, 0, fs.ino[i].size);
    assert files[t].data[0..|files[t].data|] == files[t].data;
  }

  lemma {:induction false} SteppedFile(sb: Super, d: Disk, n: seq<Node>, disk: Disk, ino: seq<Node>, i: nat, j: nat)
    requires Stepped(sb, d, n, disk, ino, i) && j < |n| && n[j].size <= MAXBYTES
    ensures |ino| == |n| && Shaped(sb, d, n) && Shaped(sb, disk, ino)
    ensures ino[j].size == n[j].size && Content(sb, disk, ino, j) == Content(sb, d, n, j)
    ensures Mapped(sb, d, n, j) ==> Mapped(sb, disk, ino, j)
  {
    hide Ref, ByteAt, Content, Shaped;
    SameContent(sb, d, n, disk, ino, i, j);
  }

  /** With entries that fill whole blocks the root has a hole behind them. dirlookup for a name that is
      not there reads the hole, sixteen bytes at a time: the first read takes a block for it and
      changes only the inode in memory; once that is dropped and read back, the block is in use and
      belongs to nobody. */
  method LookupLosesBlock(files: seq<HostFile>) returns (fs: FileSystem, r: ReadResult)
    requires |files| <= NINODES - 2 && 16 * (2 + |files|) % BSIZE == 0
    requires Buildable(files) && NMETA + NeedFor(files, |files|) < FSSIZE
    ensures fresh(fs) && r.Bytes? && |r.data| == 16
    ensures forall o :: !Own(fs.sb, fs.disk, fs.ino, o, {}, {})
  {
    hide Own, Content, Mapped, Used, Buildable, NeedFor;
    var booted := Boot(files);
    fs := booted;
    var off := 16 * (2 + |files|);
    HoleAt(fs.disk, fs.ino, fs.owner, files);
    OwnFacts(fs.sb, fs.disk, fs.ino, fs.owner, {}, {});
    HoleSkips(fs.ino[ROOTINO], off);
    assert !Used(SB, fs.disk, FSSIZE - 1);
    r := fs.Readi(ROOTINO, off, 16);
    fs.Reload(ROOTINO);
  }

  /** The block behind the entries is the first one missing. */
  lemma {:induction false} HoleAt(disk: Disk, ino: seq<Node>, owner: map<nat, Pos>, files: seq<HostFile>)
    requires |files| <= NINODES - 2 && 16 * (2 + |files|) % BSIZE == 0 && Built(disk, ino, owner, files)
    ensures |ino[ROOTINO].addrs| == 13 && ino[ROOTINO].addrs[16 * (2 + |files|) / BSIZE] == 0
  {
    var n := 16 * (2 + |files|) / BSIZE;
    assert Ref(SB, disk, ino, Pos(ROOTINO, DataPos(n))) != 0 <==> n * BSIZE < 16 * (2 + |files|);
  }

  lemma {:induction false} HoleSkips(n: Node, off: nat)
    requires |n.addrs| == 13 && off / BSIZE < NDIRECT && n.addrs[off / BSIZE] == 0 && off % BSIZE == 0
    ensures !Addressed(n, off, off + 16)
  {
    assert AddrOf(off / BSIZE) == off / BSIZE && off / BSIZE * BSIZE < off + 16;
  }

  /** Thirty empty files are such a case. */
  method ThirtyFiles() returns (fs: FileSystem, r: ReadResult)
    ensures r.Bytes? && forall o :: !Own(fs.sb, fs.disk, fs.ino, o, {}, {})
  {
    var files := seq(30, t => HostFile([97], []));
    EmptyFiles(files, 30);
    fs, r := LookupLosesBlock(files);
  }

  lemma {:induction false} EmptyFiles(files: seq<HostFile>, k: nat)
    requires k <= |files| && forall t :: 0 <= t < k ==> files[t].data == []
    ensures DataBlocks(files, k) == 0
  {
    if k > 0 { EmptyFiles(files, k - 1); }
  }
}
