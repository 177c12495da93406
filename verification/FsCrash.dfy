/** The log under the file system: inodes in their blocks, and which disks recovery leaves.

    A disk is consistent when its own inodes account for every block in use, so that it can be
    mounted. The theorem: if every group of operations that runs between two idle moments takes a
    consistent disk to a consistent disk, so does a crash at any point of any run. */
module FsCrash {
  import opened Blocks
  import opened DiskWrites
  import opened RedoLog
  import opened GroupCommit
  import opened Bitmap
  import opened FsConsts
  import opened FsState
  import opened FsSteps
  import opened FileSys
  import Mkfs

  const INODEWORDS := 16  // sizeof(struct dinode) / 4

  // ------------------------------------------------------- inodes in a block

  /** Words ws stored from word `from` on. */
  function PutWords(b: Block, from: nat, ws: seq<Word>): (r: Block)
    requires from + |ws| <= WORDS
  {
    if ws == [] then b else SetWord(PutWords(b, from, ws[..|ws| - 1]), from + |ws| - 1, ws[|ws| - 1])
  }

  lemma {:induction false} WordsStored(b: Block, from: nat, ws: seq<Word>, j: nat)
    requires from + |ws| <= WORDS && j < WORDS
    ensures GetWord(PutWords(b, from, ws), j) == if from <= j < from + |ws| then ws[j - from] else GetWord(b, j)
  {
    if ws != [] {
      var rest := ws[..|ws| - 1];
      WordsStored(b, from, rest, j);
      SetGetWord(PutWords(b, from, rest), from + |ws| - 1, ws[|ws| - 1], j);
    }
  }

  /** The 16 words of inode s of a block. */
  function InodeWords(b: Block, s: nat): (ws: seq<Word>)
    requires s < IPB
    ensures |ws| == INODEWORDS
  { seq<Word>(INODEWORDS, k requires 0 <= k < INODEWORDS => GetWord(b, INODEWORDS * s + k)) }

  lemma {:induction false} WordsRoundTrip(b: Block, s: nat, ws: seq<Word>, t: nat)
    requires s < IPB && t < IPB && |ws| == INODEWORDS
    ensures InodeWords(PutWords(b, INODEWORDS * s, ws), t) == if t == s then ws else InodeWords(b, t)
  {
    hide GetWord, PutWords;
    var r := PutWords(b, INODEWORDS * s, ws);
    forall k | 0 <= k < INODEWORDS ensures InodeWords(r, t)[k] == if t == s then ws[k] else InodeWords(b, t)[k] {
      WordsStored(b, INODEWORDS * s, ws, INODEWORDS * t + k);
    }
  }

  /** A short, read from 16 bits. */
  function Short(x: nat): int { if x < 0x8000 then x else x - 0x1_0000 }

  /** type, nlink, size and addrs of a struct dinode; the device numbers are left out. */
  function NodeOf(ws: seq<Word>): (n: Node)
    requires |ws| == INODEWORDS
  { Node(Short(ws[0] % 0x1_0000), Short(ws[1] / 0x1_0000), ws[2], ws[3..]) }

  /** An inode whose fields fit the shorts and words of a struct dinode. */
  predicate Packable(n: Node) { 0 <= n.typ < 0x8000 && 0 <= n.nlink < 0x8000 && |n.addrs| == 13 }

  /** The stores of iupdate; the device numbers stay. */
  function WordsOf(n: Node, ws: seq<Word>): (r: seq<Word>)
    requires Packable(n) && |ws| == INODEWORDS
    ensures |r| == INODEWORDS
  { [ws[0] / 0x1_0000 * 0x1_0000 + n.typ, n.nlink * 0x1_0000 + ws[1] % 0x1_0000, n.size] + n.addrs }

  lemma {:induction false} NodeWords(n: Node, ws: seq<Word>)
    requires Packable(n) && |ws| == INODEWORDS
    ensures NodeOf(WordsOf(n, ws)) == n
  {
    assert WordsOf(n, ws)[3..] == n.addrs;
  }

  function NodeIn(b: Block, s: nat): (n: Node)
    requires s < IPB
  { NodeOf(InodeWords(b, s)) }

  function PutNode(b: Block, s: nat, n: Node): (r: Block)
    requires s < IPB && Packable(n)
  { PutWords(b, INODEWORDS * s, WordsOf(n, InodeWords(b, s))) }

  /** struct dinode in its 64 bytes: type first, nlink at 6, size at 8, addrs from 12 on, little-endian. */
  lemma {:induction false} NodeFormat(b: Block, s: nat, k: nat)
    requires s < IPB && k < 13
    ensures var at, n := 64 * s, NodeIn(b, s);
      && n.typ == Short(b[at] as int + 0x100 * b[at + 1] as int) && n.nlink == Short(b[at + 6] as int + 0x100 * b[at + 7] as int)
      && n.size == LittleEndian(b, at + 8) && n.addrs[k] == LittleEndian(b, at + 12 + 4 * k)
  {
    hide GetWord;
    WordBytes(b, INODEWORDS * s);
    WordBytes(b, INODEWORDS * s + 1);
    WordBytes(b, INODEWORDS * s + 2);
    WordBytes(b, INODEWORDS * s + 3 + k);
    assert InodeWords(b, s)[3..][k] == GetWord(b, INODEWORDS * s + (3 + k));
  }

  function LittleEndian(b: Block, i: nat): int
    requires i + 4 <= BSIZE
  { b[i] as int + 0x100 * b[i + 1] as int + 0x1_0000 * b[i + 2] as int + 0x100_0000 * b[i + 3] as int }

  lemma {:induction false} WordBytes(b: Block, j: nat)
    requires j < WORDS
    ensures GetWord(b, j) == LittleEndian(b, 4 * j)
    ensures GetWord(b, j) % 0x1_0000 == b[4 * j] as int + 0x100 * b[4 * j + 1] as int
    ensures GetWord(b, j) / 0x1_0000 == b[4 * j + 2] as int + 0x100 * b[4 * j + 3] as int
  {
  }

  /** What iupdate stores, ilock reads back, and the other inodes of the block stay. */
  lemma {:induction false} NodeRoundTrip(b: Block, s: nat, n: Node, t: nat)
    requires s < IPB && t < IPB && Packable(n)
    ensures NodeIn(PutNode(b, s, n), t) == if t == s then n else NodeIn(b, t)
  {
    hide GetWord, PutWords, WordsOf, NodeOf, InodeWords;
    WordsRoundTrip(b, s, WordsOf(n, InodeWords(b, s)), t);
    NodeWords(n, InodeWords(b, s));
  }

  // -------------------------------------------------------- consistent disks

  /** The superblock: where the inodes are, and how many. */
  datatype Geo = Geo(sb: Super, inodestart: nat, ninodes: nat)

  /** Log, inodes, bitmap and data blocks lie apart, in this order. */
  predicate GeoOk(geo: Geo, g: Layout) {
    && SuperOk(geo.sb) && g.start + g.size <= geo.inodestart
    && geo.inodestart + (geo.ninodes + IPB - 1) / IPB <= geo.sb.bmapstart
  }

  /** IBLOCK(i, sb) */
  function IBlock(geo: Geo, i: nat): nat { geo.inodestart + i / IPB }

  /** Inode blocks lie behind the log and before the bitmap. */
  lemma {:induction false} InodeBlock(geo: Geo, g: Layout, i: nat)
    requires GeoOk(geo, g) && i < geo.ninodes
    ensures IBlock(geo, i) < geo.sb.bmapstart < geo.sb.size && !g.InLog(IBlock(geo, i))
  {
  }

  predicate Sized(geo: Geo, d: Disk) {
    SuperOk(geo.sb) && |d| == geo.sb.size && geo.inodestart + (geo.ninodes + IPB - 1) / IPB <= geo.sb.bmapstart
  }

  /** The inodes a disk holds. */
  function Inodes(geo: Geo, d: Disk): (ino: seq<Node>)
    requires Sized(geo, d)
    ensures |ino| == geo.ninodes
  { seq(geo.ninodes, i requires 0 <= i < geo.ninodes => NodeIn(d[IBlock(geo, i)], i % IPB)) }

  /** The disk's own inodes account for every block in use: FileSystem's constructor takes it. */
  ghost predicate Accounted(geo: Geo, d: Disk, owner: map<nat, Pos>) {
    && Sized(geo, d) && Own(geo.sb, d, Inodes(geo, d), owner, {}, {})
    && forall i :: 0 <= i < geo.ninodes ==> Inodes(geo, d)[i].size <= MAXBYTES
  }

  ghost predicate Consistent(geo: Geo, d: Disk) { exists owner :: Accounted(geo, d, owner) }

  /** iupdate's write. */
  function Store(geo: Geo, d: Disk, i: nat, n: Node): (r: Disk)
    requires Sized(geo, d) && i < geo.ninodes && Packable(n)
    ensures Sized(geo, r)
  { d[IBlock(geo, i) := PutNode(d[IBlock(geo, i)], i % IPB, n)] }

  lemma {:induction false} StoreInodes(geo: Geo, d: Disk, i: nat, n: Node)
    requires Sized(geo, d) && i < geo.ninodes && Packable(n)
    ensures Inodes(geo, Store(geo, d, i, n)) == Inodes(geo, d)[i := n]
  {
    hide NodeIn, PutNode;
    var r := Store(geo, d, i, n);
    forall j | 0 <= j < geo.ninodes ensures Inodes(geo, r)[j] == Inodes(geo, d)[i := n][j] {
      if j / IPB == i / IPB { NodeRoundTrip(d[IBlock(geo, i)], i % IPB, n, j % IPB); }
    }
  }

  /** Ownership reads the bitmap and the data blocks only. */
  lemma {:induction false} OwnReads(sb: Super, d: Disk, d': Disk, ino: seq<Node>, owner: map<nat, Pos>)
    requires Own(sb, d, ino, owner, {}, {}) && |d'| == |d| && forall b :: sb.bmapstart <= b < sb.size ==> d'[b] == d[b]
    ensures Own(sb, d', ino, owner, {}, {})
  {
    hide GetWord, Bit;
    forall p | ValidPos(ino, p) ensures Ref(sb, d', ino, p) == Ref(sb, d, ino, p) {
      var q := Pos(p.i, NDIRECT);
      assert ValidPos(ino, q) && Ref(sb, d, ino, q) == ino[p.i].addrs[NDIRECT];
    }
    forall b | 0 <= b < sb.size ensures Used(sb, d', b) <==> Used(sb, d, b) {
      BitmapBlock(sb, b);
    }
  }

  /** Recovery may leave anything in the log blocks. */
  lemma {:induction false} HomeConsistent(geo: Geo, g: Layout, d: Disk, d': Disk)
    requires GeoOk(geo, g) && SameHome(g, d, d')
    ensures Consistent(geo, d) <==> Consistent(geo, d')
  {
    if Consistent(geo, d) { HomeAccounted(geo, g, d, d'); }
    if Consistent(geo, d') { HomeAccounted(geo, g, d', d); }
  }

  lemma {:induction false} HomeAccounted(geo: Geo, g: Layout, d: Disk, d': Disk)
    requires GeoOk(geo, g) && SameHome(g, d, d') && Consistent(geo, d)
    ensures Consistent(geo, d')
  {
    hide NodeIn, Own;
    var owner :| Accounted(geo, d, owner);
    forall i | 0 <= i < geo.ninodes ensures Inodes(geo, d')[i] == Inodes(geo, d)[i] {
      InodeBlock(geo, g, i);
    }
    assert Inodes(geo, d') == Inodes(geo, d);
    OwnReads(geo.sb, d, d', Inodes(geo, d), owner);
    assert Accounted(geo, d', owner);
  }

  // ------------------------------------------------------------- whole runs

  /** The machine is up and no operation is open. */
  predicate Quiet(s: State) { s.mode.Up? && s.outstanding == 0 }

  /** Operations were open all the time from the quiet state i to state k. */
  ghost predicate Open(states: seq<State>, i: nat, k: nat) {
    i < k < |states| && Quiet(states[i]) && forall t :: i < t <= k ==> states[t].outstanding > 0
  }

  /** The operations between the quiet state i and state j, where the last of them has ended. */
  ghost predicate Group(states: seq<State>, i: nat, j: nat) {
    && i < j < |states| && Quiet(states[i]) && states[j].mode.Committing?
    && forall t :: i < t < j ==> states[t].outstanding > 0
  }

  /** Operations that run together take a consistent file system to a consistent one. */
  ghost predicate GroupsKeep(geo: Geo, states: seq<State>) {
    forall i: nat, j: nat :: Group(states, i, j) && Consistent(geo, states[i].view) ==> Consistent(geo, states[j].view)
  }

  /** The logged writes the last commit published. */
  ghost predicate Published(geo: Geo, base: Disk, s: State) {
    s.durable <= |s.writes| && WritesOk(base, s.writes) && Consistent(geo, Apply(base, s.writes[..s.durable]))
  }

  /** The operations that are open now began in a consistent file system. */
  ghost predicate BeganWell(geo: Geo, states: seq<State>, k: nat) {
    exists i: nat :: Open(states, i, k) && Consistent(geo, states[i].view)
  }

  ghost predicate Fine(g: Layout, geo: Geo, base: Disk, states: seq<State>, k: nat)
    requires k < |states|
  {
    var s := states[k];
    && Published(geo, base, s) && (s.mode.Committing? ==> Consistent(geo, s.view))
    && (s.outstanding > 0 ==> BeganWell(geo, states, k))
  }

  /** The cache shows all logged writes. */
  lemma {:induction false} ViewHome(g: Layout, base: Disk, s: State)
    requires Inv(g, base, s) && !s.mode.Recovering?
    ensures WritesOk(base, s.writes) && SameHome(g, s.view, Apply(base, s.writes))
    ensures Quiet(s) ==> s.durable == |s.writes|
  {
    hide After, CommitWrites, Apply, Whole;
    assert s.writes[..|s.writes|] == s.writes;
  }

  lemma {:induction false} QuietView(g: Layout, geo: Geo, base: Disk, s: State)
    requires Inv(g, base, s) && GeoOk(geo, g) && Published(geo, base, s) && Quiet(s)
    ensures Consistent(geo, s.view)
  {
    hide Inv, SameHome, Consistent, Apply;
    ViewHome(g, base, s);
    assert s.writes[..|s.writes|] == s.writes;
    HomeConsistent(geo, g, s.view, Apply(base, s.writes));
  }

  lemma {:induction false} PublishedKeeps(g: Layout, geo: Geo, base: Disk, s: State, step: Step)
    requires Inv(g, base, s) && Enabled(g, s, step) && GeoOk(geo, g) && Published(geo, base, s) && Inv(g, base, Next(g, s, step))
    requires s.mode.Committing? ==> Consistent(geo, s.view)
    ensures Published(geo, base, Next(g, s, step))
  {
    hide Inv, SameHome, Consistent, Apply;
    var t := Next(g, s, step);
    match step
    case LogWrite(p, b, data) =>
      ViewHome(g, base, t);
      assert t.writes[..t.durable] == s.writes[..s.durable];
    case CommitWrite =>
      ViewHome(g, base, s);
      HomeConsistent(geo, g, s.view, Apply(base, s.writes));
      assert s.writes[..|s.writes|] == s.writes;
    case Crash =>
      assert t.writes[..t.durable] == s.writes[..s.durable];
    case _ =>
  }

  /** The first state. */
  lemma {:induction false} InitFine(g: Layout, geo: Geo, base: Disk, states: seq<State>)
    requires states != [] && Init(g, base, states[0]) && Consistent(geo, base)
    ensures Fine(g, geo, base, states, 0)
  {
    assert states[0].writes[..0] == [];
  }

  /** An operation is open after a step: it was before, or it has just begun. */
  lemma {:induction false} StillOpen(g: Layout, geo: Geo, base: Disk, states: seq<State>, k: nat, step: Step)
    requires k + 1 < |states| && Enabled(g, states[k], step) && states[k + 1] == Next(g, states[k], step)
    requires Books(g, states[k]) && (states[k].outstanding > 0 ==> BeganWell(geo, states, k))
    requires Quiet(states[k]) ==> Consistent(geo, states[k].view)
    ensures states[k + 1].outstanding > 0 ==> BeganWell(geo, states, k + 1)
  {
    hide Consistent;
    if states[k + 1].outstanding > 0 {
      if states[k].outstanding > 0 {
        var i: nat :| Open(states, i, k) && Consistent(geo, states[i].view);
        assert Open(states, i, k + 1);
      } else {
        StartsOp(g, states[k], step);
        assert Open(states, k, k + 1);
      }
    }
  }

  lemma {:induction false} StartsOp(g: Layout, s: State, step: Step)
    requires Books(g, s) && Enabled(g, s, step) && s.outstanding <= 0 < Next(g, s, step).outstanding
    ensures Quiet(s)
  {
    match step
    case BeginOp(p) =>
    case EndOp(p) => OpsBusy(g, s, p);
    case _ =>
  }

  /** The view a commit starts from, and every view it leaves, is consistent. */
  lemma {:induction false} CommitFine(g: Layout, geo: Geo, base: Disk, states: seq<State>, k: nat, step: Step)
    requires k + 1 < |states| && Enabled(g, states[k], step) && states[k + 1] == Next(g, states[k], step)
    requires Inv(g, base, states[k]) && Inv(g, base, states[k + 1]) && GeoOk(geo, g) && GroupsKeep(geo, states)
    requires Fine(g, geo, base, states, k) && states[k + 1].mode.Committing?
    ensures Consistent(geo, states[k + 1].view)
  {
    hide Consistent, Inv, Published, SameHome, Apply;
    if step.EndOp? {
      EndOpens(g, base, states[k], step.p);
      var i: nat :| Open(states, i, k) && Consistent(geo, states[i].view);
      assert Group(states, i, k + 1);
    } else {
      CommitGoesOn(g, base, states[k], step);
      ViewHome(g, base, states[k]);
      ViewHome(g, base, states[k + 1]);
      SameHomeTwo(g, states[k].view, states[k + 1].view, Apply(base, states[k].writes));
      HomeConsistent(geo, g, states[k].view, states[k + 1].view);
    }
  }

  lemma {:induction false} EndOpens(g: Layout, base: Disk, s: State, p: nat)
    requires Inv(g, base, s) && p in s.ops
    ensures s.outstanding > 0
  {
    hide Whole, Data;
    OpsBusy(g, s, p);
  }

  lemma {:induction false} CommitGoesOn(g: Layout, base: Disk, s: State, step: Step)
    requires Inv(g, base, s) && Enabled(g, s, step) && !step.EndOp? && Next(g, s, step).mode.Committing?
    ensures s.mode.Committing? && Next(g, s, step).writes == s.writes
  {
    hide Whole, Data;
    match step
    case LogWrite(p, b, data) => OpsBusy(g, s, p);
    case _ =>
  }

  lemma {:induction false} SameHomeTwo(g: Layout, a: Disk, b: Disk, c: Disk)
    requires SameHome(g, a, c) && SameHome(g, b, c)
    ensures SameHome(g, a, b)
  {
  }

  lemma {:induction false} RunFine(g: Layout, geo: Geo, base: Disk, states: seq<State>, steps: seq<Step>, k: nat)
    requires IsRun(g, base, states, steps) && k < |states| && NoSpill(g, states, k)
    requires GeoOk(geo, g) && Consistent(geo, base) && GroupsKeep(geo, states)
    ensures Fine(g, geo, base, states, k)
  {
    hide Inv, Safe, Enabled, Next, Consistent, Published, GroupsKeep, BeganWell, Quiet, Init;
    RunKeeps(g, base, states, steps, k);
    if k == 0 {
      InitFine(g, geo, base, states);
    } else {
      RunFine(g, geo, base, states, steps, k - 1);
      RunKeeps(g, base, states, steps, k - 1);
      RunBooks(g, base, states, steps, k - 1);
      var s, step := states[k - 1], steps[k - 1];
      PublishedKeeps(g, geo, base, s, step);
      if Quiet(s) { QuietView(g, geo, base, s); }
      StillOpen(g, geo, base, states, k - 1, step);
      if states[k].mode.Committing? { CommitFine(g, geo, base, states, k - 1, step); }
    }
  }

  /** In every state of every run, after a crash there and any crashes during the recovery that
      follows, recovery leaves a consistent file system. */
  lemma {:induction false} RecoveredConsistent(g: Layout, geo: Geo, base: Disk, states: seq<State>, steps: seq<Step>, k: nat,
                                               cuts: seq<nat>)
    requires IsRun(g, base, states, steps) && k < |states| && NoSpill(g, states, k) && CutsOk(g, states[k].disk, cuts)
    requires GeoOk(geo, g) && Consistent(geo, base) && GroupsKeep(geo, states)
    ensures var d := Interrupted(g, states[k].disk, cuts); Recoverable(g, d) && Consistent(geo, Recovered(g, d))
  {
    hide Consistent, SameHome, Recovered, Apply, GroupsKeep, BeganWell, IsRun, NoSpill, Recoverable;
    RunFine(g, geo, base, states, steps, k);
    CrashRecoversWholeOperations(g, base, states, steps, k, cuts);
    var s := states[k];
    HomeConsistent(geo, g, Recovered(g, Interrupted(g, s.disk, cuts)), Apply(base, s.writes[..s.durable]));
  }

  /** A published view decides: recovery leaves a consistent file system if and only if the view was one. */
  lemma {:induction false} PublishedDecides(g: Layout, geo: Geo, base: Disk, s: State)
    requires Inv(g, base, s) && GeoOk(geo, g) && !s.mode.Recovering? && s.durable == |s.writes|
    ensures Recoverable(g, s.disk) && (Consistent(geo, Recovered(g, s.disk)) <==> Consistent(geo, s.view))
  {
    hide Inv, Consistent, SameHome, Recovered, Apply;
    CrashSafe(g, base, s);
    ViewHome(g, base, s);
    assert s.writes[..s.durable] == s.writes;
    SameHomeTwo(g, Recovered(g, s.disk), s.view, Apply(base, s.writes));
    HomeConsistent(geo, g, Recovered(g, s.disk), s.view);
  }

  // ---------------------------------------------------- the cache shows files

  /** View v shows the blocks and the disk inodes of a file system. */
  ghost predicate Shows(geo: Geo, v: Disk, disk: Disk, dino: seq<Node>) {
    && Sized(geo, v) && |disk| == |v| && Inodes(geo, v) == dino
    && forall b :: geo.sb.bmapstart <= b < geo.sb.size ==> v[b] == disk[b]
  }

  /** iupdate logs one block. */
  lemma {:induction false} ShowsStore(geo: Geo, v: Disk, disk: Disk, dino: seq<Node>, i: nat, n: Node)
    requires Shows(geo, v, disk, dino) && i < geo.ninodes && Packable(n)
    ensures Shows(geo, Store(geo, v, i, n), disk, dino[i := n])
  {
    hide NodeIn, PutNode, Inodes;
    StoreInodes(geo, v, i, n);
  }

  /** Writes of balloc, bfree, bmap and writei log one block each. */
  lemma {:induction false} ShowsBlock(geo: Geo, v: Disk, disk: Disk, dino: seq<Node>, b: nat, data: Block)
    requires Shows(geo, v, disk, dino) && geo.sb.bmapstart <= b < geo.sb.size
    ensures Shows(geo, v[b := data], disk[b := data], dino)
  {
    hide NodeIn;
    assert Inodes(geo, v[b := data]) == Inodes(geo, v);
  }

  /** A view is consistent when the disk inodes of the file system it shows account for its blocks. */
  lemma {:induction false} ShowsConsistent(geo: Geo, v: Disk, disk: Disk, dino: seq<Node>)
    requires Shows(geo, v, disk, dino) && forall i :: 0 <= i < |dino| ==> dino[i].size <= MAXBYTES
    ensures Consistent(geo, v) <==> exists owner :: Own(geo.sb, disk, dino, owner, {}, {})
  {
    hide Own, Inodes;
    if Consistent(geo, v) {
      var owner :| Accounted(geo, v, owner);
      OwnReads(geo.sb, v, disk, dino, owner);
    }
    if owner :| Own(geo.sb, disk, dino, owner, {}, {}) {
      OwnReads(geo.sb, disk, v, dino, owner);
      assert Accounted(geo, v, owner);
    }
  }

  /** The layout mkfs gives a disk: two blocks, the log, the inodes. */
  const MKFS := Geo(Mkfs.SB, 2 + Mkfs.LOGBLOCKS, Mkfs.NINODES)

  /** A run may begin with the image of mkfs. */
  lemma {:induction false} MkfsConsistent(v: Disk, disk: Disk, ino: seq<Node>, owner: map<nat, Pos>, files: seq<Mkfs.HostFile>)
    requires |files| <= Mkfs.NINODES - 2 && Mkfs.Built(disk, ino, owner, files) && Shows(MKFS, v, disk, ino)
    ensures GeoOk(MKFS, Layout(2, Mkfs.LOGBLOCKS)) && Consistent(MKFS, v)
  {
    hide Own, Shows, Mkfs.FilesIn, Mkfs.RootIn, Mkfs.NeedFor, Used;
    ShowsConsistent(MKFS, v, disk, ino);
  }

  /** writei as an operation of its own. Whatever view shows the result is consistent, so that a crash
      once it is published does no harm, if and only if the file grew or every address was there. */
  method WriteThenCrash(fs: FileSystem, geo: Geo, i: nat, src: seq<Byte>, off: Word) returns (r: WriteResult)
    requires fs.Valid() && fs.dino == fs.ino && fs.sb == geo.sb && i < |fs.ino| && |src| < WORD
    modifies fs
    ensures r.Wrote? ==> forall v :: Shows(geo, v, fs.disk, fs.dino) ==>
      (Consistent(geo, v) <==> off + |src| > old(fs.ino[i].size) || Addressed(old(fs.ino[i]), off, off + |src|))
  {
    hide Own, Consistent, Shows, Behind, Addressed, Patched;
    OwnFacts(fs.sb, fs.disk, fs.ino, fs.owner, {}, {});
    r := fs.Writei(i, src, off);
    if r.Wrote? {
      forall v | Shows(geo, v, fs.disk, fs.dino)
        ensures Consistent(geo, v) <==> off + |src| > old(fs.ino[i].size) || Addressed(old(fs.ino[i]), off, off + |src|)
      {
        PatchedNodes(fs.sb, old(fs.disk), old(fs.ino), fs.disk, fs.ino, i, off, src);
        CrashDecided(geo, v, fs.disk, fs.ino, fs.dino, fs.owner, i);
      }
    }
  }

  /** readi, which may allocate: consistent if and only if every address was there. */
  method ReadThenCrash(fs: FileSystem, geo: Geo, i: nat, off: Word, n: Word) returns (r: ReadResult)
    requires fs.Valid() && fs.dino == fs.ino && fs.sb == geo.sb && i < |fs.ino|
    modifies fs
    ensures r.Bytes? ==> forall v :: Shows(geo, v, fs.disk, fs.dino) ==>
      (Consistent(geo, v) <==> Addressed(old(fs.ino[i]), off, Min(off + n, old(fs.ino[i].size))))
  {
    hide Own, Consistent, Shows, Behind, Addressed, Stepped, Mapped, Content;
    OwnFacts(fs.sb, fs.disk, fs.ino, fs.owner, {}, {});
    r := fs.Readi(i, off, n);
    if r.Bytes? {
      SteppedNodes(fs.sb, old(fs.disk), old(fs.ino), fs.disk, fs.ino, i);
      forall v | Shows(geo, v, fs.disk, fs.dino)
        ensures Consistent(geo, v) <==> Addressed(old(fs.ino[i]), off, Min(off + n, old(fs.ino[i].size)))
      {
        CrashDecided(geo, v, fs.disk, fs.ino, fs.dino, fs.owner, i);
      }
    }
  }

  lemma {:induction false} SteppedNodes(sb: Super, d: Disk, n: seq<Node>, disk: Disk, ino: seq<Node>, i: nat)
    requires Stepped(sb, d, n, disk, ino, i)
    ensures |ino| == |n| && forall j :: 0 <= j < |n| && j != i ==> ino[j] == n[j]
  {
    hide Ref, Shaped, SameBytes;
  }

  /** itrunc always leaves a consistent file system. */
  method TruncThenCrash(fs: FileSystem, geo: Geo, i: nat) returns (ok: bool)
    requires fs.Valid() && fs.dino == fs.ino && fs.sb == geo.sb && i < |fs.ino|
    modifies fs
    ensures ok && forall v :: Shows(geo, v, fs.disk, fs.dino) ==> Consistent(geo, v)
  {
    hide Own, Consistent, Shows, Truncated;
    ok := fs.Itrunc(i);
    TruncNodes(fs.sb, old(fs.disk), old(fs.ino), old(fs.owner), fs.disk, fs.ino, i);
    forall v | Shows(geo, v, fs.disk, fs.dino) ensures Consistent(geo, v) {
      CrashDecided(geo, v, fs.disk, fs.ino, fs.dino, fs.owner, i);
    }
  }

  lemma {:induction false} PatchedNodes(sb: Super, d: Disk, n: seq<Node>, disk: Disk, ino: seq<Node>, i: nat, off: nat, src: seq<Byte>)
    requires Patched(sb, d, n, disk, ino, i, off, src)
    ensures |ino| == |n| && forall j :: 0 <= j < |n| && j != i ==> ino[j] == n[j]
  {
    hide Content, Mapped, Shaped;
  }

  /** With one inode that is up to date or behind, and the others up to date. */
  lemma {:induction false} CrashDecided(geo: Geo, v: Disk, disk: Disk, ino: seq<Node>, dino: seq<Node>, owner: map<nat, Pos>, i: nat)
    requires Shows(geo, v, disk, dino) && Own(geo.sb, disk, ino, owner, {}, {}) && i < |ino| == |dino|
    requires (forall j :: 0 <= j < |ino| ==> ino[j].size <= MAXBYTES) && (forall j :: 0 <= j < |ino| && j != i ==> dino[j] == ino[j])
    requires dino[i] == ino[i] || Behind(dino[i], ino[i])
    ensures Consistent(geo, v) <==> dino[i] == ino[i]
  {
    hide Own, Shows;
    assert dino == ino[i := dino[i]];
    ShowsConsistent(geo, v, disk, dino);
    if dino[i] == ino[i] {
      assert dino == ino;
    } else {
      forall o ensures !Own(geo.sb, disk, dino, o, {}, {}) { BehindLoses(geo.sb, disk, ino, owner, i, dino[i], o); }
    }
  }
}
