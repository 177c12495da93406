/** Directories as bytes: what dirlookup makes of them, and what mkfs puts into the root. */
module Directory {
  import opened Blocks
  import opened FsConsts
  import opened FsState
  import opened FsSteps
  import opened FileSys
  import opened Mkfs

  const DIRSIZ := 14

  /** strncmp(a, b, n) == 0, where a sequence ends in NUL. */
  predicate Same(a: seq<Byte>, b: seq<Byte>, n: nat) {
    n == 0 ||
    (var x, y := if a == [] then 0 else a[0], if b == [] then 0 else b[0];
     x == y && (x == 0 || Same(a[1..], b[1..], n - 1)))
  }

  /** The C string a field holds: its bytes up to the first NUL, or all of them. */
  function CString(b: seq<Byte>): (r: seq<Byte>)
    ensures 0 !in r && r <= b && (|r| < |b| ==> b[|r|] == 0)
  { if b == [] || b[0] == 0 then [] else [b[0]] + CString(b[1..]) }

  function Cut(name: seq<Byte>, n: nat): seq<Byte> { if |name| <= n then name else name[..n] }

  /** strncmp tells two strings apart within n characters. */
  lemma {:induction false} SameStrings(a: seq<Byte>, b: seq<Byte>, n: nat)
    requires 0 !in a && |b| <= n
    ensures Same(a, b, n) <==> Cut(a, n) == CString(b)
    decreases n
  {
    if n > 0 && a != [] && b != [] && a[0] == b[0] {
      SameStrings(a[1..], b[1..], n - 1);
      assert Cut(a, n) == [a[0]] + Cut(a[1..], n - 1);
      assert CString(b) == [b[0]] + CString(b[1..]);
    } else if n > 0 && a != [] {
      assert Cut(a, n)[0] == a[0] != 0;
    }
  }

  /** The entry at off: inum, little-endian, and the name field. */
  function InumAt(c: seq<Byte>, off: nat): nat
    requires off + 16 <= |c|
  { c[off] as int + 0x100 * (c[off + 1] as int) }

  function FieldAt(c: seq<Byte>, off: nat): seq<Byte>
    requires off + 16 <= |c|
  { c[off + 2..off + 16] }

  /** dirlookup's loop from off on: where the first entry in use with this name is, or behind the last. */
  function FirstEntry(c: seq<Byte>, name: seq<Byte>, off: nat): (r: nat)
    requires off <= |c|
    ensures off <= r <= |c| && (r - off) % 16 == 0
    ensures r + 16 <= |c| ==> InumAt(c, r) != 0 && Same(name, FieldAt(c, r), DIRSIZ)
    ensures forall o :: off <= o < r && (o - off) % 16 == 0 ==> InumAt(c, o) == 0 || !Same(name, FieldAt(c, o), DIRSIZ)
    decreases |c| - off
  {
    if off + 16 > |c| then off
    else if InumAt(c, off) != 0 && Same(name, FieldAt(c, off), DIRSIZ) then off
    else FirstEntry(c, name, off + 16)
  }

  datatype LookupResult = Found(inum: nat, off: nat) | Absent | LookupPanic

  /** One entry of a directory through readi. */
  method ReadEntry(fs: FileSystem, i: nat, off: nat) returns (ok: bool, e: seq<Byte>)
    requires fs.Valid() && i < |fs.ino| && off % 16 == 0 && off < fs.ino[i].size
    modifies fs`disk, fs`ino, fs`owner
    ensures fs.Valid() && fs.Step(i, old(fs.disk), old(fs.ino))
    ensures var c := old(Content(fs.sb, fs.disk, fs.ino, i));
      && (ok ==> off + 16 <= |c| && e == c[off..off + 16])
      && (!ok ==> fs.AllUsed() || |c| % 16 != 0)
      && (|c| % 16 == 0 && old(MappedTo(fs.sb, fs.disk, fs.ino, i, off + 16)) ==>
            ok && fs.disk == old(fs.disk) && fs.ino == old(fs.ino))
  {
    hide Own, Used, ByteAt, Ref, Content, Stepped, Mapped, MappedTo;
    OwnFacts(fs.sb, fs.disk, fs.ino, fs.owner, {}, {});
    var r := fs.Readi(i, off, 16);
    ok, e := r.Bytes? && |r.data| == 16, if r.Bytes? then r.data else [];
  }

  /** dirlookup, on a directory's bytes: sixteen at a time through readi. */
  method DirLookup(fs: FileSystem, i: nat, name: seq<Byte>) returns (r: LookupResult)
    requires fs.Valid() && i < |fs.ino|
    modifies fs
    ensures fs.Valid() && fs.Step(i, old(fs.disk), old(fs.ino)) && fs.dino == old(fs.dino)
    ensures var c := old(Content(fs.sb, fs.disk, fs.ino, i));
      && (r.Found? ==> r.off == FirstEntry(c, name, 0) && r.off + 16 <= |c| && r.inum == InumAt(c, r.off))
      && (r.Absent? ==> FirstEntry(c, name, 0) == |c|)
      && (r.LookupPanic? ==> fs.AllUsed() || |c| % 16 != 0)
      && (|c| % 16 == 0 && old(MappedTo(fs.sb, fs.disk, fs.ino, i, Min(FirstEntry(c, name, 0) + 16, |c|))) ==> !r.LookupPanic?)
  {
    hide Own, Used, ByteAt, Ref, Content, Stepped, Mapped, MappedTo, Same, FirstEntry, Min, Shaped, InumAt;
    OwnFacts(fs.sb, fs.disk, fs.ino, fs.owner, {}, {});
    ghost var d, n, c := fs.disk, fs.ino, Content(fs.sb, fs.disk, fs.ino, i);
    ghost var mapped := |c| % 16 == 0 && MappedTo(fs.sb, d, n, i, Min(FirstEntry(c, name, 0) + 16, |c|));
    ReadNone(fs.sb, fs.disk, fs.ino, i, 0);
    var off := 0;
    while off < fs.ino[i].size
      invariant fs.Valid() && Stepped(fs.sb, d, n, fs.disk, fs.ino, i) && |fs.ino| == |n| && fs.dino == old(fs.dino)
      invariant off % 16 == 0 && fs.ino[i].size == |c| && off < |c| + 16
      invariant off <= |c| ==> FirstEntry(c, name, off) == FirstEntry(c, name, 0)
      invariant |c| % 16 == 0 ==> off <= |c|
      invariant mapped ==> fs.disk == d && fs.ino == n
    {
      ghost var d1, n1 := fs.disk, fs.ino;
      SteppedContent(fs.sb, d, n, fs.disk, fs.ino, i);
      if mapped { EntryMapped(fs.sb, d, n, i, c, name, off); }
      var ok, e := ReadEntry(fs, i, off);
      SteppedOn(fs.sb, d, n, d1, n1, fs.disk, fs.ino, i);
      SteppedContent(fs.sb, d, n, fs.disk, fs.ino, i);
      if !ok {
        return LookupPanic;
      }
      SliceEntry(c, e, off);
      EntryStep(c, name, off);
      if InumAt(e, 0) != 0 && Same(name, FieldAt(e, 0), DIRSIZ) {
        return Found(InumAt(e, 0), off);
      }
      off := off + 16;
    }
    EntryEnd(c, name);
    r := if off == fs.ino[i].size then Absent else LookupPanic;
  }

  lemma {:induction false} SliceEntry(c: seq<Byte>, e: seq<Byte>, off: nat)
    requires off + 16 <= |c| && e == c[off..off + 16]
    ensures InumAt(e, 0) == InumAt(c, off) && FieldAt(e, 0) == FieldAt(c, off)
  {
  }

  lemma {:induction false} EntryStep(c: seq<Byte>, name: seq<Byte>, off: nat)
    requires off + 16 <= |c|
    ensures FirstEntry(c, name, off) ==
      if InumAt(c, off) != 0 && Same(name, FieldAt(c, off), DIRSIZ) then off else FirstEntry(c, name, off + 16)
  {
  }

  lemma {:induction false} EntryMapped(sb: Super, disk: Disk, ino: seq<Node>, i: nat, c: seq<Byte>, name: seq<Byte>, off: nat)
    requires Shaped(sb, disk, ino) && i < |ino| && off < |c| && off % 16 == 0 == |c| % 16
    requires FirstEntry(c, name, off) == FirstEntry(c, name, 0)
    requires MappedTo(sb, disk, ino, i, Min(FirstEntry(c, name, 0) + 16, |c|))
    ensures MappedTo(sb, disk, ino, i, off + 16)
  {
    hide MappedTo, FirstEntry, Shaped;
    MappedLess(sb, disk, ino, i, Min(FirstEntry(c, name, 0) + 16, |c|), off + 16);
  }

  lemma {:induction false} EntryEnd(c: seq<Byte>, name: seq<Byte>)
    ensures FirstEntry(c, name, |c|) == |c|
  {
  }

  // ------------------------------------------------------------- the root of mkfs

  /** An entry mkfs writes is read back. */
  lemma {:induction false} DirentRead(inum: nat, name: seq<Byte>)
    requires inum < 0x1_0000 && 0 !in name
    ensures InumAt(Dirent(inum, name), 0) == inum && CString(FieldAt(Dirent(inum, name), 0)) == Cut(name, DIRSIZ)
  {
    var e := Dirent(inum, name);
    var f := FieldAt(e, 0);
    assert f == if |name| >= 14 then name[..14] else name + seq(14 - |name|, k => 0);
    StringOf(f, Cut(name, DIRSIZ));
  }

  lemma {:induction false} StringOf(f: seq<Byte>, s: seq<Byte>)
    requires 0 !in s && s <= f && (|s| < |f| ==> f[|s|] == 0)
    ensures CString(f) == s
  {
    if s != [] {
      assert f[0] == s[0] && s[0] in s;
      StringOf(f[1..], s[1..]);
    }
  }

  /** Entry t of the root, with the name the host gave it. */
  function EntryName(files: seq<HostFile>, t: nat): seq<Byte>
    requires t < 2 + |files|
  { if t == 0 then [46] else if t == 1 then [46, 46] else DirName(files[t - 2].name) }

  function EntryInum(t: nat): nat { if t < 2 then ROOTINO else t }

  lemma {:induction false} EntriesAt(files: seq<HostFile>, k: nat, t: nat)
    requires k <= |files| < NINODES && t < 2 + k
    ensures 16 * t + 16 <= |Entries(files, k)|
    ensures Entries(files, k)[16 * t..16 * t + 16] == Dirent(EntryInum(t), EntryName(files, t))
    decreases k
  {
    hide Dirent, DirName;
    var e := Entries(files, k);
    if k == 0 {
      assert e == Dirent(ROOTINO, [46]) + Dirent(ROOTINO, [46, 46]);
    } else if t < 1 + k {
      EntriesAt(files, k - 1, t);
      assert e[16 * t..16 * t + 16] == Entries(files, k - 1)[16 * t..16 * t + 16];
    } else {
      assert e[16 * t..16 * t + 16] == Dirent(1 + k, DirName(files[k - 1].name));
    }
  }

  /** The host name of every file is a C string. */
  predicate Strings(files: seq<HostFile>) { forall t :: 0 <= t < |files| ==> 0 !in files[t].name }

  /** What a byte of the root says, entry by entry: the dots, then file t under its host name without
      one leading '_', cut to DIRSIZ, and behind the files nothing. */
  lemma {:induction false} RootEntries(disk: Disk, ino: seq<Node>, owner: map<nat, Pos>, files: seq<HostFile>)
    requires |files| <= NINODES - 2 && Built(disk, ino, owner, files) && Strings(files)
    ensures var c := Content(SB, disk, ino, ROOTINO);
      && |c| % 16 == 0 && 16 * (2 + |files|) <= |c|
      && InumAt(c, 0) == ROOTINO && CString(FieldAt(c, 0)) == [46]
      && InumAt(c, 16) == ROOTINO && CString(FieldAt(c, 16)) == [46, 46]
      && (forall t :: 0 <= t < |files| ==> FileEntry(c, files[t], 2 + t))
      && (forall o :: 16 * (2 + |files|) <= o && o + 16 <= |c| ==> InumAt(c, o) == 0)
  {
    hide Content, Own, Exact, Mapped, FilesIn, NeedFor, Used, FileEntry, Dirent, DirName;
    OwnFacts(SB, disk, ino, owner, {}, {});
    var c := Content(SB, disk, ino, ROOTINO);
    RootEntry(c, files, 0);
    RootEntry(c, files, 1);
    forall t | 0 <= t < |files| ensures FileEntry(c, files[t], 2 + t) {
      RootEntry(c, files, 2 + t);
      NamedEntry(c, files[t], 2 + t);
    }
  }

  /** Entry j is inode j, and its name is the file's. */
  ghost predicate FileEntry(c: seq<Byte>, f: HostFile, j: nat) {
    && 16 * j + 16 <= |c| && InumAt(c, 16 * j) == j
    && (forall x :: f.name == [95] + x ==> CString(FieldAt(c, 16 * j)) == Cut(x, DIRSIZ))
    && (f.name == [] || f.name[0] != 95 ==> CString(FieldAt(c, 16 * j)) == Cut(f.name, DIRSIZ))
  }

  lemma {:induction false} NamedEntry(c: seq<Byte>, f: HostFile, j: nat)
    requires 16 * j + 16 <= |c| && InumAt(c, 16 * j) == j && CString(FieldAt(c, 16 * j)) == Cut(DirName(f.name), DIRSIZ)
    ensures FileEntry(c, f, j)
  {
    forall x | f.name == [95] + x ensures DirName(f.name) == x { assert f.name[1..] == x; }
  }

  lemma {:induction false} RootEntry(c: seq<Byte>, files: seq<HostFile>, t: nat)
    requires |files| <= NINODES - 2 && Strings(files) && t < 2 + |files| && 16 * (2 + |files|) <= |c|
    requires c[..16 * (2 + |files|)] == Entries(files, |files|)
    ensures InumAt(c, 16 * t) == EntryInum(t) && CString(FieldAt(c, 16 * t)) == Cut(EntryName(files, t), DIRSIZ)
  {
    hide Dirent, Entries;
    EntriesAt(files, |files|, t);
    var e := Entries(files, |files|);
    assert c[16 * t..16 * t + 16] == e[16 * t..16 * t + 16];
    NoNul(files, t);
    DirentRead(EntryInum(t), EntryName(files, t));
    SliceEntry(c, c[16 * t..16 * t + 16], 16 * t);
  }

  lemma {:induction false} NoNul(files: seq<HostFile>, t: nat)
    requires Strings(files) && t < 2 + |files|
    ensures 0 !in EntryName(files, t)
  {
    if t >= 2 { assert 0 !in files[t - 2].name; }
  }

  /** The name file f gets. */
  function ShortName(f: HostFile): seq<Byte> { Cut(DirName(f.name), DIRSIZ) }

  /** No entry before that of file t has its name. */
  predicate Leads(files: seq<HostFile>, t: nat)
    requires t < |files|
  {
    && ShortName(files[t]) != [46] && ShortName(files[t]) != [46, 46]
    && forall u :: 0 <= u < t ==> ShortName(files[u]) != ShortName(files[t])
  }

  /** dirlookup in the root finds file t under its name, at its own entry, if and only if no earlier
      entry has that name. */
  lemma {:induction false} FindsFile(disk: Disk, ino: seq<Node>, owner: map<nat, Pos>, files: seq<HostFile>, name: seq<Byte>, t: nat)
    requires |files| <= NINODES - 2 && Built(disk, ino, owner, files) && Strings(files)
    requires t < |files| && 0 !in name && Cut(name, DIRSIZ) == ShortName(files[t])
    ensures var c := Content(SB, disk, ino, ROOTINO); var off := FirstEntry(c, name, 0);
      off <= 16 * (2 + t) && off + 16 <= |c| && InumAt(c, off) < NINODES && (off == 16 * (2 + t) <==> Leads(files, t))
    ensures var c := Content(SB, disk, ino, ROOTINO); MappedTo(SB, disk, ino, ROOTINO, Min(FirstEntry(c, name, 0) + 16, |c|))
  {
    hide Content, Own, Exact, Mapped, MappedTo, FilesIn, NeedFor, Used, Entries, FirstEntry, ShortName, Leads;
    OwnFacts(SB, disk, ino, owner, {}, {});
    FindsIn(Content(SB, disk, ino, ROOTINO), files, name, t);
    RootMapped(disk, ino, files, Min(FirstEntry(Content(SB, disk, ino, ROOTINO), name, 0) + 16, ino[ROOTINO].size));
  }

  lemma {:induction false} RootMapped(disk: Disk, ino: seq<Node>, files: seq<HostFile>, z: nat)
    requires |files| <= NINODES - 2 && Shaped(SB, disk, ino) && |ino| == NINODES
    requires Exact(disk, ino, ROOTINO, 16 * (2 + |files|)) && z <= 16 * (2 + |files|)
    ensures MappedTo(SB, disk, ino, ROOTINO, z)
  {
    hide Ref;
  }

  lemma {:induction false} FindsIn(c: seq<Byte>, files: seq<HostFile>, name: seq<Byte>, t: nat)
    requires |files| <= NINODES - 2 && Strings(files) && 16 * (2 + |files|) <= |c| && c[..16 * (2 + |files|)] == Entries(files, |files|)
    requires t < |files| && 0 !in name && Cut(name, DIRSIZ) == ShortName(files[t])
    ensures FirstEntry(c, name, 0) <= 16 * (2 + t) && InumAt(c, FirstEntry(c, name, 0)) < NINODES
    ensures FirstEntry(c, name, 0) == 16 * (2 + t) <==> Leads(files, t)
  {
    hide Entries, Same, FirstEntry, ShortName, Leads, InumAt, Cut, CString;
    forall j | 0 <= j < 2 + |files| ensures InumAt(c, 16 * j) != 0 {
      RootShort(c, files, j);
    }
    forall j | 0 <= j < 2 + |files| ensures Same(name, FieldAt(c, 16 * j), DIRSIZ) <==> ShortName(files[t]) == ShortEntry(files, j) {
      RootShort(c, files, j);
      SameStrings(name, FieldAt(c, 16 * j), DIRSIZ);
    }
    var j := Leader(files, t);
    FirstIs(c, name, j);
    RootShort(c, files, j);
  }

  /** The first entry with the name of file t. */
  lemma {:induction false} Leader(files: seq<HostFile>, t: nat) returns (j: nat)
    requires t < |files|
    ensures j <= 2 + t && ShortEntry(files, j) == ShortName(files[t]) && (j == 2 + t <==> Leads(files, t))
    ensures forall k :: 0 <= k < j ==> ShortEntry(files, k) != ShortName(files[t])
  {
    hide ShortName;
    j := 0;
    while ShortEntry(files, j) != ShortName(files[t])
      invariant j <= 2 + t
      invariant forall k :: 0 <= k < j ==> ShortEntry(files, k) != ShortName(files[t])
      decreases 2 + t - j
    {
      j := j + 1;
    }
    if j == 2 + t {
      forall u | 0 <= u < t ensures ShortName(files[u]) != ShortName(files[t]) { assert ShortEntry(files, 2 + u) == ShortName(files[u]); }
      assert ShortEntry(files, 0) == [46] && ShortEntry(files, 1) == [46, 46];
    }
  }

  /** The name of entry j of the root. */
  function ShortEntry(files: seq<HostFile>, j: nat): seq<Byte>
    requires j < 2 + |files|
  { if j == 0 then [46] else if j == 1 then [46, 46] else ShortName(files[j - 2]) }

  lemma {:induction false} RootShort(c: seq<Byte>, files: seq<HostFile>, j: nat)
    requires |files| <= NINODES - 2 && Strings(files) && j < 2 + |files| && 16 * (2 + |files|) <= |c|
    requires c[..16 * (2 + |files|)] == Entries(files, |files|)
    ensures InumAt(c, 16 * j) == EntryInum(j) && CString(FieldAt(c, 16 * j)) == ShortEntry(files, j)
  {
    hide Dirent, Entries, DirName;
    RootEntry(c, files, j);
  }

  lemma {:induction false} FirstIs(c: seq<Byte>, name: seq<Byte>, j: nat)
    requires 16 * j + 16 <= |c| && InumAt(c, 16 * j) != 0 && Same(name, FieldAt(c, 16 * j), DIRSIZ)
    requires forall k :: 0 <= k < j ==> !Same(name, FieldAt(c, 16 * k), DIRSIZ)
    ensures FirstEntry(c, name, 0) == 16 * j
  {
    hide Same;
    var r := FirstEntry(c, name, 0);
    assert r == 16 * (r / 16);
    assert r <= 16 * j;
  }

  /** And no other name is found there. */
  lemma {:induction false} FindsNoOther(disk: Disk, ino: seq<Node>, owner: map<nat, Pos>, files: seq<HostFile>, name: seq<Byte>)
    requires |files| <= NINODES - 2 && Built(disk, ino, owner, files) && Strings(files) && 0 !in name
    requires Cut(name, DIRSIZ) != [46] && Cut(name, DIRSIZ) != [46, 46]
    requires forall t :: 0 <= t < |files| ==> Cut(name, DIRSIZ) != ShortName(files[t])
    ensures var c := Content(SB, disk, ino, ROOTINO); FirstEntry(c, name, 0) == |c|
  {
    hide Content, Own, Exact, Mapped, FilesIn, NeedFor, Used, Entries, FirstEntry, ShortName, FileEntry;
    OwnFacts(SB, disk, ino, owner, {}, {});
    RootEntries(disk, ino, owner, files);
    NotIn(Content(SB, disk, ino, ROOTINO), files, name);
  }

  lemma {:induction false} NotIn(c: seq<Byte>, files: seq<HostFile>, name: seq<Byte>)
    requires |files| <= NINODES - 2 && Strings(files) && 16 * (2 + |files|) <= |c| && c[..16 * (2 + |files|)] == Entries(files, |files|)
    requires |c| % 16 == 0 && (forall o :: 16 * (2 + |files|) <= o && o + 16 <= |c| ==> InumAt(c, o) == 0) && 0 !in name
    requires Cut(name, DIRSIZ) != [46] && Cut(name, DIRSIZ) != [46, 46]
    requires forall t :: 0 <= t < |files| ==> Cut(name, DIRSIZ) != ShortName(files[t])
    ensures FirstEntry(c, name, 0) == |c|
  {
    hide Entries, Same, FirstEntry, ShortName, InumAt, Cut, CString;
    var r := FirstEntry(c, name, 0);
    if r + 16 <= |c| {
      var j := r / 16;
      assert r == 16 * j;
      assert j < 2 + |files|;
      RootShort(c, files, j);
      SameStrings(name, FieldAt(c, r), DIRSIZ);
    }
  }
}
