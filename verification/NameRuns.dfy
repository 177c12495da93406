/** A run into a directory without links: create in the directory a process still has as its
    working directory, after it was unlinked. */
module NameRuns {
  import opened Dirs
  import opened FsConsts
  import opened Paths
  import opened Names

  lemma {:induction false} OneName(c: char)
    requires c != '/'
    ensures Components([c]) == [[c]] && Components(['/', c]) == [[c]]
  {
    assert [c] + "" == [c];
    WordFirst([c], "");
    NoneEmpty();
    assert ['/', c][1..] == [c];
    SlashFirst(['/', c]);
  }

  /** A one-element path leads to where it starts. */
  lemma {:induction false} OneTarget(nodes: seq<Inode>, i: nat, c: char)
    requires i < |nodes| && nodes[i].typ == T_DIR
    ensures Target(nodes, i, [[c]], true) == At(i)
  {
    assert [[c]][..0] == [];
  }

  /** The cache holds a few inodes only. */
  lemma {:induction false} NotCrowded(refs: seq<nat>, few: set<nat>)
    requires Held(refs) <= few && |few| <= 3
    ensures !Crowded(refs, 2) && !Crowded(refs, 1)
  {
    assert few == Held(refs) + (few - Held(refs));
  }

  /** Directory d has the dots alone, and inode i is the first free one. */
  ghost predicate Plain(nodes: seq<Inode>, d: nat, up: nat, i: nat) {
    && d < |nodes| && 0 < i < |nodes| && nodes[d].typ == T_DIR && nodes[d].ents == [Entry(d, "."), Entry(up, "..")]
    && d > 0 && up > 0 && nodes[i].typ == 0 && NoFree(nodes, i)
  }

  /** A one-letter name is free in such a directory, and there is room for it. */
  lemma {:induction false} PlainFree(nodes: seq<Inode>, d: nat, up: nat, i: nat, c: char, typ: nat, left: nat)
    requires Plain(nodes, d, up, i) && c != '.' && (typ == T_DIR ==> left > 0)
    ensures Lookup(nodes[d].ents, [c], 0) == 2 == |nodes[d].ents| && Vacant(nodes[d].ents, 0) == 2
    ensures !InTheWay(nodes, d, [c], typ) && !CreateStops(nodes, d, [c], typ, left)
    ensures forall j :: !NamedBy(nodes, d, [c], j)
  {
    assert |[c]| == 1 && [c][0] == c;
    assert [c] != "." && [c] != "..";
  }

  lemma {:induction false} SecondInode(nodes: seq<Inode>, nodes': seq<Inode>, d: nat, up: nat, typ: nat, c: char, i: nat,
                                       j: nat, k: nat)
    requires Plain(nodes, d, up, i) && c != '.' && New(nodes, nodes', d, [c], typ, j, k)
    ensures j == i && k == 2
  {
    PlainFree(nodes, d, up, i, c, typ, 1);
  }

  /** The state after mkdir /d: inode 2, entry 2 of the root. */
  ghost predicate AfterMkdir(n: seq<Inode>) {
    && |n| == 10 && n[1] == Inode(T_DIR, 2, [Entry(1, "."), Entry(1, ".."), Entry(2, "d")])
    && n[2] == Inode(T_DIR, 1, [Entry(2, "."), Entry(1, "..")]) && n[3].typ == 0
  }

  lemma {:induction false} MkdirMade(n0: seq<Inode>, n1: seq<Inode>, i: nat, k: nat)
    requires |n0| == 10 && n0[1] == Inode(T_DIR, 1, [Entry(1, "."), Entry(1, "..")])
    requires forall j :: 0 <= j < 10 && j != 1 ==> n0[j] == Inode(0, 0, [])
    requires New(n0, n1, 1, "d", T_DIR, i, k)
    ensures i == 2 && AfterMkdir(n1)
  {
    assert Plain(n0, 1, 1, 2);
    SecondInode(n0, n1, 1, 1, T_DIR, 'd', 2, i, k);
  }

  /** /d can be unlinked. */
  lemma {:induction false} CanUnlink(n: seq<Inode>)
    requires AfterMkdir(n)
    ensures Removable(n, 1, "d") && Lookup(n[1].ents, "d", 0) == 2
  {
    var ents := n[1].ents;
    assert "d"[0] != "."[0] && |"d"| != |".."|;
    assert ents[2].name == "d" && ents[0].name != "d" && ents[1].name != "d";
  }

  /** Its inode is still in use, without links, and the next inode is free. */
  lemma {:induction false} Unlinked(n1: seq<Inode>, n2: seq<Inode>, refs: seq<nat>, k: nat, i: nat)
    requires AfterMkdir(n1) && Removed(n1, n2, refs, 1, "d", k, i) && refs[2] > 0
    ensures |n2| == 10 && n2[2] == Inode(T_DIR, 0, [Entry(2, "."), Entry(1, "..")]) && Plain(n2, 2, 1, 3)
  {
    CanUnlink(n1);
  }

  /** A new file system, and a process in the root directory. */
  method Start() returns (fs: Namespace, root: nat)
    ensures fresh(fs) && fs.Valid() && root < NINODE == |fs.slots| && fs.slots[root].ref > 0 && Held(fs.refs) <= {1}
    ensures |fs.nodes| == 10 && fs.nodes[1] == Inode(T_DIR, 1, [Entry(1, "."), Entry(1, "..")])
    ensures forall j :: 0 <= j < 10 && j != 1 ==> fs.nodes[j] == Inode(0, 0, [])
  {
    hide RefsOk, Tree, Counts;
    fs := new Namespace(10);
    ghost var r0 := fs.refs;
    var ok;
    ok, root := fs.Iget(ROOTINO);
    assert fs.slots[0].ref == 0 || ok;
    MoreOrphans(fs.nodes, r0, fs.refs, ROOTINO);
  }

  /** mkdir /d, and a pointer to it in slot wd. */
  method Mkdir(fs: Namespace, root: nat) returns (wd: nat)
    requires fs.Valid() && root < NINODE == |fs.slots| && fs.slots[root].ref > 0 && Held(fs.refs) <= {1}
    requires |fs.nodes| == 10 && fs.nodes[1] == Inode(T_DIR, 1, [Entry(1, "."), Entry(1, "..")])
    requires forall j :: 0 <= j < 10 && j != 1 ==> fs.nodes[j] == Inode(0, 0, [])
    modifies fs
    ensures fs.Valid() && root < NINODE == |fs.slots| && fs.slots[root].ref > 0 && Held(fs.refs) <= {1, 2} && AfterMkdir(fs.nodes)
    ensures wd < NINODE && fs.slots[wd].inum == 2 && fs.slots[wd].ref > 0
  {
    hide RefsOk, Tree, Counts, Components, Target, Lookup, Vacant, Crowded, InTheWay, CreateStops, New, NamedBy, AfterMkdir;
    OneName('d');
    assert "/d" == ['/', 'd'];
    NotCrowded(fs.refs, {1});
    ghost var n0, r0 := fs.nodes, fs.refs;
    OneTarget(n0, 1, 'd');
    assert Plain(n0, 1, 1, 2);
    PlainFree(n0, 1, 1, 2, 'd', T_DIR, 1);
    var r;
    ghost var d, i, k;
    r, d, i, k := fs.Create(root, "/d", T_DIR, 1);
    MkdirMade(n0, fs.nodes, i, k);
    wd := r.k;
  }

  /** unlink /d, while slot wd still points to it. */
  method Rmdir(fs: Namespace, root: nat, wd: nat)
    requires fs.Valid() && root < NINODE == |fs.slots| && fs.slots[root].ref > 0
    requires Held(fs.refs) <= {1, 2} && AfterMkdir(fs.nodes)
    requires wd < NINODE && fs.slots[wd].inum == 2 && fs.slots[wd].ref > 0
    modifies fs
    ensures fs.Valid() && |fs.slots| == NINODE && fs.slots[wd].inum == 2 && fs.slots[wd].ref > 0 && Held(fs.refs) <= {1, 2}
    ensures |fs.nodes| == 10 && fs.nodes[2] == Inode(T_DIR, 0, [Entry(2, "."), Entry(1, "..")]) && Plain(fs.nodes, 2, 1, 3)
  {
    hide RefsOk, Tree, Counts, Components, Target, Lookup, Crowded, Removable, Removed, AfterMkdir;
    OneName('d');
    assert "/d" == ['/', 'd'];
    NotCrowded(fs.refs, {1, 2});
    ghost var n1, r1 := fs.nodes, fs.refs;
    fs.SlotRef(wd);
    RootDir(n1);
    OneTarget(n1, 1, 'd');
    CanUnlink(n1);
    var r;
    ghost var d, k, i;
    r, d, k, i := fs.Unlink(root, "/d");
    Unlinked(n1, fs.nodes, r1, k, i);
  }

  lemma {:induction false} RootDir(n: seq<Inode>)
    requires AfterMkdir(n)
    ensures |n| == 10 && n[1].typ == T_DIR
  {
  }

  /** mkdir /d, stay in it, unlink /d, create f: the file is in a directory that nothing names. */
  method CreatesInUnlinked() returns (fs: Namespace, ghost d: nat)
    ensures d < |fs.nodes| && fs.nodes[d].typ == T_DIR && !Live(fs.nodes[d]) && !fs.Valid()
  {
    hide RefsOk, Tree, Counts, Components, Target, Lookup, Vacant, Crowded, InTheWay, CreateStops, New, NamedBy, AfterMkdir,
         Plain;
    var root;
    fs, root := Start();
    var wd := Mkdir(fs, root);
    Rmdir(fs, root, wd);
    OneName('f');
    assert "f" == ['f'];
    NotCrowded(fs.refs, {1, 2});
    ghost var n2 := fs.nodes;
    OneTarget(n2, 2, 'f');
    PlainFree(n2, 2, 1, 3, 'f', T_FILE, 0);
    var r;
    ghost var i, k;
    r, d, i, k := fs.Create(wd, "f", T_FILE, 0);
    DeadStays(n2, fs.nodes, i, k);
  }

  lemma {:induction false} DeadStays(n: seq<Inode>, n': seq<Inode>, i: nat, k: nat)
    requires New(n, n', 2, "f", T_FILE, i, k) && n[2].nlink == 0
    ensures |n'| == |n| && n'[2].typ == T_DIR && n'[2].nlink == 0
  {
  }
}
