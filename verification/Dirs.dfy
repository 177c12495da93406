/** Directories as lists of entries, link counts, and the tree the linked directories form. */
module Dirs {
  import opened FsConsts

  /** struct dirent; inum 0 marks an empty slot. */
  datatype Entry = Entry(inum: nat, name: string)

  /** An inode: type 0 is free. Only directories have entries. */
  datatype Inode = Inode(typ: nat, nlink: nat, ents: seq<Entry>)

  const EMPTY := Entry(0, "")

  predicate Live(n: Inode) { n.typ == T_DIR && n.nlink > 0 }

  // ------------------------------------------------------------- link counts

  function One(e: Entry, i: nat): nat { if e.inum == i && e.name != "." then 1 else 0 }

  /** Entries that name i, other than ".". */
  function CountIn(ents: seq<Entry>, i: nat): nat {
    if ents == [] then 0 else CountIn(ents[..|ents| - 1], i) + One(ents[|ents| - 1], i)
  }

  function Weight(n: Inode, i: nat): nat { if Live(n) then CountIn(n.ents, i) else 0 }

  /** Entries that name i in the linked directories below m. */
  function Total(nodes: seq<Inode>, i: nat, m: nat): nat
    requires m <= |nodes|
  { if m == 0 then 0 else Total(nodes, i, m - 1) + Weight(nodes[m - 1], i) }

  lemma {:induction false} TotalUpdate(nodes: seq<Inode>, d: nat, n: Inode, i: nat, m: nat)
    requires d < |nodes| && m <= |nodes|
    ensures Total(nodes[d := n], i, m) + (if d < m then Weight(nodes[d], i) else 0) ==
            Total(nodes, i, m) + (if d < m then Weight(n, i) else 0)
  {
    if m > 0 { TotalUpdate(nodes, d, n, i, m - 1); }
  }

  lemma {:induction false} CountUpdate(ents: seq<Entry>, k: nat, e: Entry, i: nat)
    requires k < |ents|
    ensures CountIn(ents[k := e], i) + One(ents[k], i) == CountIn(ents, i) + One(e, i)
  {
    var m := |ents| - 1;
    if k < m {
      assert ents[k := e][..m] == ents[..m][k := e];
      CountUpdate(ents[..m], k, e, i);
    } else {
      assert ents[k := e][..m] == ents[..m];
    }
  }

  lemma {:induction false} CountAppend(ents: seq<Entry>, e: Entry, i: nat)
    ensures CountIn(ents + [e], i) == CountIn(ents, i) + One(e, i)
  {
    assert (ents + [e])[..|ents|] == ents;
  }

  lemma {:induction false} CountNone(ents: seq<Entry>, i: nat)
    requires forall k :: 0 <= k < |ents| ==> One(ents[k], i) == 0
    ensures CountIn(ents, i) == 0
  {
    if ents != [] { CountNone(ents[..|ents| - 1], i); }
  }

  lemma {:induction false} TotalNone(nodes: seq<Inode>, i: nat, m: nat)
    requires m <= |nodes| && forall d, k :: 0 <= d < m && Live(nodes[d]) && 0 <= k < |nodes[d].ents| ==> One(nodes[d].ents[k], i) == 0
    ensures Total(nodes, i, m) == 0
  {
    if m > 0 {
      TotalNone(nodes, i, m - 1);
      if Live(nodes[m - 1]) { CountNone(nodes[m - 1].ents, i); }
    }
  }

  lemma {:induction false} CountSome(ents: seq<Entry>, k: nat)
    requires k < |ents| && ents[k].name != "."
    ensures CountIn(ents, ents[k].inum) > 0
  {
    if k < |ents| - 1 { CountSome(ents[..|ents| - 1], k); }
  }

  lemma {:induction false} TotalSome(nodes: seq<Inode>, d: nat, k: nat, m: nat)
    requires d < m <= |nodes| && Live(nodes[d]) && k < |nodes[d].ents| && nodes[d].ents[k].name != "."
    ensures Total(nodes, nodes[d].ents[k].inum, m) > 0
  {
    if d < m - 1 { TotalSome(nodes, d, k, m - 1); } else { CountSome(nodes[d].ents, k); }
  }

  // ---------------------------------------------------------------- the tree

  /** Where a directory hangs: the parent, the parent's entry for it, and how deep. */
  datatype Where = Where(parent: nat, slot: nat, depth: nat)

  /** Entry k of a linked directory d. */
  ghost predicate EntryOk(nodes: seq<Inode>, at: seq<Where>, d: nat, k: nat)
    requires d < |nodes| == |at| && k < |nodes[d].ents|
  {
    var e := nodes[d].ents[k];
    k >= 2 && e.inum != 0 ==>
      && e.inum < |nodes| && e.inum != ROOTINO && nodes[e.inum].typ != 0 && e.name != "." && e.name != ".."
      && (nodes[e.inum].typ == T_DIR ==> Live(nodes[e.inum]) && at[e.inum].parent == d && at[e.inum].slot == k)
  }

  /** A linked directory d: "." names itself, ".." its parent, and the parent's entry for it exists. */
  ghost predicate DirOk(nodes: seq<Inode>, at: seq<Where>, d: nat)
    requires d < |nodes| == |at|
  {
    var w := at[d];
    && d > 0 && w.parent < |nodes| && Live(nodes[w.parent])
    && |nodes[d].ents| >= 2 && nodes[d].ents[0] == Entry(d, ".") && nodes[d].ents[1] == Entry(w.parent, "..")
    && (d == ROOTINO ==> w.parent == ROOTINO && w.depth == 0)
    && (d != ROOTINO ==>
          && w.depth == at[w.parent].depth + 1
          && 2 <= w.slot < |nodes[w.parent].ents| && nodes[w.parent].ents[w.slot].inum == d)
  }

  /** The linked directories form a tree rooted at ROOTINO. */
  ghost predicate Tree(nodes: seq<Inode>, at: seq<Where>) {
    && |at| == |nodes| > ROOTINO && Live(nodes[ROOTINO])
    && (forall d :: 0 <= d < |nodes| && Live(nodes[d]) ==> DirOk(nodes, at, d))
    && (forall d, k :: 0 <= d < |nodes| && Live(nodes[d]) && 0 <= k < |nodes[d].ents| ==> EntryOk(nodes, at, d, k))
    && (forall d :: 0 <= d < |nodes| && nodes[d].typ == T_DIR && !Live(nodes[d]) ==> Bare(nodes[d]))
  }

  /** Nothing but "." and "..". */
  predicate Bare(n: Inode) {
    && |n.ents| >= 2 && n.ents[0].name == "." && n.ents[1].name == ".." && n.ents[0].inum != 0 && n.ents[1].inum != 0
    && forall k :: 2 <= k < |n.ents| ==> n.ents[k].inum == 0
  }

  /** Every allocated inode's link count is the number of entries that name it. */
  ghost predicate Counts(nodes: seq<Inode>) {
    forall i :: 0 < i < |nodes| && nodes[i].typ != 0 ==> nodes[i].nlink == Total(nodes, i, |nodes|)
  }

  /** Following ".." from a linked directory depth times leads to the root. */
  function Ancestor(at: seq<Where>, d: nat, n: nat): nat
    decreases n
  {
    if n == 0 || d >= |at| then d else Ancestor(at, at[d].parent, n - 1)
  }

  lemma {:induction false} TreeReachesRoot(nodes: seq<Inode>, at: seq<Where>, d: nat)
    requires Tree(nodes, at) && d < |nodes| && Live(nodes[d])
    ensures Ancestor(at, d, at[d].depth) == ROOTINO
    decreases at[d].depth
  {
    assert DirOk(nodes, at, d);
    if d != ROOTINO { TreeReachesRoot(nodes, at, at[d].parent); }
  }

  /** One linked directory names a directory, and by one entry. */
  lemma {:induction false} OneParent(nodes: seq<Inode>, at: seq<Where>, d: nat, j: nat, e: nat, k: nat)
    requires Tree(nodes, at) && d < |nodes| && e < |nodes| && Live(nodes[d]) && Live(nodes[e])
    requires 2 <= j < |nodes[d].ents| && 2 <= k < |nodes[e].ents|
    requires nodes[d].ents[j].inum == nodes[e].ents[k].inum != 0
    requires nodes[d].ents[j].inum < |nodes| && nodes[nodes[d].ents[j].inum].typ == T_DIR
    ensures d == e && j == k
  {
    assert EntryOk(nodes, at, d, j) && EntryOk(nodes, at, e, k);
  }

  // -------------------------------------------------------------- operations

  /** An entry stored at k, which may be one past the end. */
  function Put(ents: seq<Entry>, k: nat, e: Entry): seq<Entry>
    requires k <= |ents|
  { if k < |ents| then ents[k := e] else ents + [e] }

  lemma {:induction false} PutAt(ents: seq<Entry>, k: nat, e: Entry)
    requires k <= |ents|
    ensures |Put(ents, k, e)| == (if k < |ents| then |ents| else |ents| + 1)
    ensures forall j :: 0 <= j < |Put(ents, k, e)| ==> Put(ents, k, e)[j] == if j == k then e else ents[j]
  {
  }

  lemma {:induction false} CountPut(ents: seq<Entry>, k: nat, e: Entry, i: nat)
    requires k <= |ents| && i != 0 && (k < |ents| ==> ents[k].inum == 0)
    ensures CountIn(Put(ents, k, e), i) == CountIn(ents, i) + One(e, i)
  {
    if k < |ents| { CountUpdate(ents, k, e, i); } else { CountAppend(ents, e, i); }
  }

  /** A new name for the file i. */
  function AddLink(nodes: seq<Inode>, d: nat, k: nat, i: nat, name: string): seq<Inode>
    requires d < |nodes| && i < |nodes| && i != d && k <= |nodes[d].ents|
  {
    nodes[i := nodes[i].(nlink := nodes[i].nlink + 1)][d := nodes[d].(ents := Put(nodes[d].ents, k, Entry(i, name)))]
  }

  /** A slot of d that an entry may go to. */
  predicate Slot(nodes: seq<Inode>, d: nat, k: nat)
    requires d < |nodes|
  { 2 <= k <= |nodes[d].ents| && (k < |nodes[d].ents| ==> nodes[d].ents[k].inum == 0) }

  lemma {:induction false} AddLinkTree(nodes: seq<Inode>, at: seq<Where>, d: nat, k: nat, i: nat, name: string)
    requires Tree(nodes, at) && d < |nodes| && 0 < i < |nodes| && Live(nodes[d]) && Slot(nodes, d, k)
    requires nodes[i].typ != 0 && nodes[i].typ != T_DIR && name != "." && name != ".."
    ensures Tree(AddLink(nodes, d, k, i, name), at)
  {
    hide Put, DirOk, EntryOk;
    var nodes' := AddLink(nodes, d, k, i, name);
    PutAt(nodes[d].ents, k, Entry(i, name));
    forall e | 0 <= e < |nodes'| && Live(nodes'[e]) ensures DirOk(nodes', at, e) {
      DirStays(nodes, nodes', at, e);
    }
    forall e, j | 0 <= e < |nodes'| && Live(nodes'[e]) && 0 <= j < |nodes'[e].ents| ensures EntryOk(nodes', at, e, j) {
      if e == d && j == k { NewEntry(nodes', at, d, k); } else { EntryStays(nodes, nodes', at, e, j); }
    }
  }

  /** Directories keep their first entries, and entries that were in use. */
  ghost predicate Grown(nodes: seq<Inode>, nodes': seq<Inode>, e: nat)
    requires e < |nodes| == |nodes'|
  {
    && |nodes'[e].ents| >= |nodes[e].ents|
    && forall j :: 0 <= j < |nodes[e].ents| && (j < 2 || nodes[e].ents[j].inum != 0) ==> nodes'[e].ents[j] == nodes[e].ents[j]
  }

  lemma {:induction false} DirStays(nodes: seq<Inode>, nodes': seq<Inode>, at: seq<Where>, e: nat)
    requires e < |nodes| == |nodes'| == |at| && DirOk(nodes, at, e)
    requires forall x :: 0 <= x < |nodes| && Live(nodes[x]) ==> Live(nodes'[x]) && Grown(nodes, nodes', x)
    requires Live(nodes[e])
    ensures DirOk(nodes', at, e)
  {
  }

  lemma {:induction false} EntryStays(nodes: seq<Inode>, nodes': seq<Inode>, at: seq<Where>, e: nat, j: nat)
    requires e < |nodes| == |nodes'| == |at| && j < |nodes[e].ents| && j < |nodes'[e].ents|
    requires EntryOk(nodes, at, e, j) && nodes'[e].ents[j] == nodes[e].ents[j]
    requires forall x :: 0 <= x < |nodes| && nodes[x].typ != 0 ==> nodes'[x].typ == nodes[x].typ && nodes'[x].nlink >= nodes[x].nlink
    ensures EntryOk(nodes', at, e, j)
  {
  }

  lemma {:induction false} NewEntry(nodes: seq<Inode>, at: seq<Where>, d: nat, k: nat)
    requires d < |nodes| == |at| && 2 <= k < |nodes[d].ents|
    requires var e := nodes[d].ents[k];
             && 0 < e.inum < |nodes| && e.inum != ROOTINO && nodes[e.inum].typ != 0 && e.name != "." && e.name != ".."
             && (nodes[e.inum].typ == T_DIR ==> Live(nodes[e.inum]) && at[e.inum].parent == d && at[e.inum].slot == k)
    ensures EntryOk(nodes, at, d, k)
  {
  }

  lemma {:induction false} AddLinkCounts(nodes: seq<Inode>, d: nat, k: nat, i: nat, name: string)
    requires Counts(nodes) && d < |nodes| && 0 < i < |nodes| && i != d && Live(nodes[d]) && Slot(nodes, d, k)
    requires nodes[i].typ != 0 && nodes[i].typ != T_DIR && name != "."
    ensures Counts(AddLink(nodes, d, k, i, name))
  {
    var n1 := nodes[i := nodes[i].(nlink := nodes[i].nlink + 1)];
    var nodes' := AddLink(nodes, d, k, i, name);
    forall x | 0 < x < |nodes'| && nodes'[x].typ != 0 ensures nodes'[x].nlink == Total(nodes', x, |nodes'|) {
      TotalUpdate(nodes, i, n1[i], x, |nodes|);
      TotalUpdate(n1, d, nodes'[d], x, |nodes|);
      CountPut(nodes[d].ents, k, Entry(i, name), x);
    }
  }

  /** A new directory i in d. */
  function AddDir(nodes: seq<Inode>, d: nat, k: nat, i: nat, name: string): seq<Inode>
    requires d < |nodes| && i < |nodes| && i != d && k <= |nodes[d].ents|
  {
    nodes[i := Inode(T_DIR, 1, [Entry(i, "."), Entry(d, "..")])]
         [d := nodes[d].(nlink := nodes[d].nlink + 1, ents := Put(nodes[d].ents, k, Entry(i, name)))]
  }

  lemma {:induction false} AddDirTree(nodes: seq<Inode>, at: seq<Where>, d: nat, k: nat, i: nat, name: string)
    requires Tree(nodes, at) && d < |nodes| && 0 < i < |nodes| && Live(nodes[d]) && Slot(nodes, d, k)
    requires nodes[i].typ == 0 && name != "." && name != ".."
    ensures Tree(AddDir(nodes, d, k, i, name), at[i := Where(d, k, at[d].depth + 1)])
  {
    hide Put, DirOk, EntryOk;
    var nodes', at' := AddDir(nodes, d, k, i, name), at[i := Where(d, k, at[d].depth + 1)];
    PutAt(nodes[d].ents, k, Entry(i, name));
    forall e | 0 <= e < |nodes'| && Live(nodes'[e]) ensures DirOk(nodes', at', e) {
      if e == i {
        NewDirOk(nodes', at', d, k, i);
      } else {
        DirStays(nodes, nodes', at, e);
        AtElsewhere(nodes, nodes', at, at', i, e);
      }
    }
    forall e, j | 0 <= e < |nodes'| && Live(nodes'[e]) && 0 <= j < |nodes'[e].ents| ensures EntryOk(nodes', at', e, j) {
      if e == d && j == k {
        NewEntry(nodes', at', d, k);
      } else if e == i {
        DotEntryOk(nodes', at', e, j);
      } else {
        EntryStays(nodes, nodes', at, e, j);
        EntryElsewhere(nodes, nodes', at, at', i, e, j);
      }
    }
  }

  lemma {:induction false} NewDirOk(nodes: seq<Inode>, at: seq<Where>, d: nat, k: nat, i: nat)
    requires d < |nodes| == |at| && 0 < i < |nodes| && i != ROOTINO && i != d && Live(nodes[d])
    requires at[i] == Where(d, k, at[d].depth + 1) && 2 <= k < |nodes[d].ents| && nodes[d].ents[k].inum == i
    requires nodes[i].ents == [Entry(i, "."), Entry(d, "..")]
    ensures DirOk(nodes, at, i)
  {
  }

  lemma {:induction false} DotEntryOk(nodes: seq<Inode>, at: seq<Where>, e: nat, j: nat)
    requires e < |nodes| == |at| && j < |nodes[e].ents| && j < 2
    ensures EntryOk(nodes, at, e, j)
  {
  }

  /** Where a new directory hangs does not matter to the others. */
  lemma {:induction false} AtElsewhere(nodes: seq<Inode>, nodes': seq<Inode>, at: seq<Where>, at': seq<Where>, i: nat, e: nat)
    requires e < |nodes| == |nodes'| == |at| == |at'| && i < |at| && e != i && DirOk(nodes', at, e) && DirOk(nodes, at, e)
    requires (forall x :: 0 <= x < |at| && x != i ==> at'[x] == at[x]) && !Live(nodes[i])
    ensures DirOk(nodes', at', e)
  {
  }

  lemma {:induction false} EntryElsewhere(nodes: seq<Inode>, nodes': seq<Inode>, at: seq<Where>, at': seq<Where>, i: nat,
                                          e: nat, j: nat)
    requires e < |nodes| == |nodes'| == |at| == |at'| && i < |at| && j < |nodes'[e].ents| && j < |nodes[e].ents|
    requires EntryOk(nodes', at, e, j) && EntryOk(nodes, at, e, j) && nodes'[e].ents[j] == nodes[e].ents[j] && nodes[i].typ == 0
    requires forall x :: 0 <= x < |at| && x != i ==> at'[x] == at[x]
    ensures EntryOk(nodes', at', e, j)
  {
  }

  lemma {:induction false} DotsCount(i: nat, d: nat, x: nat)
    requires i != d
    ensures CountIn([Entry(i, "."), Entry(d, "..")], x) == if x == d then 1 else 0
  {
    var ents := [Entry(i, "."), Entry(d, "..")];
    assert ents[..1] == [Entry(i, ".")] && [Entry(i, ".")][..0] == [];
    CountAppend([Entry(i, ".")], Entry(d, ".."), x);
    CountAppend([], Entry(i, "."), x);
    assert [] + [Entry(i, ".")] == [Entry(i, ".")];
    assert [Entry(i, ".")] + [Entry(d, "..")] == ents;
  }

  lemma {:induction false} AddDirCounts(nodes: seq<Inode>, at: seq<Where>, d: nat, k: nat, i: nat, name: string)
    requires Tree(nodes, at) && Counts(nodes) && d < |nodes| && 0 < i < |nodes| && Live(nodes[d]) && Slot(nodes, d, k)
    requires nodes[i].typ == 0 && name != "."
    ensures Counts(AddDir(nodes, d, k, i, name))
  {
    var n1 := nodes[i := Inode(T_DIR, 1, [Entry(i, "."), Entry(d, "..")])];
    var nodes' := AddDir(nodes, d, k, i, name);
    FreeUnnamed(nodes, at, i);
    forall x | 0 < x < |nodes'| && nodes'[x].typ != 0 ensures nodes'[x].nlink == Total(nodes', x, |nodes'|) {
      TotalUpdate(nodes, i, n1[i], x, |nodes|);
      TotalUpdate(n1, d, nodes'[d], x, |nodes|);
      CountPut(nodes[d].ents, k, Entry(i, name), x);
      DotsCount(i, d, x);
    }
  }

  /** No linked directory names a free inode. */
  lemma {:induction false} FreeUnnamed(nodes: seq<Inode>, at: seq<Where>, i: nat)
    requires Tree(nodes, at) && 0 < i < |nodes| && nodes[i].typ == 0
    ensures Total(nodes, i, |nodes|) == 0
  {
    forall d, k | 0 <= d < |nodes| && Live(nodes[d]) && 0 <= k < |nodes[d].ents| ensures One(nodes[d].ents[k], i) == 0 {
      assert DirOk(nodes, at, d) && EntryOk(nodes, at, d, k);
    }
    TotalNone(nodes, i, |nodes|);
  }

  // ------------------------------------------------------------------ unlink

  /** Entry k of d, which names the file i, is erased. */
  function DropLink(nodes: seq<Inode>, d: nat, k: nat, i: nat): seq<Inode>
    requires d < |nodes| && i < |nodes| && i != d && k < |nodes[d].ents| && nodes[i].nlink > 0
  {
    nodes[d := nodes[d].(ents := nodes[d].ents[k := EMPTY])][i := nodes[i].(nlink := nodes[i].nlink - 1)]
  }

  /** An entry that is in use names something that has links. */
  lemma {:induction false} EntryLinked(nodes: seq<Inode>, at: seq<Where>, d: nat, k: nat)
    requires Tree(nodes, at) && Counts(nodes) && d < |nodes| && Live(nodes[d]) && 2 <= k < |nodes[d].ents|
    requires nodes[d].ents[k].inum != 0
    ensures var i := nodes[d].ents[k].inum; 0 < i < |nodes| && i != ROOTINO && nodes[i].typ != 0 && nodes[i].nlink > 0
  {
    assert EntryOk(nodes, at, d, k);
    TotalSome(nodes, d, k, |nodes|);
  }

  lemma {:induction false} DropLinkTree(nodes: seq<Inode>, at: seq<Where>, d: nat, k: nat, i: nat)
    requires Tree(nodes, at) && d < |nodes| && 0 < i < |nodes| && Live(nodes[d]) && 2 <= k < |nodes[d].ents|
    requires nodes[d].ents[k].inum == i && nodes[i].typ != T_DIR && nodes[i].nlink > 0
    ensures Tree(DropLink(nodes, d, k, i), at)
  {
    hide DirOk, EntryOk;
    var nodes' := DropLink(nodes, d, k, i);
    forall e | 0 <= e < |nodes'| && Live(nodes'[e]) ensures DirOk(nodes', at, e) {
      DropLinkDir(nodes, at, d, k, i, e);
    }
    forall e, j | 0 <= e < |nodes'| && Live(nodes'[e]) && 0 <= j < |nodes'[e].ents| ensures EntryOk(nodes', at, e, j) {
      DropLinkEntry(nodes, at, d, k, i, e, j);
    }
  }

  lemma {:induction false} DropLinkDir(nodes: seq<Inode>, at: seq<Where>, d: nat, k: nat, i: nat, e: nat)
    requires e < |nodes| == |at| && d < |nodes| && i < |nodes| && i != d && 2 <= k < |nodes[d].ents| && nodes[d].ents[k].inum == i
    requires nodes[i].typ != T_DIR && nodes[i].nlink > 0 && Live(nodes[e]) && DirOk(nodes, at, e)
    ensures DirOk(DropLink(nodes, d, k, i), at, e)
  {
  }

  lemma {:induction false} DropLinkEntry(nodes: seq<Inode>, at: seq<Where>, d: nat, k: nat, i: nat, e: nat, j: nat)
    requires e < |nodes| == |at| && d < |nodes| && i < |nodes| && i != d && 2 <= k < |nodes[d].ents|
    requires nodes[i].typ != T_DIR && nodes[i].nlink > 0 && Live(nodes[e]) && j < |nodes[e].ents| && EntryOk(nodes, at, e, j)
    ensures EntryOk(DropLink(nodes, d, k, i), at, e, j)
  {
  }

  lemma {:induction false} DropLinkCounts(nodes: seq<Inode>, d: nat, k: nat, i: nat)
    requires Counts(nodes) && d < |nodes| && 0 < i < |nodes| && i != d && Live(nodes[d]) && k < |nodes[d].ents|
    requires nodes[d].ents[k].inum == i && nodes[d].ents[k].name != "."
    requires nodes[i].typ != T_DIR && nodes[i].nlink > 0
    ensures Counts(DropLink(nodes, d, k, i))
  {
    var n1 := nodes[d := nodes[d].(ents := nodes[d].ents[k := EMPTY])];
    var nodes' := DropLink(nodes, d, k, i);
    forall x | 0 < x < |nodes'| && nodes'[x].typ != 0 ensures nodes'[x].nlink == Total(nodes', x, |nodes'|) {
      TotalUpdate(nodes, d, n1[d], x, |nodes|);
      TotalUpdate(n1, i, nodes'[i], x, |nodes|);
      CountUpdate(nodes[d].ents, k, EMPTY, x);
    }
  }

  /** Entry k of d, which names the empty directory i, is erased. */
  function DropDir(nodes: seq<Inode>, d: nat, k: nat, i: nat): seq<Inode>
    requires d < |nodes| && i < |nodes| && i != d && k < |nodes[d].ents| && nodes[i].nlink > 0 && nodes[d].nlink > 0
  {
    nodes[d := nodes[d].(nlink := nodes[d].nlink - 1, ents := nodes[d].ents[k := EMPTY])]
         [i := nodes[i].(nlink := nodes[i].nlink - 1)]
  }

  /** No linked directory hangs below a bare one. */
  lemma {:induction false} BareChildless(nodes: seq<Inode>, at: seq<Where>, i: nat, c: nat)
    requires Tree(nodes, at) && i < |nodes| && Bare(nodes[i]) && c < |nodes| && Live(nodes[c]) && c != ROOTINO
    ensures at[c].parent != i
  {
    assert DirOk(nodes, at, c);
  }

  lemma {:induction false} RootParent(nodes: seq<Inode>, at: seq<Where>)
    requires Tree(nodes, at)
    ensures at[ROOTINO].parent == ROOTINO
  {
    assert DirOk(nodes, at, ROOTINO);
  }

  /** An empty directory has one link: its parent's entry. */
  lemma {:induction false} BareOneLink(nodes: seq<Inode>, at: seq<Where>, d: nat, k: nat, i: nat)
    requires Tree(nodes, at) && Counts(nodes) && d < |nodes| && 0 < i < |nodes| && Live(nodes[d]) && 2 <= k < |nodes[d].ents|
    requires nodes[d].ents[k].inum == i && nodes[i].typ == T_DIR && Bare(nodes[i])
    ensures i != d && i != ROOTINO && nodes[i].nlink == 1 && at[i].parent == d && at[i].slot == k
  {
    assert EntryOk(nodes, at, d, k) && DirOk(nodes, at, i);
    BareChildless(nodes, at, i, i);
    var n1 := nodes[d := nodes[d].(ents := nodes[d].ents[k := EMPTY])];
    hide DirOk, EntryOk, Bare;
    forall e, j | 0 <= e < |n1| && Live(n1[e]) && 0 <= j < |n1[e].ents| ensures One(n1[e].ents[j], i) == 0 {
      if e != ROOTINO { BareChildless(nodes, at, i, e); }
      if !(e == d && j == k) { NamedOnce(nodes, at, d, k, i, e, j); }
    }
    TotalNone(n1, i, |n1|);
    TotalUpdate(nodes, d, n1[d], i, |nodes|);
    CountUpdate(nodes[d].ents, k, EMPTY, i);
  }

  /** The directory i has one entry, (d, k), besides dots and the ".." of its children. */
  lemma {:induction false} NamedOnce(nodes: seq<Inode>, at: seq<Where>, d: nat, k: nat, i: nat, e: nat, j: nat)
    requires e < |nodes| == |at| && 0 < i < |nodes| && j < |nodes[e].ents|
    requires Live(nodes[e]) && DirOk(nodes, at, e) && EntryOk(nodes, at, e, j)
    requires nodes[i].typ == T_DIR && at[i].parent == d && at[i].slot == k && i != ROOTINO && !(e == d && j == k)
    requires e != ROOTINO ==> at[e].parent != i
    ensures One(nodes[e].ents[j], i) == 0
  {
  }

  lemma {:induction false} BareCount(ents: seq<Entry>, x: nat)
    requires |ents| >= 2 && ents[0].name == "." && ents[1].name != "." && x != 0
    requires forall k :: 2 <= k < |ents| ==> ents[k].inum == 0
    ensures CountIn(ents, x) == if ents[1].inum == x then 1 else 0
  {
    if |ents| == 2 {
      assert ents[..1][..0] == [];
      assert CountIn(ents[..1], x) == CountIn(ents[..1][..0], x) + One(ents[..1][0], x);
    } else {
      BareCount(ents[..|ents| - 1], x);
    }
  }

  lemma {:induction false} DropDirCounts(nodes: seq<Inode>, at: seq<Where>, d: nat, k: nat, i: nat)
    requires Tree(nodes, at) && Counts(nodes) && d < |nodes| && 0 < i < |nodes| && Live(nodes[d]) && 2 <= k < |nodes[d].ents|
    requires nodes[d].ents[k].inum == i && nodes[i].typ == T_DIR && Bare(nodes[i])
    ensures i != d && nodes[i].nlink == 1 && Counts(DropDir(nodes, d, k, i)) && Live(DropDir(nodes, d, k, i)[d])
  {
    BareOneLink(nodes, at, d, k, i);
    DirLinks(nodes, at, d, i);
    assert EntryOk(nodes, at, d, k) && DirOk(nodes, at, i);
    hide DirOk, EntryOk, Tree;
    var nodes' := DropDir(nodes, d, k, i);
    forall x | 0 < x < |nodes'| && nodes'[x].typ != 0 ensures nodes'[x].nlink == Total(nodes', x, |nodes'|) {
      DropDirTotal(nodes, d, k, i, x);
    }
  }

  lemma {:induction false} DropDirTotal(nodes: seq<Inode>, d: nat, k: nat, i: nat, x: nat)
    requires d < |nodes| && 0 < i < |nodes| && i != d && nodes[d].nlink >= 2 && Live(nodes[d]) && 2 <= k < |nodes[d].ents|
    requires nodes[d].ents[k].inum == i && nodes[d].ents[k].name != "."
    requires nodes[i].typ == T_DIR && nodes[i].nlink == 1 && Bare(nodes[i])
    requires nodes[i].ents[1].inum == d && x != 0
    ensures Total(DropDir(nodes, d, k, i), x, |nodes|) + (if x == i then 1 else 0) + (if x == d then 1 else 0) == Total(nodes, x, |nodes|)
  {
    var n1 := nodes[d := nodes[d].(nlink := nodes[d].nlink - 1, ents := nodes[d].ents[k := EMPTY])];
    TotalUpdate(nodes, d, n1[d], x, |nodes|);
    TotalUpdate(n1, i, DropDir(nodes, d, k, i)[i], x, |nodes|);
    CountUpdate(nodes[d].ents, k, EMPTY, x);
    BareCount(nodes[i].ents, x);
  }

  /** A directory with a subdirectory has at least two links. */
  lemma {:induction false} DirLinks(nodes: seq<Inode>, at: seq<Where>, d: nat, i: nat)
    requires Tree(nodes, at) && Counts(nodes) && d < |nodes| && i < |nodes| && Live(nodes[d]) && Live(nodes[i])
    requires i != ROOTINO && at[i].parent == d && i != d
    ensures nodes[d].nlink >= 2
  {
    assert DirOk(nodes, at, d) && DirOk(nodes, at, i);
    var p, j := at[d].parent, if d == ROOTINO then 1 else at[d].slot;
    assert EntryOk(nodes, at, p, j);
    var n1 := nodes[i := nodes[i].(nlink := 0)];
    TotalUpdate(nodes, i, n1[i], d, |nodes|);
    CountSome(nodes[i].ents, 1);
    if p != i {
      TotalSome(n1, p, j, |nodes|);
    } else {
      NoTwoCycle(nodes, at, d, i);
    }
  }

  /** Parents are strictly less deep, so no directory is its grandparent's parent. */
  lemma {:induction false} NoTwoCycle(nodes: seq<Inode>, at: seq<Where>, d: nat, i: nat)
    requires Tree(nodes, at) && d < |nodes| && i < |nodes| && Live(nodes[d])
    requires Live(nodes[i]) && i != ROOTINO && at[i].parent == d
    ensures at[d].parent != i
  {
    assert DirOk(nodes, at, d) && DirOk(nodes, at, i);
  }

  lemma {:induction false} DropDirTree(nodes: seq<Inode>, at: seq<Where>, d: nat, k: nat, i: nat)
    requires Tree(nodes, at) && Counts(nodes) && d < |nodes| && 0 < i < |nodes| && Live(nodes[d]) && 2 <= k < |nodes[d].ents|
    requires nodes[d].ents[k].inum == i && nodes[i].typ == T_DIR && Bare(nodes[i])
    ensures i != d && nodes[i].nlink == 1 && Tree(DropDir(nodes, d, k, i), at)
  {
    hide DirOk, EntryOk;
    BareOneLink(nodes, at, d, k, i);
    DropDirCounts(nodes, at, d, k, i);
    var nodes' := DropDir(nodes, d, k, i);
    forall e | 0 <= e < |nodes'| && Live(nodes'[e]) ensures DirOk(nodes', at, e) {
      if e != ROOTINO { BareChildless(nodes, at, i, e); } else { RootParent(nodes, at); }
      DropDirDir(nodes, at, d, k, i, e);
    }
    forall e, j | 0 <= e < |nodes'| && Live(nodes'[e]) && 0 <= j < |nodes'[e].ents| ensures EntryOk(nodes', at, e, j) {
      DropDirEntry(nodes, at, d, k, i, e, j);
    }
  }

  lemma {:induction false} DropDirDir(nodes: seq<Inode>, at: seq<Where>, d: nat, k: nat, i: nat, e: nat)
    requires e < |nodes| == |at| && d < |nodes| && 0 < i < |nodes| && 2 <= k < |nodes[d].ents| && nodes[d].ents[k].inum == i
    requires i != d && nodes[i].nlink == 1 && nodes[d].nlink > 0 && Live(DropDir(nodes, d, k, i)[d])
    requires Live(nodes[e]) && e != i && DirOk(nodes, at, e) && at[e].parent != i
    ensures DirOk(DropDir(nodes, d, k, i), at, e)
  {
  }

  lemma {:induction false} DropDirEntry(nodes: seq<Inode>, at: seq<Where>, d: nat, k: nat, i: nat, e: nat, j: nat)
    requires e < |nodes| == |at| && d < |nodes| && 0 < i < |nodes| && 2 <= k < |nodes[d].ents| && nodes[d].ents[k].inum == i
    requires i != d && nodes[i].typ == T_DIR && nodes[i].nlink == 1 && nodes[d].nlink > 0 && Live(DropDir(nodes, d, k, i)[d])
    requires j < |nodes[e].ents| && e != i && EntryOk(nodes, at, e, j) && at[i].parent == d && at[i].slot == k
    ensures EntryOk(DropDir(nodes, d, k, i), at, e, j)
  {
  }

  /** iput's last act on an inode without links. */
  function Freed(nodes: seq<Inode>, i: nat): seq<Inode>
    requires i < |nodes|
  { nodes[i := Inode(0, 0, [])] }

  lemma {:induction false} FreedKeeps(nodes: seq<Inode>, at: seq<Where>, i: nat)
    requires Tree(nodes, at) && Counts(nodes) && 0 < i < |nodes| && nodes[i].typ != 0 && nodes[i].nlink == 0
    ensures Tree(Freed(nodes, i), at) && Counts(Freed(nodes, i))
  {
    hide DirOk, EntryOk;
    var nodes' := Freed(nodes, i);
    forall e | 0 <= e < |nodes'| && Live(nodes'[e]) ensures DirOk(nodes', at, e) {
      FreedDir(nodes, at, i, e);
    }
    forall e, j | 0 <= e < |nodes'| && Live(nodes'[e]) && 0 <= j < |nodes'[e].ents| ensures EntryOk(nodes', at, e, j) {
      if j >= 2 && nodes[e].ents[j].inum != 0 { EntryLinked(nodes, at, e, j); }
      FreedEntry(nodes, at, i, e, j);
    }
    forall x | 0 < x < |nodes'| && nodes'[x].typ != 0 ensures nodes'[x].nlink == Total(nodes', x, |nodes'|) {
      TotalUpdate(nodes, i, nodes'[i], x, |nodes|);
    }
  }

  lemma {:induction false} FreedDir(nodes: seq<Inode>, at: seq<Where>, i: nat, e: nat)
    requires e < |nodes| == |at| && i < |nodes| && nodes[i].nlink == 0 && e != i && DirOk(nodes, at, e)
    ensures DirOk(Freed(nodes, i), at, e)
  {
  }

  lemma {:induction false} FreedEntry(nodes: seq<Inode>, at: seq<Where>, i: nat, e: nat, j: nat)
    requires e < |nodes| == |at| && i < |nodes| && e != i && j < |nodes[e].ents| && EntryOk(nodes, at, e, j)
    requires j >= 2 && nodes[e].ents[j].inum != 0 ==> nodes[e].ents[j].inum != i
    ensures EntryOk(Freed(nodes, i), at, e, j)
  {
  }

  /** A new entry in a directory without links breaks the count: nothing linked names the file. */
  lemma {:induction false} DeadParentBreaks(nodes: seq<Inode>, at: seq<Where>, d: nat, k: nat, i: nat, name: string)
    requires Tree(nodes, at) && Counts(nodes) && d < |nodes| && 0 < i < |nodes| && !Live(nodes[d]) && nodes[d].typ == T_DIR
    requires Slot(nodes, d, k) && nodes[i].typ != 0 && nodes[i].typ != T_DIR
    ensures !Counts(AddLink(nodes, d, k, i, name))
  {
    var n1 := nodes[i := nodes[i].(nlink := nodes[i].nlink + 1)];
    var nodes' := AddLink(nodes, d, k, i, name);
    TotalUpdate(nodes, i, n1[i], i, |nodes|);
    TotalUpdate(n1, d, nodes'[d], i, |nodes|);
    assert nodes'[i].nlink == Total(nodes', i, |nodes'|) + 1;
  }

  /** A new directory in a directory without links hangs loose: its parent is linked again, but from nowhere. */
  lemma {:induction false} DeadParentLoose(nodes: seq<Inode>, at: seq<Where>, d: nat, k: nat, i: nat, name: string,
                                           at': seq<Where>)
    requires Tree(nodes, at) && 0 < d < |nodes| && 0 < i < |nodes| && !Live(nodes[d]) && nodes[d].typ == T_DIR
    requires Slot(nodes, d, k) && nodes[i].typ == 0
    ensures !Tree(AddDir(nodes, d, k, i, name), at')
  {
    var nodes' := AddDir(nodes, d, k, i, name);
    PutAt(nodes[d].ents, k, Entry(i, name));
    forall p, j | 0 <= p < |nodes'| && Live(nodes'[p]) && 2 <= j < |nodes'[p].ents| ensures nodes'[p].ents[j].inum != d {
      if p != d && p != i { assert EntryOk(nodes, at, p, j); }
    }
    assert Live(nodes'[d]) && d != ROOTINO;
  }
}
