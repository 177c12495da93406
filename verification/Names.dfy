/** The inode cache and path lookup of fs.c, and link, unlink and create of sysfile.c. */
module Names {
  import opened Dirs
  import opened FsConsts
  import opened Paths

  const NINODE := 50

  /** A slot of the inode cache: which inode, how many pointers to it, and whether it was read in. */
  datatype Cached = Cached(inum: nat, ref: nat, valid: bool)

  ghost predicate InCache(slots: seq<Cached>, i: nat) {
    exists k :: 0 <= k < |slots| && slots[k].ref > 0 && slots[k].inum == i
  }

  /** refs counts the pointers to each inode, and no inode has two slots. */
  ghost predicate RefsOk(slots: seq<Cached>, refs: seq<nat>) {
    && (forall k :: 0 <= k < |slots| && slots[k].ref > 0 ==> slots[k].inum < |refs| && refs[slots[k].inum] == slots[k].ref)
    && (forall j, k :: 0 <= j < k < |slots| && slots[j].ref > 0 && slots[k].ref > 0 ==> slots[j].inum != slots[k].inum)
    && (forall i :: 0 <= i < |refs| && refs[i] > 0 ==> InCache(slots, i))
  }

  /** Slots in use stay where they are and lose no pointer. */
  ghost predicate Stay(slots: seq<Cached>, slots': seq<Cached>) {
    && |slots'| == |slots|
    && forall j :: 0 <= j < |slots| && slots[j].ref > 0 ==> slots'[j].inum == slots[j].inum && slots'[j].ref >= slots[j].ref
  }

  /** Every inode in use has a link or a pointer. */
  ghost predicate Pinned(nodes: seq<Inode>, refs: seq<nat>)
    requires |refs| == |nodes|
  { forall i :: 0 <= i < |nodes| && nodes[i].typ != 0 && nodes[i].nlink == 0 ==> refs[i] > 0 }

  // --------------------------------------------------------------- lookups

  /** The first entry from k on that has this name. */
  function Lookup(ents: seq<Entry>, name: string, k: nat): (r: nat)
    requires k <= |ents|
    ensures k <= r <= |ents| && (r < |ents| ==> ents[r].inum != 0 && ents[r].name == name)
    ensures forall j :: k <= j < r ==> ents[j].inum == 0 || ents[j].name != name
    decreases |ents| - k
  { if k == |ents| || (ents[k].inum != 0 && ents[k].name == name) then k else Lookup(ents, name, k + 1) }

  /** The first empty entry from k on. */
  function Vacant(ents: seq<Entry>, k: nat): (r: nat)
    requires k <= |ents|
    ensures k <= r <= |ents| && (r < |ents| ==> ents[r].inum == 0)
    ensures forall j :: k <= j < r ==> ents[j].inum != 0
    decreases |ents| - k
  { if k == |ents| || ents[k].inum == 0 then k else Vacant(ents, k + 1) }

  /** An inode, no such path, or an inode that is not in use. */
  datatype Walked = At(i: nat) | Missing | NoType

  /** The fold of directory lookup over a list of names. */
  function Walk(nodes: seq<Inode>, i: nat, comps: seq<string>): Walked
    decreases |comps|
  {
    if comps == [] then At(i)
    else if i >= |nodes| || nodes[i].typ == 0 then NoType
    else if nodes[i].typ != T_DIR then Missing
    else
      var k := Lookup(nodes[i].ents, comps[0], 0);
      if k == |nodes[i].ents| then Missing else Walk(nodes, nodes[i].ents[k].inum, comps[1..])
  }

  /** What namei, or nameiparent, should find. */
  function Target(nodes: seq<Inode>, i: nat, comps: seq<string>, parent: bool): Walked {
    if !parent then Walk(nodes, i, comps)
    else if comps == [] then Missing
    else
      match Walk(nodes, i, comps[..|comps| - 1])
      case At(j) =>
        if j >= |nodes| || nodes[j].typ == 0 then NoType else if nodes[j].typ != T_DIR then Missing else At(j)
      case Missing => Missing
      case NoType => NoType
  }

  /** One step of namex. */
  lemma {:induction false} TargetStep(nodes: seq<Inode>, i: nat, comps: seq<string>, parent: bool)
    requires comps != [] && (parent ==> |comps| > 1) && i < |nodes|
    ensures nodes[i].typ == 0 ==> Target(nodes, i, comps, parent) == NoType
    ensures nodes[i].typ != 0 && nodes[i].typ != T_DIR ==> Target(nodes, i, comps, parent) == Missing
    ensures nodes[i].typ == T_DIR ==>
      var k := Lookup(nodes[i].ents, comps[0], 0);
      if k == |nodes[i].ents| then Target(nodes, i, comps, parent) == Missing
      else Target(nodes, i, comps, parent) == Target(nodes, nodes[i].ents[k].inum, comps[1..], parent)
  {
    if parent {
      var init := comps[..|comps| - 1];
      assert init[0] == comps[0] && init[1..] == comps[1..][..|comps| - 2];
    }
  }

  /** A walk along two stretches of a path is one walk after the other. */
  lemma {:induction false} WalkJoin(nodes: seq<Inode>, i: nat, a: seq<string>, b: seq<string>)
    ensures Walk(nodes, i, a + b) == var w := Walk(nodes, i, a); if w.At? then Walk(nodes, w.i, b) else w
    decreases |a|
  {
    if a == [] {
      assert a + b == b;
    } else {
      assert (a + b)[0] == a[0] && (a + b)[1..] == a[1..] + b;
      if i < |nodes| && nodes[i].typ == T_DIR {
        var k := Lookup(nodes[i].ents, a[0], 0);
        if k < |nodes[i].ents| { WalkJoin(nodes, nodes[i].ents[k].inum, a[1..], b); }
      }
    }
  }

  /** One element: what the name stands for in a directory. */
  lemma {:induction false} WalkOne(nodes: seq<Inode>, i: nat, name: string)
    requires i < |nodes|
    ensures Walk(nodes, i, [name]) ==
      if nodes[i].typ == 0 then NoType
      else if nodes[i].typ != T_DIR || Resolves(nodes, i, name) == 0 then Missing
      else At(Resolves(nodes, i, name))
  {
    assert [name][1..] == [];
  }

  /** From a linked directory, every directory a path leads to is linked. */
  lemma {:induction false} WalkLive(nodes: seq<Inode>, at: seq<Where>, i: nat, comps: seq<string>)
    requires Tree(nodes, at) && i < |nodes| && (nodes[i].typ == T_DIR ==> Live(nodes[i]))
    ensures var w := Walk(nodes, i, comps); w.At? && w.i < |nodes| && nodes[w.i].typ == T_DIR ==> Live(nodes[w.i])
    ensures var w := Walk(nodes, i, comps); w.At? ==> w.i < |nodes|
    decreases |comps|
  {
    if comps != [] && nodes[i].typ == T_DIR {
      var k := Lookup(nodes[i].ents, comps[0], 0);
      if k < |nodes[i].ents| {
        assert DirOk(nodes, at, i) && EntryOk(nodes, at, i, k);
        WalkLive(nodes, at, nodes[i].ents[k].inum, comps[1..]);
      }
    }
  }

  datatype NameResult = Found(k: nat) | NotFound | NamePanic

  class Namespace {
    var nodes: seq<Inode>
    var slots: seq<Cached>
    ghost var refs: seq<nat>
    ghost var at: seq<Where>

    /** The cache part of the invariant. */
    ghost predicate CacheOk()
      reads `nodes, `slots, `refs
    {
      && |slots| == NINODE && |refs| == |nodes| && RefsOk(slots, refs)
      && (forall k :: 0 <= k < |slots| && slots[k].ref > 0 && slots[k].valid ==>
            slots[k].inum < |nodes| && nodes[slots[k].inum].typ != 0)
      && (forall d, k :: 0 <= d < |nodes| && 0 <= k < |nodes[d].ents| ==> nodes[d].ents[k].inum < |nodes|)
      && |nodes| > ROOTINO && nodes[0].typ == 0
    }

    /** An inode in use has a link or a pointer. */
    ghost predicate Orphans()
      requires |refs| == |nodes|
      reads this
    { Pinned(nodes, refs) }

    ghost predicate Valid()
      reads this
    { CacheOk() && Orphans() && Tree(nodes, at) && Counts(nodes) }

    /** A file system with an empty root directory and an empty cache. */
    constructor (ninodes: nat)
      requires ninodes > ROOTINO
      ensures Valid() && |nodes| == ninodes && refs == seq(ninodes, i => 0)
      ensures nodes[ROOTINO] == Inode(T_DIR, 1, [Entry(ROOTINO, "."), Entry(ROOTINO, "..")])
      ensures forall i :: 0 <= i < ninodes && i != ROOTINO ==> nodes[i] == Inode(0, 0, [])
      ensures forall k :: 0 <= k < |slots| ==> slots[k].ref == 0
    {
      nodes := seq(ninodes, i => if i == ROOTINO then Inode(T_DIR, 1, [Entry(ROOTINO, "."), Entry(ROOTINO, "..")]) else Inode(0, 0, []));
      slots := seq(NINODE, k => Cached(0, 0, false));
      refs := seq(ninodes, i => 0);
      at := seq(ninodes, i => Where(ROOTINO, 0, 0));
      new;
      EmptyRoot(nodes, at);
    }

    /** What path lookup relies on. */
    ghost predicate Usable()
      reads this
    { CacheOk() && Orphans() && nodes[ROOTINO].typ != 0 }

    /** iget; false is the panic "no inodes". */
    method Iget(inum: nat) returns (ok: bool, k: nat)
      requires CacheOk() && inum < |nodes|
      modifies `slots, `refs
      ensures CacheOk() && Stay(old(slots), slots)
      ensures ok <==> old(refs)[inum] > 0 || exists j :: 0 <= j < NINODE && old(slots)[j].ref == 0
      ensures !ok ==> slots == old(slots) && refs == old(refs) && Crowded(refs, 0)
      ensures ok ==> k < NINODE && slots[k].inum == inum && slots[k].ref > 0 && refs == old(refs)[inum := old(refs)[inum] + 1]
      ensures ok && old(refs)[inum] == 0 ==> !slots[k].valid
    {
      hide RefsOk;
      var empty := NINODE;
      k := 0;
      while k < NINODE
        invariant 0 <= k <= NINODE && 0 <= empty <= NINODE
        invariant forall j :: 0 <= j < k ==> !(slots[j].ref > 0 && slots[j].inum == inum)
        invariant if empty == NINODE then forall j :: 0 <= j < k ==> slots[j].ref > 0 else empty < k && slots[empty].ref == 0
      {
        if slots[k].ref > 0 && slots[k].inum == inum {
          CacheHit(slots, refs, k);
          slots := slots[k := slots[k].(ref := slots[k].ref + 1)];
          refs := refs[inum := refs[inum] + 1];
          return true, k;
        }
        if empty == NINODE && slots[k].ref == 0 {
          empty := k;
        }
        k := k + 1;
      }
      NotCached(slots, refs, inum);
      if empty == NINODE {
        FullCrowded(slots, refs);
        return false, k;
      }
      k := empty;
      CacheMiss(slots, refs, k, inum);
      slots := slots[k := Cached(inum, 1, false)];
      refs := refs[inum := 1];
      ok := true;
    }
  
    /** ilock; false is the panic "no type". */
    method Ilock(k: nat) returns (ok: bool)
      requires CacheOk() && k < NINODE && slots[k].ref > 0
      modifies `slots
      ensures |slots| == NINODE && slots[k].inum == old(slots)[k].inum < |nodes| && (ok <==> nodes[slots[k].inum].typ != 0)
      ensures ok ==> CacheOk() && Stay(old(slots), slots) && slots == old(slots)[k := old(slots)[k].(valid := true)]
    {
      hide RefsOk;
      CacheHit(slots, refs, k);
      if !slots[k].valid {
        CacheMark(slots, refs, k);
        slots := slots[k := slots[k].(valid := true)];
        ok := nodes[slots[k].inum].typ != 0;
      } else {
        ok := true;
      }
    }

    /** iput: an inode that loses its last pointer and has no links is freed. */
    method Iput(k: nat)
      requires CacheOk() && k < NINODE && slots[k].ref > 0
      modifies `nodes, `slots, `refs
      ensures CacheOk() && |nodes| == |old(nodes)|
      ensures var s := old(slots)[k];
        && s.inum < |old(nodes)| && old(refs)[s.inum] == s.ref
        && refs == old(refs)[s.inum := s.ref - 1]
        && (forall j :: 0 <= j < NINODE && j != k ==> slots[j] == old(slots)[j])
        && slots[k].inum == s.inum && slots[k].ref == s.ref - 1
        && nodes == if s.ref == 1 && s.valid && old(nodes)[s.inum].nlink == 0 then Freed(old(nodes), s.inum) else old(nodes)
      ensures forall j :: 0 <= j < |nodes| && nodes[j] != old(nodes)[j] ==>
        j == old(slots)[k].inum && old(slots)[k].ref == 1 && nodes[j].typ == 0 && nodes[j].ents == []
      ensures old(Valid()) ==> var s, n := old(slots)[k], old(nodes)[old(slots)[k].inum];
        (Valid() <==> s.ref > 1 || s.valid || n.nlink > 0 || n.typ == 0)
    {
      hide RefsOk, Tree, Counts;
      CacheHit(slots, refs, k);
      if Valid() { PutKeeps(nodes, at, refs, slots[k]); }
      CacheDrop(slots, refs, k);
      OneSlot(slots, refs, k);
      var i := slots[k].inum;
      if slots[k].ref == 1 && slots[k].valid && nodes[i].nlink == 0 {
        nodes := Freed(nodes, i);
        slots := slots[k := Cached(i, 0, false)];
      } else {
        slots := slots[k := slots[k].(ref := slots[k].ref - 1)];
      }
      refs := refs[i := refs[i] - 1];
    }

    /** dirlookup's loop. */
    static method FindEntry(ents: seq<Entry>, name: string) returns (k: nat)
      ensures k == Lookup(ents, name, 0)
    {
      k := 0;
      while k < |ents|
        invariant 0 <= k <= |ents| && Lookup(ents, name, k) == Lookup(ents, name, 0)
      {
        if ents[k].inum != 0 && ents[k].name == name {
          return;
        }
        k := k + 1;
      }
    }

    /** An iput that frees nothing: pointers beyond those of (s0, r0) are given back. */
    method Drop(k: nat, ghost s0: seq<Cached>, ghost r0: seq<nat>)
      requires CacheOk() && k < NINODE && slots[k].ref > 0 && Stay(s0, slots) && RefsOk(s0, r0) && |r0| == |nodes|
      requires slots[k].inum < |refs| && r0[slots[k].inum] < refs[slots[k].inum]
      requires nodes[slots[k].inum].nlink == 0 ==> r0[slots[k].inum] > 0
      modifies `nodes, `slots, `refs
      ensures CacheOk() && nodes == old(nodes) && Stay(s0, slots)
      ensures refs == old(refs)[old(slots)[k].inum := old(refs)[old(slots)[k].inum] - 1]
      ensures forall j :: 0 <= j < NINODE && j != k ==> slots[j] == old(slots)[j]
      ensures slots[k].inum == old(slots)[k].inum && slots[k].ref == old(slots)[k].ref - 1
    {
      hide RefsOk;
      if s0[k].ref > 0 { CacheHit(s0, r0, k); }
      CacheHit(slots, refs, k);
      Iput(k);
    }

    /** namex's first step: a pointer to where the path starts. */
    method Start(cwd: nat, path: string) returns (ok: bool, k: nat)
      requires CacheOk() && cwd < NINODE && slots[cwd].ref > 0
      modifies `slots, `refs
      ensures CacheOk() && Stay(old(slots), slots)
      ensures var i := StartAt(old(slots), cwd, path);
        && (ok ==> k < NINODE && slots[k].inum == i < |nodes| && slots[k].ref > 0 && refs == More(old(refs), i))
        && (!ok ==> Crowded(old(refs), 0))
    {
      hide RefsOk;
      if path != "" && path[0] == '/' {
        ok, k := Iget(ROOTINO);
      } else {
        CacheHit(slots, refs, cwd);
        refs := refs[slots[cwd].inum := refs[slots[cwd].inum] + 1];
        slots := slots[cwd := slots[cwd].(ref := slots[cwd].ref + 1)];
        ok, k := true, cwd;
      }
    }

    /** Since (s0, r0) one pointer was added, ip, and its inode would not be freed by giving it back. */
    ghost predicate Holding(ip: nat, s0: seq<Cached>, r0: seq<nat>)
      reads this
    {
      && CacheOk() && Stay(s0, slots) && RefsOk(s0, r0) && |r0| == |nodes|
      && ip < NINODE && slots[ip].ref > 0 && slots[ip].inum < |nodes| && refs == More(r0, slots[ip].inum)
      && Pinned(nodes, r0)
    }

    /** iunlockput(ip) on a way out. */
    method GiveBack(ip: nat, ghost s0: seq<Cached>, ghost r0: seq<nat>)
      requires Holding(ip, s0, r0) && (nodes[slots[ip].inum].typ == 0 ==> r0[slots[ip].inum] > 0)
      modifies `nodes, `slots, `refs
      ensures CacheOk() && nodes == old(nodes) && Stay(s0, slots) && refs == r0
    {
      hide RefsOk;
      Drop(ip, s0, r0);
    }

    /** next = iget(inum); iunlockput(ip); ip = next */
    method Descend(ip: nat, inum: nat, ghost s0: seq<Cached>, ghost r0: seq<nat>) returns (ok: bool, nx: nat)
      requires Holding(ip, s0, r0) && inum < |nodes| && nodes[slots[ip].inum].typ != 0
      modifies `nodes, `slots, `refs
      ensures |slots| == NINODE && nodes == old(nodes)
      ensures ok ==> Holding(nx, s0, r0) && slots[nx].inum == inum
      ensures !ok ==> Crowded(r0, 1)
    {
      hide RefsOk, Crowded;
      ok, nx := Iget(inum);
      if !ok {
        CrowdedMore(r0, slots[ip].inum, 0);
      } else {
        CacheHit(slots, refs, ip);
        CacheHit(slots, refs, nx);
        Drop(ip, s0, r0);
      }
    }

    /** The body of namex's loop: it is done with result r, or goes on at ip' and pos'. */
    method NameStep(ip: nat, path: string, pos: nat, parent: bool, ghost s0: seq<Cached>, ghost r0: seq<nat>)
      returns (done: bool, r: NameResult, name: string, ip': nat, pos': nat)
      requires Holding(ip, s0, r0) && pos <= |path|
      requires nodes[slots[ip].inum].typ != 0 || r0[slots[ip].inum] > 0 || Components(path[pos..]) != [] || !parent
      modifies `nodes, `slots, `refs
      ensures |slots| == NINODE && nodes == old(nodes)
      ensures var comps := Components(path[pos..]);
        var target := Target(nodes, old(slots)[ip].inum, comps, parent);
        && (done ==> Resolved(slots, refs, r0, target, r) && (!r.NamePanic? ==> CacheOk() && Stay(s0, slots)))
        && (done && r.Found? && parent ==> comps == [name] && slots[r.k].valid)
        && (!done ==>
              && Holding(ip', s0, r0) && pos < pos' <= |path| && comps != [] && comps[1..] == Components(path[pos'..])
              && (parent ==> comps[1..] != []) && target == Target(nodes, slots[ip'].inum, comps[1..], parent))
    {
      hide RefsOk, Target, Components, Lookup, Crowded;
      r, ip', pos' := NamePanic, ip, pos;
      var found, next;
      found, next, name := Skipelem(path, pos);
      ghost var comps := Components(path[pos..]);
      var cur := slots[ip].inum;
      done := true;
      if !found {
        EmptyTarget(nodes, cur, parent);
        if parent {
          GiveBack(ip, s0, r0);
          r := NotFound;
          return;
        }
        r := Found(ip);
        return;
      }
      var ok := Ilock(ip);
      LastTarget(nodes, cur, comps);
      if |comps| > 1 || !parent { TargetStep(nodes, cur, comps, parent); }
      if !ok {
        return;
      }
      if nodes[cur].typ != T_DIR {
        GiveBack(ip, s0, r0);
        r := NotFound;
        return;
      }
      if parent && next == |path| {
        r := Found(ip);
        return;
      }
      var k := FindEntry(nodes[cur].ents, name);
      if k == |nodes[cur].ents| {
        GiveBack(ip, s0, r0);
        r := NotFound;
        return;
      }
      LookupAt(nodes[cur].ents, name);
      ok, ip' := Descend(ip, nodes[cur].ents[k].inum, s0, r0);
      if ok {
        done, pos' := false, next;
        assert comps[1..] == Components(path[next..]);
      }
    }

    /** namex: the inode a path leads to, or its parent and the last name. */
    method NameX(cwd: nat, path: string, parent: bool) returns (r: NameResult, name: string)
      requires Usable() && cwd < NINODE && slots[cwd].ref > 0
      modifies `nodes, `slots, `refs
      ensures |slots| == NINODE && nodes == old(nodes) && (!r.NamePanic? ==> Usable() && Stay(old(slots), slots))
      ensures Resolved(slots, refs, old(refs), Target(nodes, StartAt(old(slots), cwd, path), Components(path), parent), r)
      ensures r.Found? && parent ==>
        Components(path) != [] && name == Components(path)[|Components(path)| - 1] && slots[r.k].valid
    {
      hide RefsOk, Target, Components, Stay, Crowded;
      name := "";
      ghost var s0, r0 := slots, refs;
      StartLinked(s0, r0, nodes, cwd, path);
      var ok, ip: nat := Start(cwd, path);
      if !ok {
        CrowdedToo(r0, 0);
        return NamePanic, name;
      }
      var pos: nat, done := 0, false;
      r := NamePanic;
      assert path[0..] == path;
      ghost var target, comps := Target(nodes, slots[ip].inum, Components(path), parent), Components(path);
      while !done
        invariant |slots| == NINODE && nodes == old(nodes)
        invariant !done ==>
          && Holding(ip, s0, r0) && pos <= |path| && comps == Components(path[pos..])
          && target == Target(nodes, slots[ip].inum, comps, parent)
          && (nodes[slots[ip].inum].typ != 0 || r0[slots[ip].inum] > 0 || comps != [] || !parent)
          && (comps != [] && Components(path) != [] ==> comps[|comps| - 1] == Components(path)[|Components(path)| - 1])
          && (Components(path) == [] ==> comps == [])
        invariant done ==>
          && Resolved(slots, refs, r0, target, r) && (!r.NamePanic? ==> CacheOk() && Stay(s0, slots))
          && (r.Found? && parent ==> Components(path) != [] && name == Components(path)[|Components(path)| - 1] && slots[r.k].valid)
        decreases !done, |path| - pos
      {
        done, r, name, ip, pos := NameStep(ip, path, pos, parent, s0, r0);
        if !done { comps := comps[1..]; }
      }
    }
  
    /** dirlink: a new entry in directory d, unless the name is taken. left is how many blocks balloc
        can still give. */
    method DirLink(d: nat, name: string, inum: nat, left: nat) returns (r: DirLinkResult)
      requires CacheOk() && d < |nodes| && 0 < inum < |nodes|
      modifies `nodes, `slots, `refs
      ensures |slots| == NINODE && refs == old(refs)
      ensures r.Taken? ==> nodes == old(nodes) && Lookup(old(nodes)[d].ents, name, 0) < |old(nodes)[d].ents|
      ensures r.Linked? ==>
        && r.k == Vacant(old(nodes)[d].ents, 0) && Lookup(old(nodes)[d].ents, name, 0) == |old(nodes)[d].ents|
        && nodes == old(nodes)[d := old(nodes)[d].(ents := Put(old(nodes)[d].ents, r.k, Entry(inum, name)))]
      ensures !r.LinkPanic? ==> CacheOk() && Stay(old(slots), slots)
      ensures Lookup(old(nodes)[d].ents, name, 0) < |old(nodes)[d].ents| ==> (r.LinkPanic? ==> Crowded(refs, 0))
      ensures Lookup(old(nodes)[d].ents, name, 0) == |old(nodes)[d].ents| ==> (r.LinkPanic? <==> NoRoom(old(nodes)[d].ents, left))
    {
      hide RefsOk, Lookup, Vacant;
      var k := FindEntry(nodes[d].ents, name);
      LookupAt(nodes[d].ents, name);
      if k < |nodes[d].ents| {
        var ok, ip := Iget(nodes[d].ents[k].inum);
        if !ok {
          return LinkPanic;
        }
        CacheHit(slots, refs, ip);
        if old(slots)[ip].ref > 0 { CacheHit(old(slots), old(refs), ip); }
        Iput(ip);
        return Taken;
      }
      k := FindVacant(nodes[d].ents);
      VacantAt(nodes[d].ents);
      if k >= MAXENTS || left < Growth(nodes[d].ents, k) {
        return LinkPanic;
      }
      nodes := nodes[d := nodes[d].(ents := Put(nodes[d].ents, k, Entry(inum, name)))];
      return Linked(k);
    }

    /** dirlink's search for an empty entry. */
    static method FindVacant(ents: seq<Entry>) returns (k: nat)
      ensures k == Vacant(ents, 0)
    {
      k := 0;
      while k < |ents|
        invariant 0 <= k <= |ents| && Vacant(ents, k) == Vacant(ents, 0)
      {
        if ents[k].inum == 0 {
          return;
        }
        k := k + 1;
      }
    }

    /** isdirempty */
    static method IsDirEmpty(ents: seq<Entry>) returns (b: bool)
      ensures b <==> Hollow(ents)
    {
      var k := 2;
      while k < |ents|
        invariant 2 <= k && forall j :: 2 <= j < k && j < |ents| ==> ents[j].inum == 0
      {
        if ents[k].inum != 0 {
          return false;
        }
        k := k + 1;
      }
      return true;
    }
  
    /** ip->nlink = ip->nlink + 1 or - 1 */
    method SetLinks(i: nat, nlink: nat)
      requires CacheOk() && i < |nodes|
      modifies `nodes
      ensures CacheOk() && nodes == old(nodes)[i := old(nodes)[i].(nlink := nlink)]
    {
      hide RefsOk;
      nodes := nodes[i := nodes[i].(nlink := nlink)];
    }

    lemma {:induction false} CacheFacts()
      requires CacheOk()
      ensures |slots| == NINODE && |refs| == |nodes| > ROOTINO && nodes[0].typ == 0 && RefsOk(slots, refs)
    {
    }

    /** sys_link's way out: the count goes back down, and so does the pointer. */
    method Unwind(ip: nat, ghost i: nat, ghost s0: seq<Cached>, ghost r0: seq<nat>, ghost n0: seq<Inode>)
      requires CacheOk() && ip < NINODE && slots[ip].ref > 0 && slots[ip].inum == i < |n0|
      requires Stay(s0, slots) && RefsOk(s0, r0) && |r0| == |n0|
      requires nodes == n0[i := n0[i].(nlink := n0[i].nlink + 1)] && refs == More(r0, i) && (n0[i].nlink == 0 ==> r0[i] > 0)
      modifies `nodes, `slots, `refs
      ensures CacheOk() && nodes == n0 && refs == r0 && Stay(s0, slots)
    {
      hide RefsOk;
      SetLinks(slots[ip].inum, nodes[slots[ip].inum].nlink - 1);
      assert nodes == n0;
      Drop(ip, s0, r0);
    }

    /** The end of sys_link: dp and ip point to the directory and the file. */
    method LinkEntry(dp: nat, ip: nat, name: string, left: nat, ghost s0: seq<Cached>, ghost r0: seq<nat>, ghost n0: seq<Inode>)
      returns (r: SysResult, ghost k: nat)
      requires CacheOk() && dp < NINODE && slots[dp].ref > 0 && ip < NINODE && slots[ip].ref > 0
      requires slots[ip].inum < |n0| && slots[dp].inum < |n0| && Stay(s0, slots) && RefsOk(s0, r0) && |r0| == |n0|
      requires Pinned(n0, r0)
      requires var i, d := slots[ip].inum, slots[dp].inum;
        && n0[i].typ != 0 && n0[i].typ != T_DIR && n0[d].typ == T_DIR && i > 0
        && nodes == n0[i := n0[i].(nlink := n0[i].nlink + 1)] && refs == More(More(r0, i), d)
      modifies `nodes, `slots, `refs
      ensures |slots| == NINODE && (!r.Panicked? ==> CacheOk() && refs == r0 && Stay(s0, slots))
      ensures var d := old(slots)[dp].inum;
        && (r.Failed? ==> nodes == n0 && Lookup(n0[d].ents, name, 0) < |n0[d].ents|)
        && (r.Panicked? ==> Crowded(r0, 2) || NoRoom(n0[d].ents, left))
      ensures r.Done? ==> var i, d := old(slots)[ip].inum, old(slots)[dp].inum;
        && Lookup(n0[d].ents, name, 0) == |n0[d].ents| && k == Vacant(n0[d].ents, 0) && nodes == AddLink(n0, d, k, i, name)
    {
      hide RefsOk, Lookup, Vacant, CacheOk, Put, Crowded;
      k := 0;
      CacheFacts();
      var i, d := slots[ip].inum, slots[dp].inum;
      var ok := Ilock(dp);
      ghost var s2 := slots;
      var lk := DirLink(d, name, i, left);
      if lk.LinkPanic? {
        if Crowded(refs, 0) {
          CrowdedMore(More(r0, i), d, 0);
          CrowdedMore(r0, i, 1);
        }
        return Panicked, k;
      }
      StayOn(s0, s2, slots);
      Drop(dp, s0, r0);
      if lk.Taken? {
        Unwind(ip, i, s0, r0, n0);
        CacheFacts();
        return Failed, k;
      }
      k := lk.k;
      Drop(ip, s0, r0);
      CacheFacts();
      return Done, k;
    }

    /** The second half of sys_link: the new name for inode i, to which ip points. */
    method LinkName(cwd: nat, newp: string, ip: nat, left: nat, ghost s0: seq<Cached>, ghost r0: seq<nat>, ghost n0: seq<Inode>)
      returns (r: SysResult, ghost d: nat, ghost k: nat)
      requires Usable() && cwd < NINODE && slots[cwd].ref > 0 && ip < NINODE && slots[ip].ref > 0 && slots[ip].inum < |n0|
      requires Stay(s0, slots) && RefsOk(s0, r0) && |r0| == |n0| && s0[cwd].ref > 0 && slots[ip].inum > 0
      requires Pinned(n0, r0)
      requires var i := slots[ip].inum;
        n0[i].typ != 0 && n0[i].typ != T_DIR && nodes == n0[i := n0[i].(nlink := n0[i].nlink + 1)] && refs == More(r0, i)
      modifies `nodes, `slots, `refs
      ensures |slots| == NINODE && (!r.Panicked? ==> CacheOk() && refs == r0 && Stay(s0, slots))
      ensures var target, comps := Target(n0, StartAt(s0, cwd, newp), Components(newp), true), Components(newp);
        && (r.Failed? ==> nodes == n0 && NoPlace(n0, target, d, comps))
        && (r.Panicked? ==> Crowded(r0, 2) || target == NoType || (target == At(d) && d < |n0| && NoRoom(n0[d].ents, left)))
      ensures r.Done? ==> var i := old(slots)[ip].inum;
        && d < |n0| && i != d && Components(newp) != [] && Target(n0, StartAt(s0, cwd, newp), Components(newp), true) == At(d)
        && Lookup(n0[d].ents, Last(Components(newp)), 0) == |n0[d].ents| && k == Vacant(n0[d].ents, 0)
        && nodes == AddLink(n0, d, k, i, Last(Components(newp)))
    {
      hide RefsOk, Components, Lookup, Vacant, Walk, CacheOk, Put, Crowded;
      d, k := 0, 0;
      CacheFacts();
      var i := slots[ip].inum;
      TargetLinks(n0, i, n0[i].nlink + 1, StartAt(s0, cwd, newp), Components(newp), true);
      ghost var s1 := slots;
      var res, name := NameX(cwd, newp, true);
      if res.NamePanic? {
        if Crowded(More(r0, i), 1) { CrowdedMore(r0, i, 1); }
        return Panicked, d, k;
      }
      CacheFacts();
      StayOn(s0, s1, slots);
      if res.NotFound? {
        Unwind(ip, i, s0, r0, n0);
        CacheFacts();
        return Failed, d, k;
      }
      TargetDir(nodes, StartAt(s0, cwd, newp), Components(newp), slots[res.k].inum);
      d := slots[res.k].inum;
      r, k := LinkEntry(res.k, ip, name, left, s0, r0, n0);
    }

    /** sys_link: newp becomes another name of the file oldp; i is the file, d the directory, k the entry. */
    method Link(cwd: nat, oldp: string, newp: string, left: nat) returns (r: SysResult, ghost i: nat, ghost d: nat, ghost k: nat)
      requires Valid() && cwd < NINODE && slots[cwd].ref > 0
      modifies `nodes, `slots, `refs
      ensures r.Failed? ==> Valid() && nodes == old(nodes)
      ensures |slots| == NINODE && (!r.Panicked? ==> refs == old(refs) && Stay(old(slots), slots))
      ensures var from := Walk(old(nodes), StartAt(old(slots), cwd, oldp), Components(oldp));
        var to := Target(old(nodes), StartAt(old(slots), cwd, newp), Components(newp), true);
        && (r.Failed? ==>
              || from == Missing
              || (from == At(i) && i < |nodes| && (nodes[i].typ == T_DIR || NoPlace(nodes, to, d, Components(newp)))))
        && (r.Panicked? ==> Crowded(old(refs), 2) || LinkStops(old(nodes), from, to, i, d, left))
      ensures r.Done? ==> LinkedTo(old(nodes), nodes, StartAt(old(slots), cwd, oldp), oldp, StartAt(old(slots), cwd, newp), newp, i, d, k)
      ensures r.Done? ==> (Valid() <==> Live(old(nodes)[d]))
    {
      hide RefsOk, Components, Lookup, Vacant, Tree, Counts, Walk, Crowded;
      i, d, k := 0, 0, 0;
      ghost var s0, r0, n0 := slots, refs, nodes;
      RootInUse(nodes, at);
      var res, name := NameX(cwd, oldp, false);
      if res.NamePanic? {
        if Crowded(r0, 1) { CrowdedToo(r0, 1); }
        return Panicked, i, d, k;
      }
      if res.NotFound? {
        return Failed, i, d, k;
      }
      var ip := res.k;
      var inum := slots[ip].inum;
      i := inum;
      var ok := Ilock(ip);
      if !ok {
        return Panicked, i, d, k;
      }
      if nodes[inum].typ == T_DIR {
        Drop(ip, s0, r0);
        return Failed, i, d, k;
      }
      SetLinks(inum, nodes[inum].nlink + 1);
      r, d, k := LinkName(cwd, newp, ip, left, s0, r0, n0);
      if r.Done? {
        if Live(n0[d]) {
          LinkKeeps(n0, at, d, k, i, Last(Components(newp)));
        } else {
          LinkBreaks(n0, at, d, k, i, Last(Components(newp)));
        }
      }
    }
  
    /** unlink's writei of an empty entry, and dp->nlink-- when the entry named a directory. */
    method EraseEntry(d: nat, k: nat, dir: bool)
      requires CacheOk() && d < |nodes| && k < |nodes[d].ents| && (dir ==> nodes[d].nlink > 0)
      modifies `nodes
      ensures CacheOk()
      ensures nodes == old(nodes)[d := old(nodes)[d].(ents := old(nodes)[d].ents[k := EMPTY],
                                                      nlink := if dir then old(nodes)[d].nlink - 1 else old(nodes)[d].nlink)]
    {
      hide RefsOk;
      nodes := nodes[d := nodes[d].(ents := nodes[d].ents[k := EMPTY])];
      if dir {
        nodes := nodes[d := nodes[d].(nlink := nodes[d].nlink - 1)];
      }
    }

    /** The end of sys_unlink: entry k of d goes, and with it a link of i. dp and ip point to d and i. */
    method UnlinkEntry(dp: nat, ip: nat, k: nat, ghost s0: seq<Cached>, ghost r0: seq<nat>)
      requires CacheOk() && dp < NINODE && slots[dp].ref > 0 && ip < NINODE && slots[ip].ref > 0 && slots[ip].valid
      requires slots[ip].inum < |nodes| && slots[dp].inum < |nodes| && Stay(s0, slots) && RefsOk(s0, r0) && |r0| == |nodes|
      requires var i, d := slots[ip].inum, slots[dp].inum;
        && i != d && k < |nodes[d].ents| && nodes[i].nlink > 0 && nodes[d].nlink > (if nodes[i].typ == T_DIR then 1 else 0)
        && refs == More(More(r0, d), i)
      modifies `nodes, `slots, `refs
      ensures CacheOk() && refs == r0 && Stay(s0, slots)
      ensures var i, d := old(slots)[ip].inum, old(slots)[dp].inum;
        var mid := Without(old(nodes), d, k, i);
        nodes == if mid[i].nlink == 0 && r0[i] == 0 then Freed(mid, i) else mid
    {
      hide RefsOk, CacheOk;
      CacheFacts();
      var i, d := slots[ip].inum, slots[dp].inum;
      SlotsDiffer(dp, ip);
      EraseEntry(d, k, nodes[i].typ == T_DIR);
      Drop(dp, s0, r0);
      SetLinks(i, nodes[i].nlink - 1);
      SlotRef(ip);
      assert slots[ip].inum == i && slots[ip].ref == r0[i] + 1;
      if s0[ip].ref > 0 { CacheHit(s0, r0, ip); }
      Iput(ip);
      CacheFacts();
    }

    /** sys_unlink once entry k of the parent is found. */
    method UnlinkFound(dp: nat, k: nat, ghost s0: seq<Cached>, ghost r0: seq<nat>) returns (r: SysResult)
      requires CacheOk() && Stay(s0, slots) && RefsOk(s0, r0) && |r0| == |nodes|
      requires dp < NINODE && slots[dp].ref > 0 && slots[dp].inum < |nodes| && refs == More(r0, slots[dp].inum)
      requires var d := slots[dp].inum;
        && k < |nodes[d].ents| && nodes[d].nlink > 0 && nodes[d].ents[k].inum < |nodes|
        && var i := nodes[d].ents[k].inum; i != d && nodes[i].typ != 0 && nodes[i].nlink > 0
                                           && (nodes[i].typ == T_DIR && Hollow(nodes[i].ents) ==> nodes[d].nlink >= 2)
      modifies `nodes, `slots, `refs
      ensures |slots| == NINODE && (!r.Panicked? ==> CacheOk() && refs == r0 && Stay(s0, slots)) && (r.Panicked? ==> Crowded(r0, 1))
      ensures var d := old(slots)[dp].inum;
        var i := old(nodes)[d].ents[k].inum;
        && (r.Failed? ==> nodes == old(nodes) && nodes[i].typ == T_DIR && !Hollow(nodes[i].ents))
        && (r.Done? ==>
              && (old(nodes)[i].typ == T_DIR ==> Hollow(old(nodes)[i].ents))
              && var mid := Without(old(nodes), d, k, i); nodes == if mid[i].nlink == 0 && r0[i] == 0 then Freed(mid, i) else mid)
    {
      hide RefsOk, CacheOk, Freed, Hollow, Crowded;
      CacheFacts();
      var d := slots[dp].inum;
      var i := nodes[d].ents[k].inum;
      var ok, ip := Iget(i);
      if !ok {
        CacheFacts();
        CrowdedMore(r0, d, 0);
        return Panicked;
      }
      ok := Ilock(ip);
      CacheFacts();
      if nodes[i].nlink < 1 {
        return Panicked;
      }
      if nodes[i].typ == T_DIR {
        var empty := IsDirEmpty(nodes[i].ents);
        if !empty {
          Drop(ip, s0, r0);
          CacheFacts();
          Drop(dp, s0, r0);
          CacheFacts();
          return Failed;
        }
      }
      UnlinkEntry(dp, ip, k, s0, r0);
      CacheFacts();
      return Done;
    }

    /** sys_unlink from the locked parent on; dp points to it, and name is the entry to go. */
    method UnlinkIn(dp: nat, name: string, ghost s0: seq<Cached>, ghost r0: seq<nat>)
      returns (r: SysResult, ghost k: nat, ghost i: nat)
      requires CacheOk() && Tree(nodes, at) && Counts(nodes) && Stay(s0, slots) && RefsOk(s0, r0) && |r0| == |nodes|
      requires dp < NINODE && slots[dp].ref > 0 && slots[dp].inum < |nodes|
      requires nodes[slots[dp].inum].typ == T_DIR && refs == More(r0, slots[dp].inum)
      requires Pinned(nodes, r0)
      modifies `nodes, `slots, `refs
      ensures |slots| == NINODE && (!r.Panicked? ==> CacheOk() && refs == r0 && Stay(s0, slots)) && (r.Panicked? ==> Crowded(r0, 1))
      ensures r.Failed? ==> nodes == old(nodes) && !Removable(nodes, old(slots)[dp].inum, name)
      ensures r.Done? ==> Removed(old(nodes), nodes, r0, old(slots)[dp].inum, name, k, i)
    {
      hide RefsOk, CacheOk, Tree, Counts, Lookup, Freed, Hollow, Without, Crowded;
      k, i := 0, 0;
      CacheFacts();
      var d := slots[dp].inum;
      if name == "." || name == ".." {
        Drop(dp, s0, r0);
        CacheFacts();
        return Failed, k, i;
      }
      var kk := FindEntry(nodes[d].ents, name);
      LookupAt(nodes[d].ents, name);
      if kk == |nodes[d].ents| {
        Drop(dp, s0, r0);
        CacheFacts();
        return Failed, k, i;
      }
      FoundLinked(nodes, at, d, name, kk);
      k, i := kk, nodes[d].ents[kk].inum;
      if nodes[i].typ == T_DIR && Hollow(nodes[i].ents) {
        EmptyIsBare(nodes, at, d, kk, i);
      }
      r := UnlinkFound(dp, kk, s0, r0);
    }

    /** sys_unlink; d is the directory, k the entry and i what it named. */
    method Unlink(cwd: nat, path: string) returns (r: SysResult, ghost d: nat, ghost k: nat, ghost i: nat)
      requires Valid() && cwd < NINODE && slots[cwd].ref > 0
      modifies `nodes, `slots, `refs
      ensures |slots| == NINODE
      ensures !r.Panicked? ==> Valid() && refs == old(refs) && Stay(old(slots), slots)
      ensures var target := Target(old(nodes), StartAt(old(slots), cwd, path), Components(path), true);
        && (r.Failed? ==> nodes == old(nodes) && NotRemovable(nodes, target, d, Components(path)))
        && (r.Done? ==> target == At(d) && Components(path) != [] && Removed(old(nodes), nodes, old(refs), d, Last(Components(path)), k, i))
        && (r.Panicked? ==> target == NoType || Crowded(old(refs), 1))
    {
      hide RefsOk, Components, Tree, Counts, Walk, Removed, Removable, Crowded;
      d, k, i := 0, 0, 0;
      ghost var s0, r0, n0 := slots, refs, nodes;
      RootInUse(nodes, at);
      var res, name := NameX(cwd, path, true);
      if res.NamePanic? {
        return Panicked, d, k, i;
      }
      if res.NotFound? {
        return Failed, d, k, i;
      }
      d := slots[res.k].inum;
      TargetDir(nodes, StartAt(s0, cwd, path), Components(path), d);
      var ok := Ilock(res.k);
      r, k, i := UnlinkIn(res.k, name, s0, r0);
      if r.Done? {
        RemovedKeeps(n0, nodes, at, r0, d, name, k, i);
      }
    }

    /** ialloc: the first free inode, marked with its type; false is the panic "no inodes". */
    method Ialloc(typ: nat) returns (ok: bool, i: nat)
      requires CacheOk() && typ != 0
      modifies `nodes
      ensures CacheOk() && (!ok ==> nodes == old(nodes) && NoFree(nodes, |nodes|))
      ensures ok ==> 0 < i < |old(nodes)| && old(nodes)[i].typ == 0 && NoFree(old(nodes), i)
      ensures ok ==> nodes == old(nodes)[i := Inode(typ, 0, [])]
    {
      hide RefsOk;
      i := 1;
      while i < |nodes|
        invariant 1 <= i <= |nodes| && nodes == old(nodes) && CacheOk() && NoFree(nodes, i)
      {
        if nodes[i].typ == 0 {
          nodes := nodes[i := Inode(typ, 0, [])];
          return true, i;
        }
        i := i + 1;
      }
      ok := false;
    }

    /** create on a name that exists: only a plain file will do, and only if one is wanted. */
    method Reuse(dp: nat, k: nat, typ: nat, ghost s0: seq<Cached>, ghost r0: seq<nat>) returns (r: CreateResult)
      requires CacheOk() && Stay(s0, slots) && RefsOk(s0, r0) && |r0| == |nodes|
      requires dp < NINODE && slots[dp].ref > 0 && slots[dp].inum < |nodes| && refs == More(r0, slots[dp].inum)
      requires nodes[slots[dp].inum].typ != 0 && k < |nodes[slots[dp].inum].ents| && nodes[slots[dp].inum].ents[k].inum < |nodes|
      requires Pinned(nodes, r0)
      modifies `nodes, `slots, `refs
      ensures nodes == old(nodes) && |slots| == NINODE && !r.Made? && (!r.CreatePanic? ==> CacheOk() && Stay(s0, slots))
      ensures var i := nodes[old(slots)[dp].inum].ents[k].inum;
        && (r.Existing? ==> r.k < NINODE && slots[r.k].inum == i && slots[r.k].ref > 0 && refs == More(r0, i))
        && (r.NotMade? ==> refs == r0)
        && (!r.CreatePanic? ==> (r.Existing? <==> typ == T_FILE && nodes[i].typ == T_FILE))
        && (r.CreatePanic? ==> Crowded(r0, 1) || nodes[i].typ == 0)
    {
      hide RefsOk;
      var i := nodes[slots[dp].inum].ents[k].inum;
      var ok, ip := Descend(dp, i, s0, r0);
      if !ok {
        return CreatePanic;
      }
      hide CacheOk;
      ghost var s1 := slots;
      ok := Ilock(ip);
      if !ok {
        return CreatePanic;
      }
      StayOn(s0, s1, slots);
      if typ == T_FILE && nodes[i].typ == T_FILE {
        return Existing(ip);
      }
      CacheFacts();
      Drop(ip, s0, r0);
      CacheFacts();
      return NotMade;
    }

    /** create's dirlink calls: the dots of a new directory, then its name in the parent. */
    method LinkNew(i: nat, d: nat, typ: nat, name: string, left: nat) returns (r: DirLinkResult)
      requires CacheOk() && 0 < i < |nodes| && 0 < d < |nodes| && i != d && nodes[i] == Inode(typ, 1, [])
      requires Lookup(nodes[d].ents, name, 0) == |nodes[d].ents|
      modifies `nodes, `slots, `refs
      ensures |slots| == NINODE && refs == old(refs) && (!r.LinkPanic? ==> CacheOk() && Stay(old(slots), slots))
      ensures !r.Taken? && (r.LinkPanic? <==> NoRoomNew(old(nodes)[d].ents, typ, left))
      ensures r.Linked? ==>
        && r.k == Vacant(old(nodes)[d].ents, 0)
        && nodes == if typ == T_DIR then AddDir(old(nodes), d, r.k, i, name)
                    else old(nodes)[d := old(nodes)[d].(ents := Put(old(nodes)[d].ents, r.k, Entry(i, name)))]
    {
      hide RefsOk, CacheOk;
      var rest := left;
      if typ == T_DIR {
        SetLinks(d, nodes[d].nlink + 1);
        var a := DirLink(i, ".", i, left);
        if !a.Linked? {
          return LinkPanic;
        }
        rest := left - 1;
        ghost var s1 := slots;
        var b := DirLink(i, "..", d, rest);
        if !b.Linked? {
          return LinkPanic;
        }
        StayOn(old(slots), s1, slots);
        assert nodes[i].ents == [Entry(i, "."), Entry(d, "..")];
      }
      ghost var s2 := slots;
      r := DirLink(d, name, i, rest);
      if !r.LinkPanic? { StayOn(old(slots), s2, slots); }
    }

    /** create's new inode: allocated, cached, locked, with one link. */
    method NewInode(typ: nat) returns (ok: bool, i: nat, ip: nat)
      requires CacheOk() && typ != 0
      modifies `nodes, `slots, `refs
      ensures |slots| == NINODE
      ensures !ok ==> Crowded(old(refs), 0) || NoFree(old(nodes), |old(nodes)|)
      ensures ok ==>
        && CacheOk() && Stay(old(slots), slots) && 0 < i < |old(nodes)| && old(nodes)[i].typ == 0 && NoFree(old(nodes), i)
        && nodes == old(nodes)[i := Inode(typ, 1, [])] && ip < NINODE && slots[ip].inum == i && slots[ip].ref > 0
        && |old(refs)| == |nodes| && refs == More(old(refs), i)
    {
      hide RefsOk, CacheOk;
      CacheFacts();
      ip := 0;
      ok, i := Ialloc(typ);
      if !ok {
        return;
      }
      ok, ip := Iget(i);
      CacheFacts();
      if !ok {
        return;
      }
      ok := Ilock(ip);
      SetLinks(i, 1);
      CacheFacts();
    }

    /** create on a new name in the directory dp points to. */
    method MakeNew(dp: nat, name: string, typ: nat, left: nat, ghost s0: seq<Cached>, ghost r0: seq<nat>)
      returns (r: CreateResult, ghost i: nat, ghost k: nat)
      requires CacheOk() && Stay(s0, slots) && RefsOk(s0, r0) && |r0| == |nodes| && typ != 0
      requires dp < NINODE && slots[dp].ref > 0 && 0 < slots[dp].inum < |nodes| && refs == More(r0, slots[dp].inum)
      requires nodes[slots[dp].inum].typ == T_DIR && Lookup(nodes[slots[dp].inum].ents, name, 0) == |nodes[slots[dp].inum].ents|
      requires Pinned(nodes, r0)
      modifies `nodes, `slots, `refs
      ensures |slots| == NINODE && (r.Made? || r.CreatePanic?) && (r.Made? ==> CacheOk() && Stay(s0, slots))
      ensures r.CreatePanic? ==>
        Crowded(r0, 1) || NoFree(old(nodes), |old(nodes)|) || NoRoomNew(old(nodes)[old(slots)[dp].inum].ents, typ, left)
      ensures r.Made? ==>
        && New(old(nodes), nodes, old(slots)[dp].inum, name, typ, i, k)
        && r.k < NINODE && slots[r.k].inum == i && slots[r.k].ref > 0 && refs == More(r0, i)
    {
      hide RefsOk, CacheOk, Lookup, Vacant, New, AddDir, AddLink, Put, Crowded;
      i, k := 0, 0;
      CacheFacts();
      var d := slots[dp].inum;
      ghost var s1 := slots;
      var ok, inum, ip := NewInode(typ);
      i := inum;
      if !ok {
        if Crowded(More(r0, d), 0) { CrowdedMore(r0, d, 0); }
        return CreatePanic, i, k;
      }
      StayOn(s0, s1, slots);
      ghost var s2 := slots;
      var lk := LinkNew(inum, d, typ, name, left);
      if !lk.Linked? {
        return CreatePanic, i, k;
      }
      k := lk.k;
      NewFrom(old(nodes), nodes, d, name, typ, i, k);
      StayOn(s0, s2, slots);
      CacheFacts();
      Drop(dp, s0, r0);
      CacheFacts();
      return Made(ip), i, k;
    }

    /** create from the locked parent on, to which dp points. */
    method CreateIn(dp: nat, name: string, typ: nat, left: nat, ghost s0: seq<Cached>, ghost r0: seq<nat>)
      returns (r: CreateResult, ghost i: nat, ghost k: nat)
      requires CacheOk() && Stay(s0, slots) && RefsOk(s0, r0) && |r0| == |nodes| && typ != 0
      requires dp < NINODE && slots[dp].ref > 0 && 0 < slots[dp].inum < |nodes| && refs == More(r0, slots[dp].inum)
      requires nodes[slots[dp].inum].typ == T_DIR
      requires Pinned(nodes, r0)
      modifies `nodes, `slots, `refs
      ensures |slots| == NINODE && (!r.CreatePanic? ==> CacheOk() && |nodes| == |old(nodes)| && Stay(s0, slots))
      ensures var d := old(slots)[dp].inum;
        && (r.NotMade? ==> nodes == old(nodes) && refs == r0 && InTheWay(nodes, d, name, typ))
        && (r.Existing? ==> nodes == old(nodes) && r.k < NINODE && typ == T_FILE && NamedBy(nodes, d, name, slots[r.k].inum))
        && (r.CreatePanic? ==> Crowded(r0, 1) || CreateStops(old(nodes), d, name, typ, left))
        && (r.Made? ==> New(old(nodes), nodes, d, name, typ, i, k) && 0 < i < |nodes|)
      ensures r.Made? || r.Existing? ==>
        && r.k < NINODE && slots[r.k].ref > 0 && slots[r.k].inum < |r0| && refs == More(r0, slots[r.k].inum)
        && (r.Made? ==> slots[r.k].inum == i) && (r.Existing? ==> nodes[slots[r.k].inum].typ == T_FILE)
    {
      hide RefsOk, CacheOk, Lookup;
      i, k := 0, 0;
      CacheFacts();
      var d := slots[dp].inum;
      var kk := FindEntry(nodes[d].ents, name);
      LookupAt(nodes[d].ents, name);
      if kk < |nodes[d].ents| {
        EntryRange(d, kk);
        r := Reuse(dp, kk, typ, s0, r0);
      } else {
        r, i, k := MakeNew(dp, name, typ, left, s0, r0);
      }
    }

    /** create: a file, device or directory at path; d is its directory. */
    method Create(cwd: nat, path: string, typ: nat, left: nat)
      returns (r: CreateResult, ghost d: nat, ghost i: nat, ghost k: nat)
      requires Valid() && cwd < NINODE && slots[cwd].ref > 0 && typ != 0
      modifies this
      ensures |slots| == NINODE && (!r.CreatePanic? ==> |nodes| == |old(nodes)| && Stay(old(slots), slots))
      ensures r.NotMade? || r.Existing? ==> Valid() && nodes == old(nodes)
      ensures r.NotMade? ==> refs == old(refs)
      ensures var target := Target(old(nodes), StartAt(old(slots), cwd, path), Components(path), true);
        && (r.NotMade? ==>
              || target == Missing
              || (d < |nodes| && target == At(d) && Components(path) != [] && InTheWay(nodes, d, Last(Components(path)), typ)))
        && (r.Existing? ==>
              && d < |nodes| && target == At(d) && Components(path) != [] && typ == T_FILE
              && r.k < NINODE && NamedBy(nodes, d, Last(Components(path)), slots[r.k].inum))
        && (r.CreatePanic? ==>
              || Crowded(old(refs), 1) || target == NoType
              || (d < |old(nodes)| && target == At(d) && Components(path) != []
                  && CreateStops(old(nodes), d, Last(Components(path)), typ, left)))
        && (r.Made? ==>
              && target == At(d) && Components(path) != []
              && New(old(nodes), nodes, d, Last(Components(path)), typ, i, k) && (Valid() <==> Live(old(nodes)[d])))
      ensures r.Made? || r.Existing? ==>
        && r.k < NINODE && slots[r.k].ref > 0 && slots[r.k].inum < |old(refs)| && refs == More(old(refs), slots[r.k].inum)
        && (r.Made? ==> slots[r.k].inum == i) && (r.Existing? ==> nodes[slots[r.k].inum].typ == T_FILE)
    {
      hide RefsOk, CacheOk, Components, Tree, Counts, Target, Lookup, New, Stay, Crowded;
      d, i, k := 0, 0, 0;
      CacheFacts();
      ghost var s0, r0, n0 := slots, refs, nodes;
      RootInUse(nodes, at);
      var res, name := NameX(cwd, path, true);
      if res.NamePanic? {
        return CreatePanic, d, i, k;
      }
      CacheFacts();
      if res.NotFound? {
        return NotMade, d, i, k;
      }
      d := slots[res.k].inum;
      TargetDir(nodes, StartAt(s0, cwd, path), Components(path), d);
      ghost var s1 := slots;
      var ok := Ilock(res.k);
      CacheFacts();
      StayOn(s0, s1, slots);
      hide Target;
      r, i, k := CreateIn(res.k, name, typ, left, s0, r0);
      if r.Made? && Live(n0[d]) {
        NewKeeps(n0, nodes, at, r0, d, name, typ, i, k);
        if typ == T_DIR { at := at[i := Where(d, k, at[d].depth + 1)]; }
        MoreOrphans(nodes, r0, refs, i);
      } else if r.Made? {
        NewBreaks(n0, nodes, at, d, name, typ, i, k, at);
      } else if !r.Made? && !r.CreatePanic? {
        MoreOrphans(nodes, r0, refs, if r.Existing? then slots[r.k].inum else 0);
      }
    }

    lemma {:induction false} EntryRange(d: nat, k: nat)
      requires CacheOk() && d < |nodes| && k < |nodes[d].ents|
      ensures nodes[d].ents[k].inum < |nodes|
    {
    }

    lemma {:induction false} SlotRef(k: nat)
      requires CacheOk() && k < NINODE && slots[k].ref > 0
      ensures slots[k].inum < |refs| && slots[k].ref == refs[slots[k].inum]
    {
    }

    lemma {:induction false} SlotsDiffer(j: nat, k: nat)
      requires CacheOk() && j < NINODE && k < NINODE && slots[j].inum != slots[k].inum
      ensures j != k
    {
    }
  }

  /** Entry k of d, which names i, erased. */
  function Without(nodes: seq<Inode>, d: nat, k: nat, i: nat): seq<Inode>
    requires d < |nodes| && i < |nodes| && i != d && k < |nodes[d].ents| && nodes[i].nlink > 0 && nodes[d].nlink > 0
  { if nodes[i].typ == T_DIR then DropDir(nodes, d, k, i) else DropLink(nodes, d, k, i) }

  datatype CreateResult = Made(k: nat) | Existing(k: nat) | NotMade | CreatePanic

  /** No inode below n is free; inode 0 is never handed out. */
  ghost predicate NoFree(nodes: seq<Inode>, n: nat)
    requires n <= |nodes|
  { forall j :: 0 < j < n ==> nodes[j].typ != 0 }

  /** In d, name is the name of inode i. */
  ghost predicate NamedBy(nodes: seq<Inode>, d: nat, name: string, i: nat)
    requires d < |nodes|
  { var k := Lookup(nodes[d].ents, name, 0); k < |nodes[d].ents| && nodes[d].ents[k].inum == i }

  /** The name is taken, and not by a plain file that create was to open. */
  ghost predicate InTheWay(nodes: seq<Inode>, d: nat, name: string, typ: nat)
    requires d < |nodes|
  { exists i :: 0 <= i < |nodes| && NamedBy(nodes, d, name, i) && !(typ == T_FILE && nodes[i].typ == T_FILE) }

  /** Create meets an inode without a type, or wants a new one and finds no inode, no entry or no block for it. */
  ghost predicate CreateStops(nodes: seq<Inode>, d: nat, name: string, typ: nat, left: nat)
    requires d < |nodes|
  {
    || (exists i :: 0 <= i < |nodes| && NamedBy(nodes, d, name, i) && nodes[i].typ == 0)
    || (Lookup(nodes[d].ents, name, 0) == |nodes[d].ents| && (NoFree(nodes, |nodes|) || NoRoomNew(nodes[d].ents, typ, left)))
  }

  /** What create made: the first free inode i, named by entry k of d. */
  ghost predicate New(nodes: seq<Inode>, nodes': seq<Inode>, d: nat, name: string, typ: nat, i: nat, k: nat) {
    && 0 < i < |nodes| && d < |nodes| && i != d && nodes[i].typ == 0 && NoFree(nodes, i) && nodes[d].typ == T_DIR && typ != 0
    && Lookup(nodes[d].ents, name, 0) == |nodes[d].ents| && k == Vacant(nodes[d].ents, 0)
    && nodes' == if typ == T_DIR then AddDir(nodes, d, k, i, name) else AddLink(nodes[i := Inode(typ, 0, [])], d, k, i, name)
  }

  /** The last name of a path is taken in d. */
  ghost predicate HasName(nodes: seq<Inode>, d: nat, comps: seq<string>)
    requires d < |nodes|
  { comps != [] && Lookup(nodes[d].ents, Last(comps), 0) < |nodes[d].ents| }

  lemma {:induction false} NewFrom(nodes: seq<Inode>, nodes': seq<Inode>, d: nat, name: string, typ: nat, i: nat, k: nat)
    requires 0 < i < |nodes| && d < |nodes| && nodes[i].typ == 0 && NoFree(nodes, i) && nodes[d].typ == T_DIR && typ != 0
    requires Lookup(nodes[d].ents, name, 0) == |nodes[d].ents| && k == Vacant(nodes[d].ents, 0)
    requires var n1 := nodes[i := Inode(typ, 1, [])];
             nodes' == if typ == T_DIR then AddDir(n1, d, k, i, name)
                       else n1[d := n1[d].(ents := Put(n1[d].ents, k, Entry(i, name)))]
    ensures New(nodes, nodes', d, name, typ, i, k) && |nodes'| == |nodes|
    ensures nodes'[d].typ == T_DIR && nodes'[d].nlink >= nodes[d].nlink
  {
    hide Put, Lookup, Vacant;
  }

  /** In a linked directory, create keeps the counts and the tree. */
  lemma {:induction false} NewKeeps(nodes: seq<Inode>, nodes': seq<Inode>, at: seq<Where>, refs: seq<nat>, d: nat, name: string,
                                    typ: nat, i: nat, k: nat)
    requires Tree(nodes, at) && Counts(nodes) && New(nodes, nodes', d, name, typ, i, k) && Live(nodes[d]) && |refs| == |nodes|
    requires Pinned(nodes, refs)
    ensures |at| == |nodes| == |nodes'| && Counts(nodes')
    ensures Tree(nodes', if typ == T_DIR then at[i := Where(d, k, at[d].depth + 1)] else at)
    ensures Pinned(nodes', refs)
  {
    hide Counts, DirOk, EntryOk, Lookup, Vacant;
    NewSlot(nodes, at, d, name);
    if typ == T_DIR {
      AddDirTree(nodes, at, d, k, i, name);
      AddDirCounts(nodes, at, d, k, i, name);
    } else {
      var n1 := nodes[i := Inode(typ, 0, [])];
      FreshKeeps(nodes, at, i, typ);
      AddLinkTree(n1, at, d, k, i, name);
      AddLinkCounts(n1, d, k, i, name);
    }
  }

  /** Allocating an inode that nothing names. */
  lemma {:induction false} FreshKeeps(nodes: seq<Inode>, at: seq<Where>, i: nat, typ: nat)
    requires Tree(nodes, at) && Counts(nodes) && 0 < i < |nodes| && nodes[i].typ == 0 && typ != 0 && typ != T_DIR
    ensures Tree(nodes[i := Inode(typ, 0, [])], at) && Counts(nodes[i := Inode(typ, 0, [])])
  {
    hide DirOk, EntryOk;
    var nodes' := nodes[i := Inode(typ, 0, [])];
    forall e | 0 <= e < |nodes'| && Live(nodes'[e]) ensures DirOk(nodes', at, e) {
      FreshDir(nodes, at, i, typ, e);
    }
    forall e, j | 0 <= e < |nodes'| && Live(nodes'[e]) && 0 <= j < |nodes'[e].ents| ensures EntryOk(nodes', at, e, j) {
      FreshEntry(nodes, at, i, typ, e, j);
    }
    FreeUnnamed(nodes, at, i);
    forall x | 0 < x < |nodes'| && nodes'[x].typ != 0 ensures nodes'[x].nlink == Total(nodes', x, |nodes'|) {
      TotalUpdate(nodes, i, nodes'[i], x, |nodes|);
    }
  }

  lemma {:induction false} FreshDir(nodes: seq<Inode>, at: seq<Where>, i: nat, typ: nat, e: nat)
    requires e < |nodes| == |at| && i < |nodes| && nodes[i].typ == 0 && e != i && DirOk(nodes, at, e)
    ensures DirOk(nodes[i := Inode(typ, 0, [])], at, e)
  {
  }

  lemma {:induction false} FreshEntry(nodes: seq<Inode>, at: seq<Where>, i: nat, typ: nat, e: nat, j: nat)
    requires e < |nodes| == |at| && i < |nodes| && nodes[i].typ == 0 && e != i && j < |nodes[e].ents| && EntryOk(nodes, at, e, j)
    ensures EntryOk(nodes[i := Inode(typ, 0, [])], at, e, j)
  {
  }

  lemma {:induction false} MoreOrphans(nodes: seq<Inode>, r0: seq<nat>, refs: seq<nat>, i: nat)
    requires |r0| == |nodes| && Pinned(nodes, r0) && (refs == r0 || (i < |r0| && refs == More(r0, i)))
    ensures Pinned(nodes, refs)
  {
  }

  /** In a directory that lost its last link, what create makes never fits the invariant. */
  lemma {:induction false} NewBreaks(nodes: seq<Inode>, nodes': seq<Inode>, at: seq<Where>, d: nat, name: string, typ: nat,
                                     i: nat, k: nat, at': seq<Where>)
    requires Tree(nodes, at) && Counts(nodes) && New(nodes, nodes', d, name, typ, i, k) && !Live(nodes[d]) && d > 0
    ensures !(Tree(nodes', at') && Counts(nodes'))
  {
    assert Bare(nodes[d]);
    if typ == T_DIR {
      DeadParentLoose(nodes, at, d, k, i, name, at');
    } else {
      FreshKeeps(nodes, at, i, typ);
      DeadParentBreaks(nodes[i := Inode(typ, 0, [])], at, d, k, i, name);
    }
  }

  /** What create makes fits the invariant if and only if its directory is linked. */
  lemma {:induction false} NewExactly(nodes: seq<Inode>, nodes': seq<Inode>, at: seq<Where>, refs: seq<nat>, d: nat,
                                      name: string, typ: nat,
                                      i: nat, k: nat)
    requires Tree(nodes, at) && Counts(nodes) && New(nodes, nodes', d, name, typ, i, k) && d > 0
    requires |refs| == |nodes| && Pinned(nodes, refs)
    ensures Live(nodes[d]) <==> exists at': seq<Where> :: Tree(nodes', at') && Counts(nodes')
  {
    hide Tree, Counts;
    if Live(nodes[d]) {
      NewKeeps(nodes, nodes', at, refs, d, name, typ, i, k);
    } else {
      forall at': seq<Where> ensures !(Tree(nodes', at') && Counts(nodes')) {
        NewBreaks(nodes, nodes', at, d, name, typ, i, k, at');
      }
    }
  }

  /** The entry for name in d can be taken away: it exists, is not a dot, and names no directory with entries. */
  ghost predicate Removable(nodes: seq<Inode>, d: nat, name: string)
    requires d < |nodes|
  {
    var k := Lookup(nodes[d].ents, name, 0);
    && name != "." && name != ".." && k < |nodes[d].ents|
    && var i := nodes[d].ents[k].inum;
       i < |nodes| && (nodes[i].typ == T_DIR ==> Hollow(nodes[i].ents))
  }

  /** isdirempty: no entry in use behind the first two. */
  ghost predicate Hollow(ents: seq<Entry>) { forall j :: 2 <= j < |ents| ==> ents[j].inum == 0 }

  /** Why an unlink fails. */
  ghost predicate NotRemovable(nodes: seq<Inode>, target: Walked, d: nat, comps: seq<string>) {
    target == Missing || (target == At(d) && comps != [] && d < |nodes| && !Removable(nodes, d, Last(comps)))
  }

  /** What a successful unlink did: entry k of d is erased, and what it named is freed if nothing else holds it. */
  ghost predicate Removed(nodes: seq<Inode>, nodes': seq<Inode>, refs: seq<nat>, d: nat, name: string, k: nat, i: nat) {
    && |refs| == |nodes| && d < |nodes| && 0 < i < |nodes| && i != d && Live(nodes[d]) && Removable(nodes, d, name)
    && k == Lookup(nodes[d].ents, name, 0) && 2 <= k < |nodes[d].ents| && i == nodes[d].ents[k].inum
    && nodes[i].typ != 0 && nodes[i].nlink > 0 && (nodes[i].typ == T_DIR ==> Bare(nodes[i]))
    && var mid := Without(nodes, d, k, i);
       nodes' == if mid[i].nlink == 0 && refs[i] == 0 then Freed(mid, i) else mid
  }

  lemma {:induction false} FoundLinked(nodes: seq<Inode>, at: seq<Where>, d: nat, name: string, k: nat)
    requires Tree(nodes, at) && Counts(nodes) && d < |nodes| && nodes[d].typ == T_DIR && name != "." && name != ".."
    requires k == Lookup(nodes[d].ents, name, 0) < |nodes[d].ents|
    ensures Live(nodes[d]) && k >= 2
    ensures var i := nodes[d].ents[k].inum; 0 < i < |nodes| && nodes[i].typ != 0 && nodes[i].nlink > 0 && i != d
  {
    assert !Live(nodes[d]) ==> Bare(nodes[d]);
    assert DirOk(nodes, at, d);
    EntryLinked(nodes, at, d, k);
    assert EntryOk(nodes, at, d, k);
  }

  lemma {:induction false} EmptyIsBare(nodes: seq<Inode>, at: seq<Where>, d: nat, k: nat, i: nat)
    requires Tree(nodes, at) && Counts(nodes) && d < |nodes| && Live(nodes[d]) && 2 <= k < |nodes[d].ents|
    requires nodes[d].ents[k].inum == i && 0 < i < |nodes| && nodes[i].typ == T_DIR
    requires Hollow(nodes[i].ents)
    ensures Bare(nodes[i]) && i != d && nodes[d].nlink >= 2
  {
    assert EntryOk(nodes, at, d, k);
    assert DirOk(nodes, at, i);
    assert DirOk(nodes, at, at[i].parent);
    BareOneLink(nodes, at, d, k, i);
    DirLinks(nodes, at, d, i);
  }

  /** Unlink keeps the counts and the tree, and frees no inode that is still held. */
  lemma {:induction false} RemovedKeeps(nodes: seq<Inode>, nodes': seq<Inode>, at: seq<Where>, refs: seq<nat>, d: nat,
                                        name: string, k: nat, i: nat)
    requires Tree(nodes, at) && Counts(nodes) && Removed(nodes, nodes', refs, d, name, k, i)
    requires Pinned(nodes, refs)
    ensures Tree(nodes', at) && Counts(nodes') && |nodes'| == |nodes|
    ensures Pinned(nodes', refs)
  {
    hide Tree, Counts, Lookup;
    var mid := Without(nodes, d, k, i);
    if nodes[i].typ == T_DIR {
      DropDirCounts(nodes, at, d, k, i);
      DropDirTree(nodes, at, d, k, i);
    } else {
      EntryName(nodes, at, d, k);
      DropLinkTree(nodes, at, d, k, i);
      DropLinkCounts(nodes, d, k, i);
    }
    if mid[i].nlink == 0 && refs[i] == 0 { FreedKeeps(mid, at, i); }
  }

  lemma {:induction false} EntryName(nodes: seq<Inode>, at: seq<Where>, d: nat, k: nat)
    requires Tree(nodes, at) && d < |nodes| && Live(nodes[d]) && 2 <= k < |nodes[d].ents| && nodes[d].ents[k].inum != 0
    ensures nodes[d].ents[k].name != "."
  {
    assert EntryOk(nodes, at, d, k);
  }

  lemma {:induction false} EmptyRoot(nodes: seq<Inode>, at: seq<Where>)
    requires |at| == |nodes| > ROOTINO && at[ROOTINO] == Where(ROOTINO, 0, 0)
    requires nodes[ROOTINO] == Inode(T_DIR, 1, [Entry(ROOTINO, "."), Entry(ROOTINO, "..")])
    requires forall i :: 0 <= i < |nodes| && i != ROOTINO ==> nodes[i] == Inode(0, 0, [])
    ensures Tree(nodes, at) && Counts(nodes)
  {
    var bare := nodes[ROOTINO := Inode(0, 0, [])];
    TotalNone(bare, ROOTINO, |nodes|);
    TotalUpdate(bare, ROOTINO, nodes[ROOTINO], ROOTINO, |nodes|);
    assert bare[ROOTINO := nodes[ROOTINO]] == nodes;
    BareCount(nodes[ROOTINO].ents, ROOTINO);
  }

  lemma {:induction false} RootInUse(nodes: seq<Inode>, at: seq<Where>)
    requires Tree(nodes, at)
    ensures |nodes| > ROOTINO && nodes[ROOTINO].typ != 0
  {
  }

  lemma {:induction false} StayOn(s0: seq<Cached>, s1: seq<Cached>, s2: seq<Cached>)
    requires Stay(s0, s1) && Stay(s1, s2)
    ensures Stay(s0, s2)
  {
  }

  lemma {:induction false} TargetDir(nodes: seq<Inode>, i: nat, comps: seq<string>, d: nat)
    requires Target(nodes, i, comps, true) == At(d)
    ensures d < |nodes| && nodes[d].typ == T_DIR && comps != []
  {
  }

  /** dirlink's slot in a linked directory lies behind "." and "..", and the new name is neither. */
  lemma {:induction false} NewSlot(nodes: seq<Inode>, at: seq<Where>, d: nat, name: string)
    requires Tree(nodes, at) && d < |nodes| && Live(nodes[d]) && Lookup(nodes[d].ents, name, 0) == |nodes[d].ents|
    ensures Slot(nodes, d, Vacant(nodes[d].ents, 0)) && name != "." && name != ".."
  {
    assert DirOk(nodes, at, d);
    assert DirOk(nodes, at, at[d].parent);
  }

  lemma {:induction false} LinkKeeps(nodes: seq<Inode>, at: seq<Where>, d: nat, k: nat, i: nat, name: string)
    requires Tree(nodes, at) && Counts(nodes) && d < |nodes| && 0 < i < |nodes| && Live(nodes[d])
    requires Lookup(nodes[d].ents, name, 0) == |nodes[d].ents| && k == Vacant(nodes[d].ents, 0)
    requires nodes[i].typ != 0 && nodes[i].typ != T_DIR
    ensures Tree(AddLink(nodes, d, k, i, name), at) && Counts(AddLink(nodes, d, k, i, name))
  {
    NewSlot(nodes, at, d, name);
    AddLinkTree(nodes, at, d, k, i, name);
    AddLinkCounts(nodes, d, k, i, name);
  }

  /** In a directory that lost its last link, a new name is one that nobody counts. */
  lemma {:induction false} LinkBreaks(nodes: seq<Inode>, at: seq<Where>, d: nat, k: nat, i: nat, name: string)
    requires Tree(nodes, at) && Counts(nodes) && d < |nodes| && 0 < i < |nodes| && nodes[d].typ == T_DIR && !Live(nodes[d])
    requires Lookup(nodes[d].ents, name, 0) == |nodes[d].ents| && k == Vacant(nodes[d].ents, 0)
    requires nodes[i].typ != 0 && nodes[i].typ != T_DIR
    ensures !Counts(AddLink(nodes, d, k, i, name))
  {
    assert Bare(nodes[d]);
    DeadParentBreaks(nodes, at, d, k, i, name);
  }

  /** A new name for a file fits the invariant if and only if its directory is linked. */
  lemma {:induction false} LinkExactly(nodes: seq<Inode>, at: seq<Where>, d: nat, k: nat, i: nat, name: string)
    requires Tree(nodes, at) && Counts(nodes) && d < |nodes| && 0 < i < |nodes| && nodes[d].typ == T_DIR
    requires Lookup(nodes[d].ents, name, 0) == |nodes[d].ents| && k == Vacant(nodes[d].ents, 0)
    requires nodes[i].typ != 0 && nodes[i].typ != T_DIR
    ensures Live(nodes[d]) <==> exists at': seq<Where> :: Tree(AddLink(nodes, d, k, i, name), at') && Counts(AddLink(nodes, d, k, i, name))
  {
    hide Tree, Counts, AddLink;
    if Live(nodes[d]) {
      LinkKeeps(nodes, at, d, k, i, name);
    } else {
      LinkBreaks(nodes, at, d, k, i, name);
    }
  }

  datatype SysResult = Done | Failed | Panicked

  function Last(comps: seq<string>): string
    requires comps != []
  { comps[|comps| - 1] }

  /** A new name has no place: its directory does not exist, or has the name already. */
  ghost predicate NoPlace(nodes: seq<Inode>, target: Walked, d: nat, comps: seq<string>) {
    target == Missing || (d < |nodes| && target == At(d) && HasName(nodes, d, comps))
  }

  /** A link meets an inode without a type, or a directory with no room for the entry. */
  ghost predicate LinkStops(nodes: seq<Inode>, from: Walked, to: Walked, i: nat, d: nat, left: nat) {
    || from == NoType || (i < |nodes| && from == At(i) && nodes[i].typ == 0)
    || to == NoType || (d < |nodes| && to == At(d) && NoRoom(nodes[d].ents, left))
  }

  /** What a successful link did. */
  ghost predicate LinkedTo(nodes: seq<Inode>, nodes': seq<Inode>, start: nat, oldp: string, start': nat, newp: string, i: nat,
                           d: nat, k: nat) {
    && i < |nodes| && d < |nodes| && i != d && Components(newp) != []
    && Walk(nodes, start, Components(oldp)) == At(i) && nodes[i].typ != 0 && nodes[i].typ != T_DIR
    && Target(nodes, start', Components(newp), true) == At(d)
    && Lookup(nodes[d].ents, Last(Components(newp)), 0) == |nodes[d].ents|
    && k == Vacant(nodes[d].ents, 0)
    && nodes' == AddLink(nodes, d, k, i, Last(Components(newp)))
  }

  /** Paths do not depend on link counts. */
  lemma {:induction false} WalkLinks(nodes: seq<Inode>, i: nat, n: nat, j: nat, comps: seq<string>)
    requires i < |nodes|
    ensures Walk(nodes[i := nodes[i].(nlink := n)], j, comps) == Walk(nodes, j, comps)
    decreases |comps|
  {
    var nodes' := nodes[i := nodes[i].(nlink := n)];
    if comps != [] && j < |nodes| && nodes[j].typ == T_DIR {
      var k := Lookup(nodes[j].ents, comps[0], 0);
      if k < |nodes[j].ents| { WalkLinks(nodes, i, n, nodes[j].ents[k].inum, comps[1..]); }
    }
  }

  lemma {:induction false} TargetLinks(nodes: seq<Inode>, i: nat, n: nat, j: nat, comps: seq<string>, parent: bool)
    requires i < |nodes|
    ensures Target(nodes[i := nodes[i].(nlink := n)], j, comps, parent) == Target(nodes, j, comps, parent)
  {
    WalkLinks(nodes, i, n, j, comps);
    if comps != [] { WalkLinks(nodes, i, n, j, comps[..|comps| - 1]); }
  }

  const MAXENTS := 4480   // MAXFILE * BSIZE / sizeof(struct dirent)

  const PERBLOCK := 32    // entries in a block
  const DIRECTENTS := 384 // entries in the NDIRECT direct blocks

  /** Blocks that writing entry k takes from balloc: one for the first entry of a block behind the
      last, and one more for the indirect block when that is the block after the direct ones. */
  function Growth(ents: seq<Entry>, k: nat): nat {
    if k < |ents| || k % PERBLOCK != 0 then 0 else if k == DIRECTENTS then 2 else 1
  }

  /** No new entry: the directory has the largest size and no empty entry, or balloc runs out of blocks. */
  ghost predicate NoRoom(ents: seq<Entry>, left: nat) {
    var k := Vacant(ents, 0);
    k >= MAXENTS || left < Growth(ents, k)
  }

  /** The same for create, which for a directory first takes a block for the dots. */
  ghost predicate NoRoomNew(ents: seq<Entry>, typ: nat, left: nat) {
    if typ == T_DIR then left == 0 || NoRoom(ents, left - 1) else NoRoom(ents, left)
  }

  /** iput keeps the links, and the pointers unless an inode in use loses its only hold. */
  lemma {:induction false} PutKeeps(nodes: seq<Inode>, at: seq<Where>, refs: seq<nat>, s: Cached)
    requires Tree(nodes, at) && Counts(nodes) && |refs| == |nodes| && Pinned(nodes, refs) && s.inum < |nodes|
    requires s.ref > 0 && refs[s.inum] == s.ref && (s.valid ==> nodes[s.inum].typ != 0) && nodes[0].typ == 0
    ensures var n, refs' := nodes[s.inum], refs[s.inum := s.ref - 1];
      var nodes' := if s.ref == 1 && s.valid && n.nlink == 0 then Freed(nodes, s.inum) else nodes;
      && Tree(nodes', at) && Counts(nodes')
      && (Pinned(nodes', refs') <==> s.ref > 1 || s.valid || n.nlink > 0 || n.typ == 0)
  {
    hide Tree, Counts;
    if s.ref == 1 && s.valid && nodes[s.inum].nlink == 0 {
      FreedKeeps(nodes, at, s.inum);
    }
  }

  datatype DirLinkResult = Linked(k: nat) | Taken | LinkPanic

  /** The inode cache is full. */
  ghost predicate AllBusy(slots: seq<Cached>) { forall j :: 0 <= j < |slots| ==> slots[j].ref > 0 }

  /** The inodes somebody has a pointer to. */
  ghost function Held(refs: seq<nat>): set<nat> { set i | 0 <= i < |refs| && refs[i] > 0 }

  /** At most n slots of the inode cache are free. */
  ghost predicate Crowded(refs: seq<nat>, n: nat) { |Held(refs)| + n >= NINODE }

  lemma {:induction false} BusyInums(slots: seq<Cached>, refs: seq<nat>, k: nat) returns (inums: set<nat>)
    requires RefsOk(slots, refs) && AllBusy(slots) && k <= |slots|
    ensures |inums| == k && inums <= Held(refs) && forall i :: i in inums ==> exists j :: 0 <= j < k && slots[j].inum == i
  {
    inums := {};
    if k > 0 {
      inums := BusyInums(slots, refs, k - 1);
      var last := slots[k - 1].inum;
      assert last !in inums;
      inums := inums + {last};
      forall i | i in inums ensures exists j :: 0 <= j < k && slots[j].inum == i {
        if i == last { assert slots[k - 1].inum == i; }
      }
    }
  }

  lemma {:induction false} FullCrowded(slots: seq<Cached>, refs: seq<nat>)
    requires RefsOk(slots, refs) && AllBusy(slots) && |slots| == NINODE
    ensures Crowded(refs, 0)
  {
    var inums := BusyInums(slots, refs, NINODE);
    assert Held(refs) == inums + (Held(refs) - inums);
  }

  lemma {:induction false} CrowdedToo(refs: seq<nat>, n: nat)
    requires Crowded(refs, n)
    ensures Crowded(refs, n + 1)
  {
  }

  /** A pointer more takes a slot at most. */
  lemma {:induction false} CrowdedMore(refs: seq<nat>, i: nat, n: nat)
    requires i < |refs| && Crowded(More(refs, i), n)
    ensures Crowded(refs, n + 1)
  {
    assert Held(More(refs, i)) == Held(refs) + {i};
  }

  lemma {:induction false} VacantAt(ents: seq<Entry>)
    ensures Vacant(ents, 0) <= |ents|
  {
  }

  lemma {:induction false} LookupAt(ents: seq<Entry>, name: string)
    ensures Lookup(ents, name, 0) <= |ents|
  {
  }

  /** One more pointer to inode i. */
  function More(refs: seq<nat>, i: nat): seq<nat>
    requires i < |refs|
  { refs[i := refs[i] + 1] }

  /** Where a path starts. */
  function StartAt(slots: seq<Cached>, cwd: nat, path: string): nat
    requires cwd < |slots|
  { if path != "" && path[0] == '/' then ROOTINO else slots[cwd].inum }

  /** What a lookup returned, against what the path leads to; the pointers changed by the one returned. */
  ghost predicate Resolved(slots: seq<Cached>, refs: seq<nat>, refs0: seq<nat>, target: Walked, r: NameResult)
    requires |slots| == NINODE
  {
    match r
    case Found(k) =>
      k < NINODE && slots[k].ref > 0 && slots[k].inum < |refs0| && target == At(slots[k].inum) && refs == More(refs0, slots[k].inum)
    case NotFound => target == Missing && refs == refs0
    case NamePanic => target == NoType || Crowded(refs0, 1)
  }

  lemma {:induction false} StartLinked(s0: seq<Cached>, r0: seq<nat>, nodes: seq<Inode>, cwd: nat, path: string)
    requires RefsOk(s0, r0) && |r0| == |nodes| > ROOTINO && cwd < |s0| && s0[cwd].ref > 0 && nodes[ROOTINO].typ != 0
    ensures var i := StartAt(s0, cwd, path); i < |nodes| && (nodes[i].typ != 0 || r0[i] > 0)
  {
  }

  lemma {:induction false} EmptyTarget(nodes: seq<Inode>, i: nat, parent: bool)
    ensures Target(nodes, i, [], parent) == if parent then Missing else At(i)
  {
  }

  lemma {:induction false} LastTarget(nodes: seq<Inode>, i: nat, comps: seq<string>)
    requires |comps| >= 1 && i < |nodes|
    ensures |comps| == 1 ==>
      Target(nodes, i, comps, true) == if nodes[i].typ == 0 then NoType else if nodes[i].typ != T_DIR then Missing else At(i)
  {
  }

  lemma {:induction false} CacheMark(slots: seq<Cached>, refs: seq<nat>, k: nat)
    requires RefsOk(slots, refs) && k < |slots| && slots[k].ref > 0
    ensures RefsOk(slots[k := slots[k].(valid := true)], refs)
  {
    var slots' := slots[k := slots[k].(valid := true)];
    forall x | 0 <= x < |refs| && refs[x] > 0 ensures InCache(slots', x) {
      assert InCache(slots, x);
      var j :| 0 <= j < |slots| && slots[j].ref > 0 && slots[j].inum == x;
      assert slots'[j].inum == x;
    }
  }

  lemma {:induction false} OneSlot(slots: seq<Cached>, refs: seq<nat>, k: nat)
    requires RefsOk(slots, refs) && k < |slots| && slots[k].ref > 0
    ensures forall j :: 0 <= j < |slots| && j != k && slots[j].ref > 0 ==> slots[j].inum != slots[k].inum
  {
  }

  /** One pointer less, whatever becomes of the valid bit. */
  lemma {:induction false} CacheDrop(slots: seq<Cached>, refs: seq<nat>, k: nat)
    requires RefsOk(slots, refs) && k < |slots| && slots[k].ref > 0
    ensures var i := slots[k].inum;
            && i < |refs| && refs[i] == slots[k].ref
            && RefsOk(slots[k := slots[k].(ref := slots[k].ref - 1)], refs[i := refs[i] - 1])
            && (slots[k].ref == 1 ==> RefsOk(slots[k := Cached(i, 0, false)], refs[i := refs[i] - 1]))
  {
    var i := slots[k].inum;
    var refs' := refs[i := refs[i] - 1];
    var a, b := slots[k := slots[k].(ref := slots[k].ref - 1)], slots[k := Cached(i, 0, false)];
    forall x | 0 <= x < |refs'| && refs'[x] > 0 ensures InCache(a, x) && (slots[k].ref == 1 ==> InCache(b, x)) {
      assert InCache(slots, x);
      var j :| 0 <= j < |slots| && slots[j].ref > 0 && slots[j].inum == x;
      assert a[j].inum == x && (j != k ==> b[j].inum == x);
    }
  }

  lemma {:induction false} CacheHit(slots: seq<Cached>, refs: seq<nat>, k: nat)
    requires RefsOk(slots, refs) && k < |slots| && slots[k].ref > 0
    ensures var i := slots[k].inum;
            i < |refs| && refs[i] == slots[k].ref && RefsOk(slots[k := slots[k].(ref := slots[k].ref + 1)], refs[i := refs[i] + 1])
  {
    var i := slots[k].inum;
    var slots', refs' := slots[k := slots[k].(ref := slots[k].ref + 1)], refs[i := refs[i] + 1];
    forall x | 0 <= x < |refs'| && refs'[x] > 0 ensures InCache(slots', x) {
      assert slots'[k].inum == i;
      assert InCache(slots, x);
      var j :| 0 <= j < |slots| && slots[j].ref > 0 && slots[j].inum == x;
      assert slots'[j].inum == x;
    }
  }

  lemma {:induction false} NotCached(slots: seq<Cached>, refs: seq<nat>, i: nat)
    requires RefsOk(slots, refs) && i < |refs| && forall j :: 0 <= j < |slots| ==> !(slots[j].ref > 0 && slots[j].inum == i)
    ensures refs[i] == 0
  {
  }

  lemma {:induction false} CacheMiss(slots: seq<Cached>, refs: seq<nat>, k: nat, i: nat)
    requires RefsOk(slots, refs) && k < |slots| && slots[k].ref == 0 && i < |refs| && refs[i] == 0
    ensures RefsOk(slots[k := Cached(i, 1, false)], refs[i := 1])
  {
    var slots', refs' := slots[k := Cached(i, 1, false)], refs[i := 1];
    forall x | 0 <= x < |refs'| && refs'[x] > 0 ensures InCache(slots', x) {
      assert slots'[k].inum == i;
      if x != i {
        assert InCache(slots, x);
        var j :| 0 <= j < |slots| && slots[j].ref > 0 && slots[j].inum == x;
        assert slots'[j].inum == x;
      }
    }
  }

  // ------------------------------------------------- what a change of a directory means

  /** The inode a name stands for in directory d; 0 for none. */
  function Resolves(nodes: seq<Inode>, d: nat, name: string): nat
    requires d < |nodes|
  { var k := Lookup(nodes[d].ents, name, 0); if k < |nodes[d].ents| then nodes[d].ents[k].inum else 0 }

  /** No name but this one stands for something else than before. */
  ghost predicate OtherNames(nodes: seq<Inode>, nodes': seq<Inode>, d: nat, name: string)
    requires d < |nodes| == |nodes'|
  { forall x :: x != name ==> Resolves(nodes', d, x) == Resolves(nodes, d, x) }

  /** Only inodes i and d changed. */
  ghost predicate OnlyThese(nodes: seq<Inode>, nodes': seq<Inode>, i: nat, d: nat) {
    |nodes'| == |nodes| && forall j :: 0 <= j < |nodes| && j != i && j != d ==> nodes'[j] == nodes[j]
  }

  lemma {:induction false} LookupIs(ents: seq<Entry>, name: string, k: nat, from: nat)
    requires from <= k <= |ents| && (k < |ents| ==> ents[k].inum != 0 && ents[k].name == name)
    requires forall j :: from <= j < k ==> ents[j].inum == 0 || ents[j].name != name
    ensures Lookup(ents, name, from) == k
    decreases k - from
  {
    if from < k { LookupIs(ents, name, k, from + 1); }
  }

  /** An entry put into an empty slot is found under its name, and hides no other. */
  lemma {:induction false} PutResolves(ents: seq<Entry>, k: nat, e: Entry, x: string)
    requires k == Vacant(ents, 0) && e.inum != 0 && Lookup(ents, e.name, 0) == |ents|
    ensures var es := Put(ents, k, e);
      && Lookup(es, e.name, 0) == k < |es| && es[k] == e
      && (x != e.name ==>
            var a, b := Lookup(ents, x, 0), Lookup(es, x, 0);
            (a < |ents| <==> b < |es|) && (a < |ents| ==> b == a && es[a] == ents[a]))
  {
    hide Lookup, Put;
    var es := Put(ents, k, e);
    PutAt(ents, k, e);
    LookupIs(es, e.name, k, 0);
    if x != e.name {
      var a := Lookup(ents, x, 0);
      LookupIs(es, x, if a < |ents| then a else |es|, 0);
    }
  }

  lemma {:induction false} EraseResolves(ents: seq<Entry>, k: nat, x: string)
    requires k < |ents| && x != ents[k].name
    ensures var es := ents[k := EMPTY];
      var a := Lookup(ents, x, 0);
      Lookup(es, x, 0) == a && (a < |ents| ==> es[a] == ents[a])
  {
    hide Lookup;
    LookupIs(ents[k := EMPTY], x, Lookup(ents, x, 0), 0);
  }

  /** link: the new name stands for the file, which has one link more; no other name or inode changed. */
  lemma {:induction false} LinkMeans(nodes: seq<Inode>, nodes': seq<Inode>, start: nat, oldp: string, start': nat, newp: string,
                                     i: nat, d: nat, k: nat)
    requires LinkedTo(nodes, nodes', start, oldp, start', newp, i, d, k) && i > 0
    ensures var name := Last(Components(newp));
      && OnlyThese(nodes, nodes', i, d) && Resolves(nodes', d, name) == i && OtherNames(nodes, nodes', d, name)
      && nodes'[i] == nodes[i].(nlink := nodes[i].nlink + 1) && nodes'[d] == nodes[d].(ents := nodes'[d].ents)
  {
    hide Lookup, Put, Components, Walk, Target;
    var name := Last(Components(newp));
    forall x { PutResolves(nodes[d].ents, k, Entry(i, name), x); }
  }

  /** create: the new name stands for a new inode of that type with one link; a new directory has the
      dots, and its parent one link more; no other name or inode changed. */
  lemma {:induction false} NewMeans(nodes: seq<Inode>, nodes': seq<Inode>, d: nat, name: string, typ: nat, i: nat, k: nat)
    requires New(nodes, nodes', d, name, typ, i, k)
    ensures OnlyThese(nodes, nodes', i, d) && Resolves(nodes', d, name) == i && OtherNames(nodes, nodes', d, name)
    ensures nodes[i].typ == 0 && nodes'[i].typ == typ && nodes'[i].nlink == 1
    ensures nodes'[d].typ == nodes[d].typ && nodes'[d].nlink == nodes[d].nlink + if typ == T_DIR then 1 else 0
    ensures typ != T_DIR ==> nodes'[i].ents == []
    ensures typ == T_DIR ==> forall x :: Resolves(nodes', i, x) == if x == "." then i else if x == ".." then d else 0
  {
    hide Put;
    forall x { PutResolves(nodes[d].ents, k, Entry(i, name), x); }
    if typ == T_DIR {
      assert nodes'[i].ents == [Entry(i, "."), Entry(d, "..")];
      forall x ensures Resolves(nodes', i, x) == if x == "." then i else if x == ".." then d else 0 {
        LookupIs(nodes'[i].ents, x, if x == "." then 0 else if x == ".." && d != 0 then 1 else 2, 0);
      }
    }
  }

  /** unlink: the entry is gone, its inode has one link less and is freed if that was the last hold on
      it, a directory takes a link of its parent with it; no other name or inode changed. */
  lemma {:induction false} RemovedMeans(nodes: seq<Inode>, nodes': seq<Inode>, refs: seq<nat>, d: nat, name: string, k: nat, i: nat)
    requires Removed(nodes, nodes', refs, d, name, k, i)
    ensures OnlyThese(nodes, nodes', i, d) && OtherNames(nodes, nodes', d, name) && Resolves(nodes, d, name) == i
    ensures (forall j :: k < j < |nodes[d].ents| ==> nodes[d].ents[j].inum == 0 || nodes[d].ents[j].name != name) ==>
      Resolves(nodes', d, name) == 0
    ensures nodes'[d].typ == nodes[d].typ && nodes'[d].nlink == nodes[d].nlink - if nodes[i].typ == T_DIR then 1 else 0
    ensures if nodes[i].nlink == 1 && refs[i] == 0 then nodes'[i] == Inode(0, 0, [])
            else nodes'[i] == nodes[i].(nlink := nodes[i].nlink - 1)
  {
    hide Lookup;
    var ents := nodes[d].ents;
    forall x | x != name { EraseResolves(ents, k, x); }
    if forall j :: k < j < |ents| ==> ents[j].inum == 0 || ents[j].name != name {
      LookupIs(ents[k := EMPTY], name, |ents|, 0);
    }
  }
}
