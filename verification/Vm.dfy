/** The page allocator of kalloc.c and the address spaces of vm.c. */
module Vm {
  import opened DiskWrites
  import opened PageTables
  import opened AddressSpaces

  class Memory {
    const lo: nat                // first page after the kernel
    const data: nat              // V2P(data) / PGSIZE
    var mem: Mem
    var freelist: Word
    ghost var free: seq<nat>
    ghost var owner: map<nat, Use>
    ghost var held: set<nat>     // pages kalloc gave to others: kernel stacks, pipes, and pages lost
    ghost var dirs: set<nat>     // page directories
    ghost var spaces: set<nat>   // those whose kernel half is complete
    ghost var pool: set<nat>     // pages that ever came from freerange

    ghost predicate Valid()
      reads this
    {
      && 0x100 < data <= lo < HI
      && FreeOk(mem, freelist, free) && Parts(lo, free, owner, held, pool) && Own(mem, dirs, owner)
      && (forall d :: d in dirs ==> d < |mem|)
      && spaces <= dirs && forall d :: d in spaces ==> Kernel(mem, data, d)
    }

    lemma {:induction false} ValidFacts()
      requires Valid()
      ensures FreeOk(mem, freelist, free) && Parts(lo, free, owner, held, pool) && Own(mem, dirs, owner)
      ensures spaces <= dirs && lo < HI && forall d :: d in dirs ==> d < |mem|
    {
    }

    /** Memory before kinit1: nothing is free and no address space exists. */
    constructor (lo: nat, data: nat, mem: Mem)
      requires 0x100 < data <= lo < HI && |mem| == HI
      ensures Valid() && this.lo == lo && this.data == data && this.mem == mem
      ensures free == [] && pool == {} && dirs == {} && spaces == {} && held == {}
    {
      this.lo, this.data, this.mem, freelist := lo, data, mem, 0;
      free, owner, held, dirs, spaces, pool := [], map[], {}, {}, {}, {};
    }

    /** freerange over the pages from..to, none of which the allocator has yet. */
    method FreeRange(from: nat, to: nat)
      requires Valid() && lo <= from <= to <= HI && forall p :: from <= p < to ==> p !in pool
      modifies `mem, `freelist, `free, `pool
      ensures Valid() && |mem| == |old(mem)| && forall p :: p in pool <==> p in old(pool) || from <= p < to
      ensures forall p :: p in free <==> p in old(free) || from <= p < to
      ensures |free| == |old(free)| + to - from
    {
      hide Own, FreeOk, Pte, KernelPte, PageOf, Addr;
      for a := from to to
        invariant Valid() && |mem| == |old(mem)| && forall p :: p in pool <==> p in old(pool) || from <= p < a
        invariant forall p :: p in free <==> p in old(free) || from <= p < a
        invariant |free| == |old(free)| + a - from
      {
        ghost var m1, f1 := mem, free;
        AddrPage(a);
        FreeHead(mem, freelist, free);
        assert a !in pool;
        var ok := Kfree(Addr(a));
        assert mem == m1[a := mem[a]];
        OwnDirs(m1, dirs, owner);
        WriteData(m1, dirs, owner, a, mem[a]);
        pool := pool + {a};
        forall e | e in spaces ensures Kernel(mem, data, e) {
          KernelSame(m1, mem, data, e);
        }
      }
    }

    /** kfree; false is the panic. */
    method Kfree(v: Word) returns (ok: bool)
      requires FreeOk(mem, freelist, free) && lo < HI && PageOf(v) !in free
      modifies `mem, `freelist, `free
      ensures ok <==> lo <= PageOf(v) < HI && v == Addr(PageOf(v))
      ensures !ok ==> mem == old(mem) && freelist == old(freelist) && free == old(free)
      ensures ok ==>
        && FreeOk(mem, freelist, free) && free == [PageOf(v)] + old(free)
        && |mem| == |old(mem)| && forall q :: 0 <= q < |mem| && q != PageOf(v) ==> mem[q] == old(mem)[q]
    {
      hide FreeOk, PageOf, Addr;
      KfreeTest(v, lo);
      FreeHead(mem, freelist, free);
      if v % PGSIZE != 0 || v < Addr(lo) || v >= KERNBASE + HI * PGSIZE {
        return false;
      }
      var p: nat := PageOf(v);
      FreePush(mem, freelist, free, p);
      mem := mem[p := JunkPage()];
      mem := mem[p := mem[p][0 := freelist]];
      assert mem == old(mem)[p := JunkPage()[0 := freelist]];
      freelist := v;
      free := [p] + free;
      return true;
    }

    /** kalloc: the first free page, or 0. */
    method Kalloc() returns (v: Word)
      requires Valid()
      modifies `freelist, `free, `held
      ensures Valid()
      ensures v == 0 <==> old(free) == []
      ensures v == 0 ==> freelist == old(freelist) && free == old(free) && held == old(held)
      ensures v != 0 ==>
        && lo <= PageOf(v) < HI && v == Addr(PageOf(v)) && PageOf(v) == old(free)[0] && PageOf(v) !in owner
        && free == old(free)[1..] && held == old(held) + {PageOf(v)} && PageOf(v) !in old(held)
    {
      hide FreeOk, Parts, Own, Kernel, PageOf, Addr;
      FreeHead(mem, freelist, free);
      v := freelist;
      if v != 0 {
        FreePop(mem, freelist, free);
        PartsPop(lo, free, owner, held, pool);
        ghost var p := free[0];
        AddrPage(p);
        freelist := mem[PageOf(v)][0];
        free := free[1..];
        held := held + {p};
      }
    }
  
    /** walkpgdir: the table that holds the entry of page n. */
    method Walk(d: nat, n: nat, alloc: bool) returns (ok: bool, t: nat)
      requires Valid() && d in dirs && n < SPACE
      modifies `mem, `freelist, `free, `held, `owner
      ensures Valid() && held == old(held) && |mem| == |old(mem)|
      ensures ok <==> Present(old(mem)[d][n / ENTRIES]) || (alloc && old(free) != [])
      ensures ok ==> Present(mem[d][n / ENTRIES]) && t == Frame(mem[d][n / ENTRIES])
      ensures !ok || Present(old(mem)[d][n / ENTRIES]) ==>
        mem == old(mem) && freelist == old(freelist) && free == old(free) && owner == old(owner)
      ensures ok && !Present(old(mem)[d][n / ENTRIES]) ==>
        free == old(free)[1..] && owner == old(owner)[t := Table(d, n / ENTRIES)] && t !in old(owner)
      ensures forall x :: 0 <= x < ENTRIES && x != n / ENTRIES ==> mem[d][x] == old(mem)[d][x]
      ensures forall m :: 0 <= m < SPACE ==> Pte(mem, d, m) == Pte(old(mem), d, m)
      ensures OthersSame(old(mem), mem, dirs, d) && DataSame(old(mem), mem, old(owner), old(held))
    {
      hide Own, FreeOk, Parts, Pte, KernelPte, Entry, Present, Frame, PageOf, Addr;
      var x := n / ENTRIES;
      if Present(mem[d][x]) {
        return true, Frame(mem[d][x]);
      }
      if !alloc {
        return false, 0;
      }
      var v := Kalloc();
      if v == 0 {
        return false, 0;
      }
      t := PageOf(v);
      WalkKeeps(lo, mem, freelist, free, dirs, owner, held, pool, d, x, t);
      mem := mem[t := ZeroPage()];
      mem := mem[d := mem[d][x := Entry(t, PTE_W + PTE_U)]];
      owner := owner[t := Table(d, x)];
      held := held - {t};
      forall e | e in spaces ensures Kernel(mem, data, e) {
        KernelSame(old(mem), mem, data, e);
      }
      ok := true;
    }
  
    /** *pte = pa | perm | PTE_P */
    method Store(d: nat, n: nat, t: nat, w: Word)
      requires Valid() && d in dirs && n < SPACE && Present(mem[d][n / ENTRIES]) && t == Frame(mem[d][n / ENTRIES])
      requires !Present(Pte(mem, d, n)) && Present(w) && if n < USER then Frame(w) in held else d !in spaces
      modifies `mem, `held, `owner
      ensures Valid() && |mem| == |old(mem)| && mem[d] == old(mem)[d]
      ensures forall m :: 0 <= m < SPACE ==> Pte(mem, d, m) == if m == n then w else Pte(old(mem), d, m)
      ensures held == if n < USER then old(held) - {Frame(w)} else old(held)
      ensures OthersSame(old(mem), mem, dirs, d) && DataSame(old(mem), mem, old(owner), old(held))
      ensures Extends(old(owner), owner, d)
    {
      hide Own, FreeOk, Parts, Pte, KernelPte, Present, Frame;
      OwnDirs(mem, dirs, owner);
      StoreKeeps(lo, mem, freelist, free, dirs, owner, held, pool, d, n, w);
      mem := mem[t := mem[t][n % ENTRIES := w]];
      if n < USER {
        PartsUse(lo, free, owner, held, pool, Frame(w), User(d, n));
        MapUser(old(mem), mem, dirs, owner, d, n, w);
        owner := owner[Frame(w) := User(d, n)];
        held := held - {Frame(w)};
      } else {
        MapKernel(old(mem), mem, dirs, owner, d, n, w);
      }
      forall e | e in spaces ensures Kernel(mem, data, e) {
        KernelSame(old(mem), mem, data, e);
      }
    }

    /** One round of mappages' loop: the entry of page n becomes w. */
    method MapPage(d: nat, n: nat, w: Word) returns (r: MapResult)
      requires Valid() && d in dirs && n < SPACE && Present(w)
      requires if n < USER then Frame(w) in held else d !in spaces
      modifies `mem, `freelist, `free, `held, `owner
      ensures Valid() && |mem| == |old(mem)|
      ensures r.NoTable? <==> !Present(old(mem)[d][n / ENTRIES]) && old(free) == []
      ensures r.Remap? <==> Present(Pte(old(mem), d, n))
      ensures !r.Mapped? ==> mem == old(mem) && free == old(free) && owner == old(owner) && held == old(held)
      ensures r.Mapped? ==>
        && (forall m :: 0 <= m < SPACE ==> Pte(mem, d, m) == if m == n then w else Pte(old(mem), d, m))
        && free == (if Present(old(mem)[d][n / ENTRIES]) then old(free) else old(free)[1..])
        && held == (if n < USER then old(held) - {Frame(w)} else old(held))
        && Tabled(old(mem), mem, d, n / ENTRIES)
      ensures OthersSame(old(mem), mem, dirs, d) && DataSame(old(mem), mem, old(owner), old(held))
      ensures Extends(old(owner), owner, d)
    {
      hide Own, FreeOk, Parts, Pte, Kernel, Present, Frame, OthersSame, DataSame, Extends;
      GrowStart(mem, dirs, d, 0, owner, held);
      var ok, t := Walk(d, n, true);
      PteAbsent(old(mem), d, n);
      if !ok {
        return NoTable;
      }
      PteAt(mem, dirs, owner, d, n);
      if Present(mem[t][n % ENTRIES]) {
        return Remap;
      }
      ghost var m1, o1 := mem, owner;
      WalkExtends(old(owner), owner, d, n / ENTRIES, t);
      Store(d, n, t, w);
      GrowFrame(old(mem), m1, mem, dirs, d, old(owner), old(held), o1, old(held), owner);
      r := Mapped;
    }

    /** mappages: one user page, or a range of the kernel half. */
    method MapPages(d: nat, va: Word, size: Word, pa: Word, perm: nat) returns (r: MapResult)
      requires Valid() && d in dirs && 0 < size && va + size <= 0x1_0000_0000 && perm < 0x1000 && pa % PGSIZE == 0
      requires pa / PGSIZE + (va + size - 1) / PGSIZE - va / PGSIZE < SPACE
      requires if va / PGSIZE < USER then va / PGSIZE == (va + size - 1) / PGSIZE && pa / PGSIZE in held else d !in spaces
      modifies `mem, `freelist, `free, `held, `owner
      ensures Valid() && |mem| == |old(mem)|
      ensures OthersSame(old(mem), mem, dirs, d) && DataSame(old(mem), mem, old(owner), old(held))
      ensures r.Mapped? ==> forall m :: 0 <= m < SPACE ==>
        Pte(mem, d, m) ==
        if va / PGSIZE <= m <= (va + size - 1) / PGSIZE then Entry(pa / PGSIZE + m - va / PGSIZE, perm) else Pte(old(mem), d, m)
      ensures r.NoTable? ==> free == []
      ensures va / PGSIZE >= USER ==>
        && |free| + |Tables(mem, d)| == |old(free)| + |Tables(old(mem), d)|
        && (r.Mapped? ==> Reached(Tables(old(mem), d), Tables(mem, d), va / PGSIZE, (va + size - 1) / PGSIZE + 1))
        && (r.NoTable? ==> StoppedAt(Tables(old(mem), d), Tables(mem, d), va / PGSIZE, (va + size - 1) / PGSIZE))
      ensures r.Remap? ==> exists m :: va / PGSIZE <= m <= (va + size - 1) / PGSIZE && Present(Pte(old(mem), d, m))
      ensures va / PGSIZE >= USER ==> held == old(held)
      ensures Extends(old(owner), owner, d)
      ensures va / PGSIZE < USER ==> var n := va / PGSIZE;
        && (r.NoTable? <==> !Present(old(mem)[d][n / ENTRIES]) && old(free) == [])
        && (r.Remap? <==> Present(Pte(old(mem), d, n)))
        && (!r.Mapped? ==> mem == old(mem) && free == old(free) && owner == old(owner) && held == old(held))
        && (r.Mapped? ==>
              && free == (if Present(old(mem)[d][n / ENTRIES]) then old(free) else old(free)[1..])
              && held == old(held) - {pa / PGSIZE} && Tabled(old(mem), mem, d, n / ENTRIES))
    {
      hide Own, FreeOk, Parts, Pte, Kernel, Entry, Present, Frame, Tables, Reached, StoppedAt, OthersSame, DataSame, Extends, Tabled;
      GrowStart(mem, dirs, d, va / PGSIZE, owner, held);
      var first, last := va / PGSIZE, (va + size - 1) / PGSIZE;
      OwnDirs(mem, dirs, owner);
      var a := first;
      while true
        invariant first <= a <= last && Valid() && |mem| == |old(mem)|
        invariant OthersSame(old(mem), mem, dirs, d) && DataSame(old(mem), mem, old(owner), old(held))
        invariant forall m :: 0 <= m < SPACE ==>
          Pte(mem, d, m) == if first <= m < a then Entry(pa / PGSIZE + m - first, perm) else Pte(old(mem), d, m)
        invariant held == old(held) && Extends(old(owner), owner, d)
        invariant Reached(Tables(old(mem), d), Tables(mem, d), first, a)
        invariant |free| + |Tables(mem, d)| == |old(free)| + |Tables(old(mem), d)|
        invariant a == first ==> mem == old(mem) && free == old(free) && owner == old(owner)
        decreases last - a
      {
        ghost var m1, o1 := mem, owner;
        r := MapPage(d, a, Entry(pa / PGSIZE + (a - first), perm));
        GrowFrame(old(mem), m1, mem, dirs, d, old(owner), old(held), o1, old(held), owner);
        if !r.Mapped? {
          if r.NoTable? { StopHere(mem, d, Tables(old(mem), d), first, a, last); }
          return;
        }
        TabledTables(m1, mem, d, a / ENTRIES);
        ReachedOn(Tables(old(mem), d), Tables(m1, d), first, a);
        if a == last {
          return;
        }
        a := a + 1;
      }
    }
  
    /** The first half of setupkvm: a zeroed directory. */
    method NewDirectory() returns (v: Word)
      requires Valid()
      modifies `mem, `freelist, `free, `held, `owner, `dirs
      ensures Valid() && |mem| == |old(mem)| && held == old(held)
      ensures v == 0 <==> old(free) == []
      ensures v == 0 ==> mem == old(mem) && free == old(free) && owner == old(owner) && dirs == old(dirs)
      ensures v != 0 ==>
        && 0 <= PageOf(v) < |mem| && v == Addr(PageOf(v)) && PageOf(v) !in old(dirs) && dirs == old(dirs) + {PageOf(v)}
        && free == old(free)[1..] && Tables(mem, PageOf(v)) == {}
        && forall n :: 0 <= n < SPACE ==> Pte(mem, PageOf(v), n) == 0
      ensures SameSpaces(old(mem), mem, old(dirs)) && DataSame(old(mem), mem, old(owner), old(held))
      ensures if v == 0 then owner == old(owner) else Extends(old(owner), owner, PageOf(v))
    {
      hide Own, FreeOk, Parts, Pte, KernelPte, PageOf, Addr;
      OwnDirs(mem, dirs, owner);
      v := Kalloc();
      if v != 0 {
        var d: nat := PageOf(v);
        FreeHead(mem, freelist, free);
        PartsUse(lo, free, owner, held, pool, d, Dir);
        HeldNotFree(lo, free, owner, held, pool, d);
        WriteData(mem, dirs, owner, d, ZeroPage());
        FreeWrite(mem, freelist, free, d, ZeroPage());
        mem := mem[d := ZeroPage()];
        NewDir(mem, dirs, owner, d);
        owner, held, dirs := owner[d := Dir], held - {d}, dirs + {d};
        OwnDirs(mem, dirs, owner);
        forall e | e in spaces ensures Kernel(mem, data, e) {
          KernelSame(old(mem), mem, data, e);
        }
      }
    }

    /** setupkvm's loop over kmap. */
    method MapKmap(d: nat) returns (ok: bool)
      requires Valid() && d in dirs && d !in spaces && Tables(mem, d) == {} && forall n :: 0 <= n < SPACE ==> Pte(mem, d, n) == 0
      modifies `mem, `freelist, `free, `held, `owner
      ensures Valid() && |mem| == |old(mem)| && held == old(held)
      ensures ok ==> Kernel(mem, data, d) && forall n :: 0 <= n < USER ==> Pte(mem, d, n) == 0
      ensures ok <==> |old(free)| >= 64
      ensures if ok then |free| == |old(free)| - 64 && Tables(mem, d) == KernelTables() else free == []
      ensures OthersSame(old(mem), mem, dirs, d) && DataSame(old(mem), mem, old(owner), old(held))
      ensures Extends(old(owner), owner, d)
    {
      hide Own, FreeOk, Parts, Pte, KernelPte, Kernel, Covered, Tables, KmapTables, KernelTables, Reached, StoppedAt,
           OthersSame, DataSame, Extends;
      GrowStart(mem, dirs, d, 0, owner, held);
      NoneCovered(data);
      KmapTablesEnds(data);
      KernelTablesSize();
      for i := 0 to 4
        invariant Valid() && |mem| == |old(mem)| && held == old(held)
        invariant forall n :: 0 <= n < SPACE ==> Pte(mem, d, n) == if Covered(data, i, n) then KernelPte(data, n) else 0
        invariant OthersSame(old(mem), mem, dirs, d) && DataSame(old(mem), mem, old(owner), old(held))
        invariant Extends(old(owner), owner, d)
        invariant Tables(mem, d) == KmapTables(data, i) && |free| + |Tables(mem, d)| == |old(free)|
      {
        var k := Kmap(data, i);
        KmapRange(data, i);
        ghost var have, m1, o1 := Tables(mem, d), mem, owner;
        var r := MapPages(d, k.virt, k.size, k.phys, k.perm);
        GrowFrame(old(mem), m1, mem, dirs, d, old(owner), old(held), o1, old(held), owner);
        if r.NoTable? {
          KmapStopped(data, i, have, Tables(mem, d));
          return false;
        }
        KmapTablesOn(data, i, have, Tables(mem, d));
        forall n | 0 <= n < SPACE ensures Pte(mem, d, n) == if Covered(data, i + 1, n) then KernelPte(data, n) else 0 {
          KmapPte(data, i, n);
        }
      }
      AllCovered(mem, data, d);
      ok := true;
    }

    /** setupkvm. When page tables run out it returns 0 and keeps the directory it began. */
    method SetupKvm() returns (v: Word, ghost d: nat)
      requires Valid()
      modifies `mem, `freelist, `free, `held, `owner, `dirs, `spaces
      ensures Valid() && |mem| == |old(mem)| && held == old(held)
      ensures v != 0 ==>
        && PageOf(v) == d < |mem| && v == Addr(d) && d !in old(dirs)
        && dirs == old(dirs) + {d} && spaces == old(spaces) + {d}
        && |free| == |old(free)| - 65 && Tables(mem, d) == KernelTables()
        && forall n :: 0 <= n < USER ==> Pte(mem, d, n) == 0
      ensures v != 0 <==> |old(free)| >= 65
      ensures v == 0 ==>
        && free == [] && spaces == old(spaces)
        && if old(free) == [] then dirs == old(dirs) && owner == old(owner) else dirs == old(dirs) + {d} && d !in old(dirs)
      ensures SameSpaces(old(mem), mem, old(dirs)) && DataSame(old(mem), mem, old(owner), old(held))
      ensures Extends(old(owner), owner, d)
    {
      hide Own, FreeOk, Parts, Pte, PageOf, Addr, Kernel;
      v := NewDirectory();
      d := 0;
      if v == 0 {
        return;
      }
      d := PageOf(v);
      assert d in dirs && d !in spaces;
      ghost var m1 := mem;
      var ok := MapKmap(PageOf(v));
      ThenOthers(old(mem), m1, mem, old(dirs), dirs, d);
      if !ok {
        return 0, d;
      }
      spaces := spaces + {d};
    }
  
    /** The end of deallocuvm's loop body: kfree(v); *pte = 0. */
    method Release(d: nat, n: nat, t: nat) returns (ok: bool)
      requires Valid() && d in dirs && n < USER && Present(mem[d][n / ENTRIES]) && t == Frame(mem[d][n / ENTRIES])
      requires Present(Pte(mem, d, n))
      modifies `mem, `freelist, `free, `owner
      ensures ok && Valid() && |mem| == |old(mem)| && mem[d] == old(mem)[d]
      ensures OthersSame(old(mem), mem, dirs, d) && DataSame(old(mem), mem, owner, held)
      ensures forall m :: 0 <= m < SPACE ==> Pte(mem, d, m) == if m == n then 0 else Pte(old(mem), d, m)
      ensures var p := Frame(Pte(old(mem), d, n)); p in old(owner) && owner == old(owner) - {p} && free == [p] + old(free)
    {
      hide Own, FreeOk, Pte, KernelPte, Present, Frame, PageOf, Addr;
      PteAt(mem, dirs, owner, d, n);
      UserOf(mem, dirs, owner, d, n);
      var p := Frame(mem[t][n % ENTRIES]);
      AddrPage(p);
      ghost var m0, f0 := mem, free;
      ok := Kfree(Addr(p));
      ReleaseKeeps(lo, m0, mem, freelist, f0, dirs, owner, held, pool, d, n, p);
      mem := mem[t := mem[t][n % ENTRIES := 0]];
      owner := owner - {p};
      forall e | e in spaces ensures Kernel(mem, data, e) {
        KernelSame(m0, mem, data, e);
      }
    }
  
    /** deallocuvm: unmap and free the user pages from newsz to oldsz that the walk comes to. */
    method DeallocUvm(d: nat, oldsz: Word, newsz: Word) returns (sz: Word)
      requires Valid() && d in dirs && oldsz <= KERNBASE
      modifies `mem, `freelist, `free, `owner, `held
      ensures held == old(held) && Valid() && |mem| == |old(mem)| && mem[d] == old(mem)[d]
      ensures sz == if newsz >= oldsz then oldsz else newsz
      ensures newsz >= oldsz ==> mem == old(mem) && free == old(free) && owner == old(owner)
      ensures newsz < oldsz ==> var s, e := PagesUp(newsz), PagesUp(oldsz);
        && Swept(old(mem), mem, d, s, e, e) && |free| == |old(free)| + Unmapped(old(mem), d, s, e, e)
        && (forall n :: s <= n < e ==> (Present(Pte(mem, d, n)) <==> Leftover(old(mem), d, s, n)))
        && (NoneMapped(mem, d, s, e) <==> forall n :: s <= n < e ==> !Leftover(old(mem), d, s, n))
      ensures OthersSame(old(mem), mem, dirs, d) && DataSame(old(mem), mem, owner, held)
      ensures Returned(old(free), old(owner), free, owner, d)
    {
      hide Own, FreeOk, Parts, Pte, Kernel, Frame, Visits, Unmapped, Swept, Leftover, OthersSame, DataSame;
      GrowStart(mem, dirs, d, 0, owner, held);
      if newsz >= oldsz {
        return oldsz;
      }
      ghost var s, e := PagesUp(newsz), PagesUp(oldsz);
      var a := PagesUp(newsz);
      SweepStart(mem, d, s, e);
      while a * PGSIZE < oldsz
        invariant s <= a < SPACE && held == old(held) && Valid() && |mem| == |old(mem)| && mem[d] == old(mem)[d]
        invariant Visits(old(mem)[d], s, a) && Swept(old(mem), mem, d, s, a, e)
        invariant OthersSame(old(mem), mem, dirs, d) && DataSame(old(mem), mem, owner, held)
        invariant Returned(old(free), old(owner), free, owner, d)
        invariant |free| == |old(free)| + Unmapped(old(mem), d, s, a, e)
      {
        ghost var m1, a0, o1 := mem, a, owner;
        assert a < e && a < USER;
        var ok, t := Walk(d, a, false);
        if !ok {
          PteAbsent(mem, d, a);
          a := a + (ENTRIES - 1);
        } else {
          PteAt(mem, dirs, owner, d, a);
          if Present(mem[t][a % ENTRIES]) {
            UserOf(mem, dirs, owner, d, a);
            ok := Release(d, a, t);
          }
        }
        a := a + 1;
        SweepOn(old(mem), m1, mem, d, s, a0, e, a);
        SweepFrame(old(mem), m1, mem, dirs, d, o1, owner, held);
      }
      SweepEnd(old(mem), mem, d, s, a, e);
      UnmappedEnd(old(mem), d, s, e, a);
      ShrinkExact(old(mem), mem, d, s, e);
      return newsz;
    }
  
    /** The free list holds what it held, plus the tables of d below entry i. */
    ghost predicate TablesFreed(f: seq<nat>, o: map<nat, Use>, d: nat, i: nat)
      reads this
    { forall p :: p in free <==> p in f || (p in o && o[p].Table? && o[p].d == d && o[p].x < i) }

    /** freevm's loop over the directory, which frees its tables. */
    method FreeTables(d: nat)
      requires Valid() && d in dirs
      modifies `mem, `freelist, `free
      ensures FreeOk(mem, freelist, free) && |mem| == |old(mem)| && mem[d] == old(mem)[d]
      ensures TablesFreed(old(free), owner, d, ENTRIES)
      ensures forall q :: 0 <= q < |mem| && !(q in owner && BelongsTo(owner[q], q, d)) ==> mem[q] == old(mem)[q]
    {
      hide Own, FreeOk, Pte, Kernel, PageOf, Addr, Present, Frame;
      OwnDirs(mem, dirs, owner);
      for i := 0 to ENTRIES
        invariant FreeOk(mem, freelist, free) && |mem| == |old(mem)| && mem[d] == old(mem)[d]
        invariant TablesFreed(old(free), owner, d, i)
        invariant forall q :: 0 <= q < |mem| && !(q in owner && BelongsTo(owner[q], q, d)) ==> mem[q] == old(mem)[q]
      {
        OneTable(old(mem), dirs, owner, d, i);
        if Present(mem[d][i]) {
          var p := Frame(mem[d][i]);
          AddrPage(p);
          var ok := Kfree(Addr(p));
        }
      }
    }

    /** The rest of freevm: the tables, then the directory itself. */
    method DropSpace(v: Word, d: nat)
      requires Valid() && d in dirs && v == Addr(d) && MappedBelow(mem, d, 0)
      modifies `mem, `freelist, `free, `owner, `dirs, `spaces
      ensures Valid() && |mem| == |old(mem)|
      ensures dirs == old(dirs) - {d} && spaces == old(spaces) - {d} && owner == Others(old(owner), d)
      ensures forall p :: p in free <==> p in old(free) || (p in old(owner) && BelongsTo(old(owner)[p], p, d))
      ensures OthersSame(old(mem), mem, old(dirs), d) && DataSame(old(mem), mem, owner, held)
    {
      hide Own, FreeOk, Pte, KernelPte, PageOf, Addr, Present, Frame, Parts, Others, OthersSame, DataSame, BelongsTo;
      OwnDirs(mem, dirs, owner);
      OnlyTables(mem, dirs, owner, d);
      FreeTables(d);
      DirNotFree(lo, old(free), owner, held, pool, free, d);
      AddrPage(d);
      var ok := Kfree(v);
      AllReturned(lo, old(free), owner, held, pool, free, d);
      OthersKept(old(mem), mem, owner, d);
      DropDir(old(mem), mem, dirs, owner, d);
      OthersOn(old(mem), mem, dirs, owner, d);
      OthersData(old(mem), mem, owner, held, lo, old(free), pool, d);
      owner, dirs, spaces := Others(owner, d), dirs - {d}, spaces - {d};
      forall e | e in spaces ensures Kernel(mem, data, e) {
        KernelSame(old(mem), mem, data, e);
      }
    }

    /** freevm: every page of the address space goes back to the free list. */
    method FreeVm(v: Word) returns (ok: bool)
      requires Valid() && (v != 0 ==> PageOf(v) in dirs && v == Addr(PageOf(v)))
      modifies `mem, `freelist, `free, `owner, `held, `dirs, `spaces
      ensures ok <==> v != 0
      ensures Valid() && |mem| == |old(mem)| && held == old(held)
      ensures ok ==> var d := PageOf(v);
        && dirs == old(dirs) - {d} && spaces == old(spaces) - {d} && owner == Others(old(owner), d)
        && (forall p :: p in free <==> p in old(free) || (p in old(owner) && BelongsTo(old(owner)[p], p, d)))
        && OthersSame(old(mem), mem, old(dirs), d) && DataSame(old(mem), mem, owner, held)
    {
      hide Own, FreeOk, Pte, Kernel, PageOf, Addr, Swept, Parts, Others;
      if v == 0 {
        return false;
      }
      var d: nat := PageOf(v);
      var sz := DeallocUvm(d, KERNBASE, 0);
      SweepAll(old(mem), mem, d);
      OthersTwice(old(owner), owner, d);
      OthersIn(owner, d);
      DropSpace(v, d);
      ok := true;
    }
  
    /** Fill a page that kalloc returned. */
    method Fill(p: nat, c: Page)
      requires Valid() && p in held
      modifies `mem
      ensures Valid() && |mem| == |old(mem)| == HI && p < HI && mem == old(mem)[p := c]
      ensures SameSpaces(old(mem), mem, dirs) && DataSame(old(mem), mem, owner, held - {p})
    {
      hide Own, FreeOk, Pte, KernelPte;
      FreeHead(mem, freelist, free);
      OwnDirs(mem, dirs, owner);
      WriteData(mem, dirs, owner, p, c);
      FreeWrite(mem, freelist, free, p, c);
      mem := mem[p := c];
      forall e | e in spaces ensures Kernel(mem, data, e) {
        KernelSame(old(mem), mem, data, e);
      }
    }

    /** A page for user page n of d, filled with c: kalloc, then a copy, then mappages. */
    method AddPage(d: nat, n: nat, c: Page, perm: nat) returns (r: AddResult)
      requires Valid() && d in dirs && n < USER && perm < 0x1000
      modifies `mem, `freelist, `free, `held, `owner
      ensures Valid() && |mem| == |old(mem)|
      ensures r.NoPage? <==> old(free) == []
      ensures r.TableMissing? <==> |old(free)| == 1 && n / ENTRIES !in Tables(old(mem), d)
      ensures r.AlreadyMapped? <==> old(free) != [] && Present(Pte(old(mem), d, n))
      ensures r.NoPage? ==> mem == old(mem) && held == old(held) && owner == old(owner) && free == old(free)
      ensures r.TableMissing? ==>
        && free == [] && held == old(held) + {r.p} && r.p !in old(held) && owner == old(owner)
        && mem[d] == old(mem)[d] && forall m :: 0 <= m < SPACE ==> Pte(mem, d, m) == Pte(old(mem), d, m)
      ensures r.Added? ==>
        && r.p < |mem| && r.p < SPACE && mem[r.p] == c && held == old(held)
        && (forall m :: 0 <= m < SPACE ==> Pte(mem, d, m) == if m == n then Entry(r.p, perm) else Pte(old(mem), d, m))
        && Tables(mem, d) == Tables(old(mem), d) + {n / ENTRIES}
        && |old(free)| == |free| + 1 + (if n / ENTRIES in Tables(old(mem), d) then 0 else 1)
      ensures OthersSame(old(mem), mem, dirs, d) && DataSame(old(mem), mem, old(owner), old(held))
      ensures Extends(old(owner), owner, d)
    {
      hide Own, FreeOk, Parts, Pte, Kernel, Entry, PageOf, Addr, Frame, Present;
      OwnDirs(mem, dirs, owner);
      var v := Kalloc();
      if v == 0 {
        return NoPage;
      }
      var p: nat := PageOf(v);
      Fill(p, c);
      ghost var m1 := mem;
      PageArith(n, p);
      var m := MapPages(d, n * PGSIZE, PGSIZE, p * PGSIZE, perm);
      if m.NoTable? {
        return TableMissing(p);
      }
      if m.Remap? {
        return AlreadyMapped;
      }
      TabledTables(m1, mem, d, n / ENTRIES);
      return Added(p);
    }
  
    /** allocuvm's loop, which ends at page k. */
    method Grow(d: nat, s: nat, e: nat) returns (c: GrowCode, ghost r: GrowEnd, ghost k: nat)
      requires Valid() && d in dirs && s <= e <= USER
      modifies `mem, `freelist, `free, `held, `owner
      ensures Valid() && |mem| == |old(mem)|
      ensures OthersSame(old(mem), mem, dirs, d)
      ensures DataSame(old(mem), mem, old(owner), old(held)) && Extends(old(owner), owner, d)
      ensures s <= k <= e && NoneMapped(old(mem), d, s, k) && (r.Remapped? ==> Present(Pte(old(mem), d, k)))
      ensures Ended(r, Tables(old(mem), d), s, k, e, |old(free)|, |free|)
      ensures !r.Remapped? ==>
        && Fresh(old(mem), mem, d, s, k) && Reached(Tables(old(mem), d), Tables(mem, d), s, k)
        && held == old(held) + Lost(r) && Lost(r) !! old(held)
      ensures (c.RemapPanic? <==> r.Remapped?) && (c.Went? <==> r.Complete? || (r.LostPage? && k + 1 == e))
    {
      hide Own, FreeOk, Parts, Pte, Kernel, Entry, Present, Frame, Fresh, NoneMapped, OthersSame, DataSame, Need, Tables,
           Reached, NeedsTable, Extends;
      ghost var have := Tables(mem, d);
      GrowStart(mem, dirs, d, s, owner, held);
      k, r := s, Complete;
      for a := s to e
        invariant Valid() && |mem| == |old(mem)|
        invariant OthersSame(old(mem), mem, dirs, d)
        invariant DataSame(old(mem), mem, old(owner), old(held)) && Extends(old(owner), owner, d)
        invariant s <= k <= a && NoneMapped(old(mem), d, s, k)
        invariant Fresh(old(mem), mem, d, s, k) && Reached(have, Tables(mem, d), s, k)
        invariant held == old(held) + Lost(r) && Lost(r) !! old(held)
        invariant match r
          case Complete => k == a && |old(free)| == |free| + Need(have, s, a)
          case LostPage(_) => k + 1 == a && free == [] && LossAt(have, s, k, |old(free)|)
          case _ => false
      {
        ghost var m1, o1, h1, f1 := mem, owner, held, free;
        NotTouched(old(mem), mem, d, s, k, a);
        var ar := AddPage(d, a, ZeroPage(), PTE_W + PTE_U);
        GrowFrame(old(mem), m1, mem, dirs, d, old(owner), old(held), o1, h1, owner);
        if ar.NoPage? {
          if r.Complete? { r := NoneFree; }
          return OutOfMemory, r, k;
        } else if ar.AlreadyMapped? {
          return RemapPanic, Remapped, k;
        }
        NeedSnoc(have, Tables(m1, d), s, a);
        if ar.TableMissing? {
          r := LostPage(ar.p);
          SameFresh(old(mem), m1, mem, dirs, o1, h1, d, s, k);
        } else {
          FreshOn(old(mem), m1, mem, dirs, o1, h1, d, s, a, ar.p);
          NoneMappedOn(old(mem), d, s, a);
          k := a + 1;
          ReachedOn(have, Tables(m1, d), s, a);
        }
      }
      c := Went;
    }

    /** allocuvm. The number of free pages decides: it maps every page; or, one page short and that
        page a table for the last one, it reports success with the last page missing; or it fails
        and unmaps what it mapped. A page whose table was missing is lost in the second case, and in
        the third if the free pages ran out just there. Tables it added stay. A page that is mapped
        already is a panic. */
    method AllocUvm(d: nat, oldsz: Word, newsz: Word) returns (r: GrowResult)
      requires Valid() && d in dirs
      modifies `mem, `freelist, `free, `held, `owner
      ensures Valid() && |mem| == |old(mem)|
      ensures newsz >= KERNBASE ==> r == Grown(0) && mem == old(mem) && free == old(free) && held == old(held)
      ensures newsz < KERNBASE && newsz < oldsz ==> r == Grown(oldsz) && mem == old(mem) && free == old(free) && held == old(held)
      ensures oldsz <= newsz < KERNBASE ==>
        var s, e, have, f := PagesUp(oldsz), PagesUp(newsz), Tables(old(mem), d), |old(free)|;
        && s <= e <= USER && (r.GrowPanic? <==> WillRemap(old(mem), d, s, e, f))
        && (r.Grown? ==>
              && old(held) <= held && |held - old(held)| == (if SomeLoss(have, s, e, f) then 1 else 0)
              && if f >= Need(have, s, e) then
                   && r.sz == newsz && NoneMapped(old(mem), d, s, e) && Fresh(old(mem), mem, d, s, e)
                   && |free| == f - Need(have, s, e) && Reached(have, Tables(mem, d), s, e)
                 else if f + 1 == Need(have, s, e) && LastNeedsTable(have, s, e) then
                   && r.sz == newsz && NoneMapped(old(mem), d, s, e - 1) && Fresh(old(mem), mem, d, s, e - 1)
                   && free == [] && Reached(have, Tables(mem, d), s, e - 1)
                 else
                   && r.sz == 0 && (forall n :: 0 <= n < s ==> Pte(mem, d, n) == Pte(old(mem), d, n))
                   && (NoneMapped(old(mem), d, s, e) ==> SameMapping(old(mem), mem, d)))
      ensures r.Grown? ==>
        OthersSame(old(mem), mem, dirs, d) && DataSame(old(mem), mem, Still(old(owner), owner), old(held))
    {
      hide Own, FreeOk, Parts, Pte, Kernel, Fresh, NoneMapped, OthersSame, DataSame, Need, Tables, NeedsTable, LastNeedsTable,
           Swept, Still, Reached, WillRemap, SomeLoss, SameMapping, Leftover;
      AllStill(mem, dirs, d, owner, held);
      if newsz >= KERNBASE {
        return Grown(0);
      }
      if newsz < oldsz {
        return Grown(oldsz);
      }
      ghost var s, e := PagesUp(oldsz), PagesUp(newsz);
      PagesUpOrder(oldsz, newsz);
      var c;
      ghost var how, k;
      c, how, k := Grow(d, PagesUp(oldsz), PagesUp(newsz));
      ghost var m1, o1 := mem, owner;
      EndedMeans(how, old(mem), d, s, k, e, |old(free)|, |free|);
      if c.RemapPanic? {
        return GrowPanic;
      }
      assert held - old(held) == Lost(how);
      if c.Went? {
        StillAll(old(mem), mem, old(owner), owner, old(held));
        return Grown(newsz);
      }
      var sz' := DeallocUvm(d, newsz, oldsz);
      ShrinkRestores(old(mem), m1, mem, d, s, k, e);
      UndoFrame(old(mem), m1, mem, dirs, d, old(owner), old(held), o1, owner, held);
      return Grown(0);
    }

    /** One round of copyuvm's loop, for page i; the copy began in state (m0, o0, h0). */
    method CopyPage(d: nat, c: nat, i: nat, ghost m0: Mem, ghost o0: map<nat, Use>, ghost h0: set<nat>)
      returns (hole: bool, a: AddResult)
      requires Valid() && d in dirs && c in dirs && d != c && i < USER && |mem| == |m0| && h0 <= held
      requires Own(m0, dirs, o0) && OthersSame(m0, mem, dirs, c) && DataSame(m0, mem, o0, h0) && Extends(o0, owner, c)
      requires Copied(m0, mem, d, c, i)
      modifies `mem, `freelist, `free, `held, `owner
      ensures Valid() && |mem| == |m0|
      ensures OthersSame(m0, mem, dirs, c) && DataSame(m0, mem, o0, h0) && Extends(o0, owner, c)
      ensures hole ==> !Present(Pte(m0, d, i)) && held == old(held)
      ensures !hole ==>
        && !a.AlreadyMapped? && (a.NoPage? <==> old(free) == [])
        && (a.TableMissing? <==> |old(free)| == 1 && i / ENTRIES !in Tables(old(mem), c))
        && held == (if a.TableMissing? then old(held) + {a.p} else old(held)) && (a.TableMissing? ==> a.p !in old(held))
        && (a.Added? ==>
              && Copied(m0, mem, d, c, i + 1) && Tables(mem, c) == Tables(old(mem), c) + {i / ENTRIES}
              && |old(free)| == |free| + 1 + (if i / ENTRIES in Tables(old(mem), c) then 0 else 1))
    {
      hide Own, FreeOk, Parts, Pte, Kernel, Entry, Present, Frame, Copied, OthersSame, DataSame, Extends, Tables;
      ghost var m1, o1, h1 := mem, owner, held;
      a := NoPage;
      var ok, t := Walk(d, i, false);
      PteAbsent(mem, d, i);
      SourceSame(m0, mem, dirs, d, c, i);
      if !ok {
        return true, a;
      }
      PteAt(mem, dirs, owner, d, i);
      var pte := mem[t][i % ENTRIES];
      if !Present(pte) {
        return true, a;
      }
      UserOf(mem, dirs, owner, d, i);
      CopyFacts(m0, mem, dirs, o0, owner, h0, d, c, i);
      a := AddPage(c, i, mem[Frame(pte)], pte % 0x1000);
      GrowFrame(m0, m1, mem, dirs, c, o0, h0, o1, h1, owner);
      if a.Added? {
        CopiedOn(m0, m1, mem, dirs, o1, h1, d, c, i, a.p, pte);
      }
      hole := false;
    }

    /** copyuvm's loop: pages 0 to k of d into c, which is new. */
    method CopyPages(d: nat, c: nat, k: nat) returns (r: CopyStep)
      requires Valid() && d in dirs && c in dirs && d != c && k <= USER && forall n :: 0 <= n < USER ==> Pte(mem, c, n) == 0
      modifies `mem, `freelist, `free, `held, `owner
      ensures Valid() && |mem| == |old(mem)|
      ensures OthersSame(old(mem), mem, dirs, c) && DataSame(old(mem), mem, old(owner), old(held)) && Extends(old(owner), owner, c)
      ensures r.Done? ==>
        Copied(old(mem), mem, d, c, k) && held == old(held) && |old(free)| == |free| + Need(Tables(old(mem), c), 0, k)
      ensures r.Hole? ==> held == old(held) && Holey(old(mem), d, k)
      ensures r.Short? ==>
        && held == old(held) + r.lost && r.lost !! old(held) && |r.lost| <= 1 && |old(free)| < Need(Tables(old(mem), c), 0, k)
        && (r.lost != {} <==> SomeLoss(Tables(old(mem), c), 0, k, |old(free)|))
    {
      hide Own, FreeOk, Parts, Pte, Kernel, Entry, Present, Frame, Copied, OthersSame, DataSame, Extends, Need, Tables, Reached,
           NeedsTable, SomeLoss;
      ghost var have := Tables(mem, c);
      GrowStart(mem, dirs, c, 0, owner, held);
      CopyStart(mem, d, c);
      for i := 0 to k
        invariant Valid() && |mem| == |old(mem)| && held == old(held)
        invariant OthersSame(old(mem), mem, dirs, c) && DataSame(old(mem), mem, old(owner), old(held))
        invariant Extends(old(owner), owner, c) && Copied(old(mem), mem, d, c, i)
        invariant |old(free)| == |free| + Need(have, 0, i) && Reached(have, Tables(mem, c), 0, i)
      {
        NeedSnoc(have, Tables(mem, c), 0, i);
        NeedMore(have, 0, i + 1, k);
        ReachedOn(have, Tables(mem, c), 0, i);
        var hole, a := CopyPage(d, c, i, old(mem), old(owner), old(held));
        if hole {
          return Hole;
        } else if a.NoPage? {
          ShortNoLoss(have, 0, i, k, |old(free)|);
          return Short({});
        } else if a.TableMissing? {
          ShortLoss(have, 0, i, k, |old(free)|);
          return Short({a.p});
        }
      }
      r := Done;
    }

    /** copyuvm's way out: free the child c, begun in state (m0, d0, o0, h0, f0). */
    method Abandon(v: Word, c: nat, ghost m0: Mem, ghost d0: set<nat>, ghost o0: map<nat, Use>, ghost h0: set<nat>,
                   ghost f0: seq<nat>)
      requires Valid() && c < HI && v == Addr(c) && c !in d0 && dirs == d0 + {c} && |mem| == |m0|
      requires Own(m0, d0, o0) && Parts(lo, f0, o0, h0, pool) && (forall e :: e in d0 ==> e < |m0|) && h0 <= held
      requires SameSpaces(m0, mem, d0) && DataSame(m0, mem, o0, h0) && Extends(o0, owner, c)
      modifies `mem, `freelist, `free, `held, `owner, `dirs, `spaces
      ensures Valid() && |mem| == |m0| && dirs == d0 && spaces == old(spaces) - {c} && held == old(held) && owner == o0
      ensures SameSpaces(m0, mem, d0) && DataSame(m0, mem, o0, h0)
      ensures held == h0 ==> forall p :: p in free <==> p in f0
    {
      hide Own, FreeOk, Pte, Kernel, PageOf, Addr, Parts, OthersSame, DataSame, SameSpaces, Extends, Others, BelongsTo;
      AddrPage(c);
      NoneOf(m0, d0, o0, c);
      OthersBack(o0, owner, c);
      var ok := FreeVm(v);
      ThenOthers(m0, old(mem), mem, d0, d0 + {c}, c);
      DataBack(m0, old(mem), mem, o0, h0, owner, held);
      SameFree(lo, f0, o0, h0, free, owner, held, pool);
    }

    /** The rest of copyuvm, once the child's directory v is there. */
    method CopyInto(v: Word, c: nat, d: nat, sz: Word, ghost m0: Mem, ghost d0: set<nat>, ghost o0: map<nat, Use>,
                    ghost h0: set<nat>, ghost f0: seq<nat>)
      returns (r: CopyResult, ghost lost: set<nat>)
      requires Valid() && c < HI && v == Addr(c) && d in d0 && c !in d0
      requires dirs == d0 + {c} && |mem| == |m0| && sz <= KERNBASE && held == h0
      requires |f0| == |free| + 65 && c in spaces && Tables(mem, c) == KernelTables() && forall n :: 0 <= n < USER ==> Pte(mem, c, n) == 0
      requires Own(m0, d0, o0) && Parts(lo, f0, o0, h0, pool) && forall e :: e in d0 ==> e < |m0|
      requires SameSpaces(m0, mem, d0) && DataSame(m0, mem, o0, h0) && Extends(o0, owner, c)
      modifies `mem, `freelist, `free, `held, `owner, `dirs, `spaces
      ensures Valid() && |mem| == |m0| && |lost| <= 1 && held == h0 + lost
      ensures SameSpaces(m0, mem, d0) && DataSame(m0, mem, o0, h0)
      ensures (r.CopyPanic? ==> Holey(m0, d, PagesUp(sz))) && CopyCounts(r, lost, |f0|, PagesUp(sz))
      ensures r.Child? ==>
        r.v == v && dirs == old(dirs) && spaces == old(spaces) && Copied(m0, mem, d, c, PagesUp(sz)) && lost == {}
        && |f0| == |free| + ChildCost(PagesUp(sz))
      ensures r.CopyFailed? ==>
        && dirs == d0 && spaces == old(spaces) - {c}
        && (lost == {} ==> owner == o0 && forall p :: p in free <==> p in f0)
    {
      hide Own, FreeOk, Pte, Kernel, PageOf, Addr, Parts, Copied, OthersSame, DataSame, SameSpaces, Extends, Present, Need,
           Tables, KernelTables, SomeLoss, CopyLoses, ChildCost;
      lost := {};
      PagesUpUser(sz);
      CopyCost(PagesUp(sz));
      CopyLoss(|f0|, PagesUp(sz));
      OwnDirs(mem, dirs, owner);
      assert d in dirs;
      ghost var m1, o1 := mem, owner;
      var step := CopyPages(d, c, PagesUp(sz));
      ThenOthers(m0, m1, mem, d0, dirs, c);
      ThenData(m0, m1, mem, o0, o1, owner, h0, c);
      if step.Done? {
        SameSource(m0, m1, mem, d0, o0, h0, d, c, PagesUp(sz));
        return Child(v), lost;
      } else if step.Hole? {
        SourceHole(m0, m1, d0, d, PagesUp(sz));
        return CopyPanic, lost;
      }
      lost := step.lost;
      Abandon(v, c, m0, d0, o0, h0, f0);
      return CopyFailed, lost;
    }

    /** copyuvm's setupkvm; v is 0 when it fails, and stray then holds the directory it gave up on. */
    method NewSpace(ghost k: nat) returns (v: Word, ghost c: nat, ghost stray: set<nat>)
      requires Valid()
      modifies `mem, `freelist, `free, `held, `owner, `dirs, `spaces
      ensures Valid() && |mem| == |old(mem)| && held == old(held)
      ensures SameSpaces(old(mem), mem, old(dirs)) && DataSame(old(mem), mem, old(owner), old(held))
      ensures v == 0 ==>
        && (stray != {} <==> 1 <= |old(free)| < 65) && |stray| <= 1 && dirs == old(dirs) + stray && spaces == old(spaces)
        && (stray == {} ==> owner == old(owner) && forall p :: p in free <==> p in old(free))
        && CopyCounts(CopyFailed, {}, |old(free)|, k)
      ensures v != 0 ==>
        && stray == {} && PageOf(v) == c < HI == |mem| && v == Addr(c) && c !in old(dirs) && dirs == old(dirs) + {c}
        && spaces == old(spaces) + {c} && c in spaces && spaces - {c} == old(spaces)
        && |old(free)| == |free| + 65 && Tables(mem, c) == KernelTables() && (forall n :: 0 <= n < USER ==> Pte(mem, c, n) == 0)
        && Extends(old(owner), owner, c)
    {
      hide Valid, Own, FreeOk, Pte, Kernel, PageOf, Addr, Parts, DataSame, SameSpaces, Extends, Tables, KernelTables, CopyCounts;
      stray := {};
      ghost var d0, o0, h0, f0, s0 := dirs, owner, held, free, spaces;
      ValidFacts();
      v, c := SetupKvm();
      ValidFacts();
      if v == 0 {
        NoCopyLoss(|f0|, k);
        stray := dirs - d0;
        StrayOne(d0, dirs, c);
        SetupFailed(lo, f0, o0, h0, free, owner, pool, d0, dirs);
      } else {
        Removed(s0, d0, c);
        FreeHead(mem, freelist, free);
      }
    }

    /** copyuvm. When memory runs out the child's pages all go back, except a page whose table was missing
        (lost) and a directory that setupkvm gave up on (stray). */
    method CopyUvm(d: nat, sz: Word) returns (r: CopyResult, ghost lost: set<nat>, ghost stray: set<nat>)
      requires Valid() && d in dirs && sz <= KERNBASE
      modifies `mem, `freelist, `free, `held, `owner, `dirs, `spaces
      ensures Valid() && |mem| == |old(mem)|
      ensures SameSpaces(old(mem), mem, old(dirs)) && DataSame(old(mem), mem, old(owner), old(held))
      ensures (r.CopyPanic? ==> Holey(old(mem), d, PagesUp(sz))) && CopyCounts(r, lost, |old(free)|, PagesUp(sz))
      ensures r.Child? ==> var c := PageOf(r.v);
        && 0 <= c < |mem| && r.v == Addr(c) && c !in old(dirs) && dirs == old(dirs) + {c} && spaces == old(spaces) + {c}
        && Copied(old(mem), mem, d, c, PagesUp(sz)) && held == old(held) && |old(free)| == |free| + ChildCost(PagesUp(sz))
      ensures r.CopyFailed? ==>
        && (stray != {} <==> 1 <= |old(free)| < 65)
        && spaces == old(spaces) && |lost| <= 1 && |stray| <= 1
        && held == old(held) + lost && dirs == old(dirs) + stray
        && (lost == {} && stray == {} ==> owner == old(owner) && forall p :: p in free <==> p in old(free))
    {
      hide Valid, Own, FreeOk, Pte, Kernel, PageOf, Addr, Parts, Copied, OthersSame, DataSame, SameSpaces, Extends, Present,
           PagesUp, Need, Tables, KernelTables, CopyCounts, Holey, ChildCost;
      lost := {};
      ghost var m0, d0, o0, h0, f0 := mem, dirs, owner, held, free;
      ValidFacts();
      OwnDirs(mem, dirs, owner);
      var v;
      ghost var c;
      v, c, stray := NewSpace(PagesUp(sz));
      if v == 0 {
        return CopyFailed, lost, stray;
      }
      r, lost := CopyInto(v, PageOf(v), d, sz, m0, d0, o0, h0, f0);
    }
  }
}
