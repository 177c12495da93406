/** The free page list and the steps by which address spaces change, as facts about page contents. */
module AddressSpaces {
  import opened Counting
  import opened DiskWrites
  import opened PageTables

  const KERNBASE := 0x8000_0000
  const PGSIZE := 0x1000
  const HI := 0xE000           // PHYSTOP / PGSIZE
  const DEVICES := 0xFE000     // DEVSPACE / PGSIZE

  /** p2v of a page, as the free list stores it. */
  function Addr(p: nat): Word
    requires p < HI
  { p * PGSIZE + KERNBASE }

  /** The page behind an address: v2p(v) / PGSIZE. */
  function PageOf(v: Word): int { (v - KERNBASE) / PGSIZE }

  lemma {:induction false} AddrPage(p: nat)
    requires p < HI
    ensures PageOf(Addr(p)) == p && Addr(p) >= KERNBASE && Addr(p) % PGSIZE == 0
  {
  }

  /** kfree's test lets exactly the pages from lo to HI through. */
  lemma {:induction false} KfreeTest(v: Word, lo: nat)
    requires lo < HI
    ensures (v % PGSIZE == 0 && Addr(lo) <= v < KERNBASE + HI * PGSIZE) <==> lo <= PageOf(v) < HI && v == Addr(PageOf(v))
  {
  }

  /** memset(v, 1, PGSIZE) */
  function JunkPage(): Page { seq(ENTRIES, i => 0x0101_0101) }

  /** The pointer to element k of a free list, 0 past its end. */
  function Link(free: seq<nat>, k: nat): Word {
    if k < |free| && free[k] < HI then Addr(free[k]) else 0
  }

  /** head is the list free, each page's first word pointing to the next page. */
  ghost predicate FreeOk(mem: Mem, head: Word, free: seq<nat>) {
    && |mem| == HI && head == Link(free, 0)
    && (forall k :: 0 <= k < |free| ==> free[k] < HI && mem[free[k]][0] == Link(free, k + 1))
    && (forall j, k :: 0 <= j < k < |free| ==> free[j] != free[k])
  }

  /** Every page of the pool is free, part of an address space, or held by someone else. */
  ghost predicate Parts(lo: nat, free: seq<nat>, owner: map<nat, Use>, held: set<nat>, pool: set<nat>) {
    && (forall p :: p in pool ==> lo <= p < HI)
    && (forall p :: p in pool <==> p in free || p in owner || p in held)
    && (forall p :: p in owner ==> p !in free && p !in held)
    && (forall p :: p in held ==> p !in free)
  }

  /** The kernel half of every address space: kmap. */
  function KernelPte(data: nat, n: nat): Word
    requires n < SPACE
  {
    if n < USER then 0
    else if n - USER < 0x100 then Entry(n - USER, PTE_W)
    else if n - USER < data then Entry(n - USER, 0)
    else if n - USER < HI then Entry(n - USER, PTE_W)
    else if n >= DEVICES then Entry(n, PTE_W)
    else 0
  }

  ghost predicate Kernel(mem: Mem, data: nat, d: nat)
    requires d < |mem|
  { forall n :: USER <= n < SPACE ==> Pte(mem, d, n) == KernelPte(data, n) }

  /** The kernel half, page by page. Physical memory appears at KERNBASE, page n as frame n - USER, and
      its pages are writable except for the kernel's text and read-only data; the device pages map to
      themselves; nothing else is mapped, and user code may touch none of it. */
  lemma {:induction false} KernelHalf(mem: Mem, data: nat, d: nat, n: nat)
    requires d < |mem| && 0x100 < data < HI && Kernel(mem, data, d) && USER <= n < SPACE
    ensures var e := Pte(mem, d, n);
      if n - USER < HI then
        Present(e) && Frame(e) == n - USER && !UserSees(e) && (Writable(e) <==> n - USER < 0x100 || data <= n - USER)
      else if n >= DEVICES then Present(e) && Frame(e) == n && !UserSees(e) && Writable(e)
      else e == 0
  {
    hide Pte, Entry, Present, Frame, UserSees, Writable;
    assert Pte(mem, d, n) == KernelPte(data, n);
    EntryKernel(if n - USER < HI then n - USER else n);
  }

  lemma {:induction false} FreeWrite(mem: Mem, head: Word, free: seq<nat>, p: nat, c: Page)
    requires FreeOk(mem, head, free) && p < HI && p !in free
    ensures FreeOk(mem[p := c], head, free)
  {
  }

  /** r->next = freelist; freelist = r */
  lemma {:induction false} FreePush(mem: Mem, head: Word, free: seq<nat>, p: nat)
    requires FreeOk(mem, head, free) && p < HI && p !in free
    ensures FreeOk(mem[p := JunkPage()[0 := head]], Addr(p), [p] + free)
  {
    var list := [p] + free;
    assert forall k :: 0 <= k <= |free| ==> Link(list, k + 1) == Link(free, k);
    assert forall k :: 0 < k < |list| ==> list[k] == free[k-1];
  }

  lemma {:induction false} LinkRest(free: seq<nat>, k: nat)
    requires free != []
    ensures Link(free[1..], k) == Link(free, k + 1)
  {
  }

  lemma {:induction false} FreePop(mem: Mem, head: Word, free: seq<nat>)
    requires FreeOk(mem, head, free) && free != []
    ensures FreeOk(mem, mem[free[0]][0], free[1..])
    ensures free[0] !in free[1..] && forall p :: p in free <==> p == free[0] || p in free[1..]
  {
    hide Link;
    var rest := free[1..];
    LinkRest(free, 0);
    forall k | 0 <= k < |rest| ensures rest[k] < HI && mem[rest[k]][0] == Link(rest, k + 1) && rest[k] != free[0] {
      LinkRest(free, k + 1);
      assert rest[k] == free[k + 1];
    }
    forall p ensures p in free <==> p == free[0] || p in rest {
      assert free == [free[0]] + rest;
    }
  }

  lemma {:induction false} FreeHead(mem: Mem, head: Word, free: seq<nat>)
    requires FreeOk(mem, head, free)
    ensures |mem| == HI && (head == 0 <==> free == [])
    ensures free != [] ==> free[0] < HI && head == Addr(free[0]) && free[0] in free
  {
  }

  lemma {:induction false} PartsPop(lo: nat, free: seq<nat>, owner: map<nat, Use>, held: set<nat>, pool: set<nat>)
    requires Parts(lo, free, owner, held, pool) && free != []
    requires free[0] !in free[1..] && forall p :: p in free <==> p == free[0] || p in free[1..]
    ensures Parts(lo, free[1..], owner, held + {free[0]}, pool)
    ensures lo <= free[0] && free[0] !in owner && free[0] !in held
  {
    assert free[0] in free;
  }

  /** Address spaces other than d are as they were. */
  ghost predicate OthersSame(mem: Mem, mem': Mem, dirs: set<nat>, d: nat)
    requires |mem'| == |mem| && forall e :: e in dirs ==> e < |mem|
  {
    && (forall e :: e in dirs && e != d ==> mem'[e] == mem[e])
    && (forall e, n :: e in dirs && e != d && 0 <= n < SPACE ==> Pte(mem', e, n) == Pte(mem, e, n))
  }

  /** User pages and held pages keep their contents. */
  ghost predicate DataSame(mem: Mem, mem': Mem, owner: map<nat, Use>, held: set<nat>)
    requires |mem'| == |mem|
  {
    && (forall p :: p in owner && owner[p].User? && p < |mem| ==> mem'[p] == mem[p])
    && (forall p :: p in held && p < |mem| ==> mem'[p] == mem[p])
  }

  lemma {:induction false} KernelSame(mem: Mem, mem': Mem, data: nat, d: nat)
    requires d < |mem| && |mem'| == |mem| && Kernel(mem, data, d)
    requires forall n :: USER <= n < SPACE ==> Pte(mem', d, n) == Pte(mem, d, n)
    ensures Kernel(mem', data, d)
  {
    hide Pte, KernelPte;
  }

  /** walkpgdir's new table: zeroed, entered in the directory, and no translation changes. */
  lemma {:induction false} WalkKeeps(lo: nat, mem: Mem, head: Word, free: seq<nat>, dirs: set<nat>, owner: map<nat, Use>,
                                     held: set<nat>,
                  pool: set<nat>, d: nat, x: nat, p: nat)
    requires Own(mem, dirs, owner) && FreeOk(mem, head, free) && Parts(lo, free, owner, held, pool)
    requires d in dirs && d < |mem| && x < ENTRIES && !Present(mem[d][x]) && p in held
    ensures p < HI && |mem| == HI && d != p && forall e :: e in dirs ==> e < |mem|
    ensures var mem' := mem[p := ZeroPage()][d := mem[d][x := Entry(p, PTE_W + PTE_U)]];
            && Own(mem', dirs, owner[p := Table(d, x)]) && FreeOk(mem', head, free)
            && Parts(lo, free, owner[p := Table(d, x)], held - {p}, pool)
            && (forall n :: 0 <= n < SPACE ==> Pte(mem', d, n) == Pte(mem, d, n))
            && OthersSame(mem, mem', dirs, d) && DataSame(mem, mem', owner, held - {p})
  {
    hide Own, FreeOk, Pte, Entry, Present;
    OwnDirs(mem, dirs, owner);
    FreeHead(mem, head, free);
    WriteData(mem, dirs, owner, p, ZeroPage());
    var zeroed := mem[p := ZeroPage()];
    LinkTable(zeroed, dirs, owner, d, x, p);
    FreeWrite(mem, head, free, p, ZeroPage());
    FreeWrite(zeroed, head, free, d, mem[d][x := Entry(p, PTE_W + PTE_U)]);
  }

  /** Storing a table entry touches no free, held or user page. */
  lemma {:induction false} StoreKeeps(lo: nat, mem: Mem, head: Word, free: seq<nat>, dirs: set<nat>, owner: map<nat, Use>,
                                      held: set<nat>,
                   pool: set<nat>, d: nat, n: nat, w: Word)
    requires Own(mem, dirs, owner) && FreeOk(mem, head, free) && Parts(lo, free, owner, held, pool)
    requires d in dirs && d < |mem| && n < SPACE && Present(mem[d][n / ENTRIES])
    ensures |mem| == HI && forall e :: e in dirs ==> e < |mem|
    ensures var t := Frame(mem[d][n / ENTRIES]);
            && t < |mem|
            && var mem' := mem[t := mem[t][n % ENTRIES := w]];
               && OnePte(mem, mem', dirs, d, n, w) && FreeOk(mem', head, free)
               && OthersSame(mem, mem', dirs, d) && DataSame(mem, mem', owner, held)
  {
    hide Own, FreeOk, Pte, Present, Frame;
    OwnDirs(mem, dirs, owner);
    FreeHead(mem, head, free);
    TableOf(mem, dirs, owner, d, n / ENTRIES);
    PutPte(mem, dirs, owner, d, n, w);
    var t := Frame(mem[d][n / ENTRIES]);
    FreeWrite(mem, head, free, t, mem[t][n % ENTRIES := w]);
  }

  lemma {:induction false} PartsUse(lo: nat, free: seq<nat>, owner: map<nat, Use>, held: set<nat>, pool: set<nat>, p: nat, u: Use)
    requires Parts(lo, free, owner, held, pool) && p in held
    ensures Parts(lo, free, owner[p := u], held - {p}, pool)
    ensures p !in owner && lo <= p < HI
  {
  }

  /** deallocuvm's kfree of a user page followed by *pte = 0. */
  lemma {:induction false} ReleaseKeeps(lo: nat, mem: Mem, mem1: Mem, head: Word, free: seq<nat>, dirs: set<nat>,
                                        owner: map<nat, Use>,
                     held: set<nat>, pool: set<nat>, d: nat, n: nat, p: nat)
    requires Own(mem, dirs, owner) && Parts(lo, free, owner, held, pool) && d in dirs && d < |mem| && n < USER
    requires Present(mem[d][n / ENTRIES]) && Present(Pte(mem, d, n)) && p == Frame(Pte(mem, d, n))
    requires |mem1| == |mem| && (forall q :: 0 <= q < |mem| && q != p ==> mem1[q] == mem[q]) && FreeOk(mem1, head, [p] + free)
    ensures p in owner && forall e :: e in dirs ==> e < |mem|
    ensures var t := Frame(mem[d][n / ENTRIES]);
            && t < |mem| && t != p
            && var mem2 := mem1[t := mem1[t][n % ENTRIES := 0]];
               && Own(mem2, dirs, owner - {p}) && FreeOk(mem2, head, [p] + free)
               && Parts(lo, [p] + free, owner - {p}, held, pool)
               && mem2[d] == mem[d] && OthersSame(mem, mem2, dirs, d) && DataSame(mem, mem2, owner - {p}, held)
               && (forall m :: 0 <= m < SPACE ==> Pte(mem2, d, m) == if m == n then 0 else Pte(mem, d, m))
  {
    hide Own, FreeOk, Pte, Present, Frame;
    OwnDirs(mem, dirs, owner);
    UserOf(mem, dirs, owner, d, n);
    assert mem1 == mem[p := mem1[p]];
    WriteData(mem, dirs, owner, p, mem1[p]);
    TableOf(mem, dirs, owner, d, n / ENTRIES);
    var t := Frame(mem[d][n / ENTRIES]);
    PutPte(mem1, dirs, owner, d, n, 0);
    UnmapUser(mem1, mem1[t := mem1[t][n % ENTRIES := 0]], dirs, owner, d, n);
    FreeWrite(mem1, head, [p] + free, t, mem1[t][n % ENTRIES := 0]);
  }

  lemma {:induction false} UserOf(mem: Mem, dirs: set<nat>, owner: map<nat, Use>, d: nat, n: nat)
    requires Own(mem, dirs, owner) && d in dirs && d < |mem| && n < USER && Present(Pte(mem, d, n))
    ensures Frame(Pte(mem, d, n)) in owner && owner[Frame(Pte(mem, d, n))] == User(d, n) && Frame(Pte(mem, d, n)) < |mem|
  {
  }

  // ------------------------------------------------------- deallocuvm's walk

  /** Starting at page a, deallocuvm's loop comes to page n: it steps by one page,
      or by 1024 where the directory has no table. */
  predicate Visits(dir: Page, a: nat, n: nat)
    requires n < SPACE
    decreases n - a
  {
    if a >= n then a == n
    else Visits(dir, if Present(dir[a / ENTRIES]) then a + 1 else a + ENTRIES, n)
  }

  /** The walk is the same seen from any page it visits. */
  lemma {:induction false} VisitsOn(dir: Page, s: nat, a: nat, n: nat)
    requires a < SPACE && n < SPACE && Visits(dir, s, a) && a <= n
    ensures Visits(dir, s, n) == Visits(dir, a, n)
    decreases a - s
  {
    if s < a { VisitsOn(dir, if Present(dir[s / ENTRIES]) then s + 1 else s + ENTRIES, a, n); }
  }

  /** The walk from a jumps over page n: it starts inside a missing table, and n lies in the first
      table that is there, at a lower place than the start has in its own. */
  predicate Skipped(dir: Page, a: nat, n: nat)
    requires n < SPACE
  {
    && a < SPACE && a % ENTRIES != 0 && !Present(dir[a / ENTRIES]) && n % ENTRIES < a % ENTRIES
    && forall y :: a / ENTRIES <= y < n / ENTRIES ==> !Present(dir[y])
  }

  /** Of the pages that have a table, the walk comes to exactly those it does not jump over. */
  lemma {:induction false} VisitsExactly(dir: Page, a: nat, n: nat)
    requires a <= n < SPACE && Present(dir[n / ENTRIES])
    ensures Visits(dir, a, n) <==> !Skipped(dir, a, n)
    decreases n - a
  {
    hide Present;
    if a < n {
      if Present(dir[a / ENTRIES]) {
        VisitsExactly(dir, a + 1, n);
        assert (a + 1) % ENTRIES == 0 || (a + 1) / ENTRIES == a / ENTRIES;
      } else if a + ENTRIES <= n {
        VisitsExactly(dir, a + ENTRIES, n);
        SkipOn(dir, a, n);
      } else {
        assert n / ENTRIES == a / ENTRIES + 1;
        assert n % ENTRIES == n - ENTRIES * (n / ENTRIES) && a % ENTRIES == a - ENTRIES * (a / ENTRIES);
        assert !Visits(dir, a, n) && Skipped(dir, a, n);
      }
    }
  }

  /** A jump keeps the place in the table. */
  lemma {:induction false} SkipOn(dir: Page, a: nat, n: nat)
    requires a + ENTRIES <= n < SPACE && !Present(dir[a / ENTRIES]) && Present(dir[n / ENTRIES])
    ensures Skipped(dir, a + ENTRIES, n) <==> Skipped(dir, a, n)
  {
    hide Present;
    var x, y := a / ENTRIES, n / ENTRIES;
    assert (a + ENTRIES) / ENTRIES == x + 1 && (a + ENTRIES) % ENTRIES == a % ENTRIES;
    if y > x + 1 {
      assert Skipped(dir, a, n) ==> !Present(dir[x + 1]);
    }
  }

  /** The first table from x on, if there is one. */
  lemma {:induction false} FirstTable(dir: Page, x: nat, y: nat) returns (z: nat)
    requires x <= y < ENTRIES && Present(dir[y])
    ensures x <= z <= y && Present(dir[z]) && forall w :: x <= w < z ==> !Present(dir[w])
    decreases y - x
  {
    z := x;
    if !Present(dir[x]) { z := FirstTable(dir, x + 1, y); }
  }

  /** The walk misses no page that has a table if and only if it starts at a table's first page, or
      in a table that is there, or behind the last table. */
  lemma {:induction false} VisitsAll(dir: Page, a: nat)
    requires a < SPACE
    ensures (forall n :: a <= n < SPACE && Present(dir[n / ENTRIES]) ==> Visits(dir, a, n)) <==>
            a % ENTRIES == 0 || Present(dir[a / ENTRIES]) || forall y :: a / ENTRIES < y < ENTRIES ==> !Present(dir[y])
  {
    hide Visits, Present;
    if a % ENTRIES == 0 || Present(dir[a / ENTRIES]) || forall y :: a / ENTRIES < y < ENTRIES ==> !Present(dir[y]) {
      forall n | a <= n < SPACE && Present(dir[n / ENTRIES]) ensures Visits(dir, a, n) {
        VisitsExactly(dir, a, n);
      }
    } else {
      var y :| a / ENTRIES < y < ENTRIES && Present(dir[y]);
      var z := FirstTable(dir, a / ENTRIES, y);
      var n := z * ENTRIES;
      assert n / ENTRIES == z && n % ENTRIES == 0;
      VisitsExactly(dir, a, n);
      assert Skipped(dir, a, n);
    }
  }

  /** The pages from s to e that the walk comes to are unmapped, as far as page a. */
  ghost predicate Swept(mem: Mem, mem': Mem, d: nat, s: nat, a: nat, e: nat)
    requires d < |mem| && |mem'| == |mem|
  {
    forall n :: 0 <= n < SPACE ==>
      Pte(mem', d, n) ==
      if s <= n < a && n < e && Visits(mem[d], s, n) && Present(Pte(mem, d, n)) then 0 else Pte(mem, d, n)
  }

  /** How many pages the sweep from s to e unmaps before page a. */
  ghost function Unmapped(mem: Mem, d: nat, s: nat, a: nat, e: nat): nat
    requires d < |mem|
  {
    if a <= s then 0
    else Unmapped(mem, d, s, a - 1, e)
         + if a - 1 < e && a - 1 < SPACE && Visits(mem[d], s, a - 1) && Present(Pte(mem, d, a - 1)) then 1 else 0
  }

  lemma {:induction false} UnmappedSkip(mem: Mem, d: nat, s: nat, a: nat, a': nat, e: nat)
    requires d < |mem| && s <= a <= a'
    requires forall n :: a <= n < a' && n < SPACE ==> !Visits(mem[d], s, n) || !Present(Pte(mem, d, n))
    ensures Unmapped(mem, d, s, a', e) == Unmapped(mem, d, s, a, e)
    decreases a' - a
  {
    if a < a' { UnmappedSkip(mem, d, s, a, a' - 1, e); }
  }

  lemma {:induction false} UnmappedEnd(mem: Mem, d: nat, s: nat, e: nat, a: nat)
    requires d < |mem| && e <= a
    ensures Unmapped(mem, d, s, a, e) == Unmapped(mem, d, s, e, e)
    decreases a - e
  {
    if e < a { UnmappedEnd(mem, d, s, e, a - 1); }
  }

  /** A space whose pages are those below k gives back k - s of them. */
  lemma {:induction false} UnmappedBelow(mem: Mem, d: nat, k: nat, s: nat, a: nat, e: nat)
    requires d < |mem| && MappedBelow(mem, d, k) && s <= a <= e <= USER && s <= k <= USER
    ensures Unmapped(mem, d, s, a, e) == (if a < k then a else k) - s
    decreases a
  {
    hide Pte, Visits, Skipped;
    if s < a {
      UnmappedBelow(mem, d, k, s, a - 1, e);
      if a - 1 < k {
        PresentTable(mem, d, a - 1);
        NotSkipped(mem, d, k, s, a - 1);
        VisitsExactly(mem[d], s, a - 1);
      }
    }
  }

  /** One step of the walk. */
  lemma {:induction false} SweepOn(mem: Mem, mem': Mem, mem'': Mem, d: nat, s: nat, a: nat, e: nat, a': nat)
    requires d < |mem| && |mem'| == |mem| && |mem''| == |mem| && a < SPACE && a < e
    requires Swept(mem, mem', d, s, a, e) && Visits(mem[d], s, a) && s <= a
    requires a' == if Present(mem[d][a / ENTRIES]) then a + 1 else a + ENTRIES
    requires forall m :: 0 <= m < SPACE ==>
      Pte(mem'', d, m) == if m == a && Present(Pte(mem', d, a)) then 0 else Pte(mem', d, m)
    ensures Swept(mem, mem'', d, s, a', e) && (a' < SPACE ==> Visits(mem[d], s, a'))
    ensures Unmapped(mem, d, s, a', e) == Unmapped(mem, d, s, a, e) + if Present(Pte(mem, d, a)) then 1 else 0
    ensures Pte(mem', d, a) == Pte(mem, d, a)
  {
    hide Pte, Unmapped;
    forall n | a < n < a' && n < SPACE ensures !Visits(mem[d], s, n) {
      VisitsOn(mem[d], s, a, n);
    }
    if a' < SPACE { VisitsOn(mem[d], s, a, a'); }
    PteAbsent(mem, d, a);
    UnmappedNext(mem, d, s, a, e);
    UnmappedSkip(mem, d, s, a + 1, a', e);
  }

  lemma {:induction false} UnmappedNext(mem: Mem, d: nat, s: nat, a: nat, e: nat)
    requires d < |mem| && s <= a < e && a < SPACE && Visits(mem[d], s, a)
    ensures Unmapped(mem, d, s, a + 1, e) == Unmapped(mem, d, s, a, e) + if Present(Pte(mem, d, a)) then 1 else 0
  {
  }

  /** Some user pages of d went back to the free list; nothing else changed hands. */
  ghost predicate Returned(free: seq<nat>, owner: map<nat, Use>, free': seq<nat>, owner': map<nat, Use>, d: nat) {
    && (forall p :: p in owner' ==> p in owner && owner'[p] == owner[p])
    && (forall p :: p in owner && !(owner[p].User? && owner[p].d == d) ==> p in owner')
    && (forall p :: p in free' <==> p in free || (p in owner && p !in owner'))
  }

  function PagesUp(sz: Word): nat { (sz + PGSIZE - 1) / PGSIZE }

  /** Exactly the first k user pages are mapped. */
  ghost predicate MappedBelow(mem: Mem, d: nat, k: nat)
    requires d < |mem|
  { forall n :: 0 <= n < USER ==> (Present(Pte(mem, d, n)) <==> n < k) }

  /** A mapped page has a table. */
  lemma {:induction false} PresentTable(mem: Mem, d: nat, n: nat)
    requires d < |mem| && n < SPACE && Present(Pte(mem, d, n))
    ensures Present(mem[d][n / ENTRIES])
  {
    PteAbsent(mem, d, n);
  }

  /** No user page from s to e is mapped. */
  ghost predicate NoneMapped(mem: Mem, d: nat, s: nat, e: nat)
    requires d < |mem|
  { forall n :: s <= n < e && n < SPACE ==> !Present(Pte(mem, d, n)) }

  /** What shrinking from page e to page s leaves: the mapped pages that the walk jumped over. */
  ghost predicate Leftover(mem: Mem, d: nat, s: nat, n: nat)
    requires d < |mem| && n < SPACE
  { Present(Pte(mem, d, n)) && Skipped(mem[d], s, n) }

  /** After the sweep a page is mapped if and only if it was, and was jumped over; so none is left
      if and only if no mapped page is jumped over. */
  lemma {:induction false} ShrinkExact(mem: Mem, mem': Mem, d: nat, s: nat, e: nat)
    requires d < |mem| && |mem'| == |mem| && s <= e <= USER && Swept(mem, mem', d, s, e, e)
    ensures forall n :: s <= n < e ==> (Present(Pte(mem', d, n)) <==> Leftover(mem, d, s, n))
    ensures NoneMapped(mem', d, s, e) <==> forall n :: s <= n < e ==> !Leftover(mem, d, s, n)
  {
    hide Pte, Visits, Skipped;
    forall n | s <= n < e ensures Present(Pte(mem', d, n)) <==> Leftover(mem, d, s, n) {
      if Present(Pte(mem, d, n)) {
        PresentTable(mem, d, n);
        VisitsExactly(mem[d], s, n);
      }
      PteAbsent(mem, d, n);
    }
  }

  /** If exactly the pages below k are mapped, exactly those below s remain. */
  lemma {:induction false} ShrinkBelow(mem: Mem, mem': Mem, d: nat, k: nat, s: nat, e: nat)
    requires d < |mem| && |mem'| == |mem| && MappedBelow(mem, d, k) && s <= k <= e <= USER && Swept(mem, mem', d, s, e, e)
    ensures MappedBelow(mem', d, s)
  {
    hide Pte, Visits, Skipped;
    ShrinkExact(mem, mem', d, s, e);
    forall n | 0 <= n < USER ensures Present(Pte(mem', d, n)) <==> n < s {
      if s <= n < k { NotSkipped(mem, d, k, s, n); }
    }
  }

  /** A page below the size that is mapped has a table, and so has the page before it. */
  lemma {:induction false} NotSkipped(mem: Mem, d: nat, k: nat, s: nat, n: nat)
    requires d < |mem| && MappedBelow(mem, d, k) && s <= n < k <= USER
    ensures !Skipped(mem[d], s, n)
  {
    hide Pte;
    PresentTable(mem, d, s);
  }

  /** Swept from page 0, whatever was mapped, no user page is left. */
  lemma {:induction false} SweepAll(mem: Mem, mem': Mem, d: nat)
    requires d < |mem| && |mem'| == |mem| && Swept(mem, mem', d, 0, USER, USER)
    ensures MappedBelow(mem', d, 0)
  {
    hide Pte, Visits;
    forall n | 0 <= n < USER ensures !Present(Pte(mem', d, n)) {
      if Present(Pte(mem, d, n)) {
        PresentTable(mem, d, n);
        VisitsExactly(mem[d], 0, n);
      }
      PteAbsent(mem, d, n);
    }
  }

  /** With its user pages gone, d owns itself and its tables. */
  lemma {:induction false} OnlyTables(mem: Mem, dirs: set<nat>, owner: map<nat, Use>, d: nat)
    requires Own(mem, dirs, owner) && d in dirs && d < |mem| && MappedBelow(mem, d, 0)
    ensures forall p :: p in owner && BelongsTo(owner[p], p, d) ==>
      p == d || (owner[p].Table? && owner[p].x < ENTRIES && Present(mem[d][owner[p].x]) && Frame(mem[d][owner[p].x]) == p)
  {
    hide Pte;
    forall p | p in owner && BelongsTo(owner[p], p, d)
      ensures p == d || (owner[p].Table? && owner[p].x < ENTRIES && Present(mem[d][owner[p].x]) && Frame(mem[d][owner[p].x]) == p)
    {
      assert Placed(mem, dirs, owner[p], p);
    }
  }

  // ------------------------------------------------- what growing costs

  /** The directory entries of d that have a table. */
  ghost function Tables(mem: Mem, d: nat): set<nat>
    requires d < |mem|
  { set x | 0 <= x < ENTRIES && Present(mem[d][x]) }

  /** Pages that mapping pages n to e takes, tables included, when the tables in have exist. */
  ghost function Need(have: set<nat>, n: nat, e: nat): nat
    decreases e - n
  {
    if n >= e then 0
    else 1 + (if n / ENTRIES in have then 0 else 1) + Need(have + {n / ENTRIES}, n + 1, e)
  }

  /** Mapping pages s, s + 1, ..., page k is the first to need its table. */
  ghost predicate NeedsTable(have: set<nat>, s: nat, k: nat) {
    k / ENTRIES !in have && (k == s || k % ENTRIES == 0)
  }

  ghost predicate LastNeedsTable(have: set<nat>, s: nat, e: nat) { s < e && NeedsTable(have, s, e - 1) }

  /** With f free pages, mapping from s on takes the last of them for page k, which has no table. */
  ghost predicate LossAt(have: set<nat>, s: nat, k: nat, f: nat) { NeedsTable(have, s, k) && f == Need(have, s, k) + 1 }

  ghost predicate SomeLoss(have: set<nat>, s: nat, e: nat, f: nat) { exists k :: s <= k < e && LossAt(have, s, k, f) }

  /** What one more page costs. */
  lemma {:induction false} NeedSnoc(have: set<nat>, now: set<nat>, s: nat, a: nat)
    requires s <= a && Reached(have, now, s, a)
    ensures Need(have, s, a + 1) == Need(have, s, a) + 1 + if a / ENTRIES in now then 0 else 1
    ensures a / ENTRIES !in now <==> NeedsTable(have, s, a)
    decreases a - s
  {
    if s == a {
      assert Need(have + {s / ENTRIES}, s + 1, s + 1) == 0;
    } else {
      ReachedLater(have, now, s, a);
      NeedSnoc(have + {s / ENTRIES}, now, s + 1, a);
    }
  }

  lemma {:induction false} ReachedLater(have: set<nat>, now: set<nat>, s: nat, a: nat)
    requires s < a && Reached(have, now, s, a)
    ensures Reached(have + {s / ENTRIES}, now, s + 1, a)
  {
  }

  lemma {:induction false} NeedMore(have: set<nat>, s: nat, a: nat, b: nat)
    requires s <= a <= b
    ensures Need(have, s, a) + b - a <= Need(have, s, b)
    decreases b - s
  {
    if s < a {
      NeedMore(have + {s / ENTRIES}, s + 1, a, b);
    } else if s < b {
      NeedMore(have + {s / ENTRIES}, s + 1, s + 1, b);
    }
  }

  ghost function WithTables(have: set<nat>, s: nat, k: nat): set<nat> {
    if s < k then have + Span(s / ENTRIES, (k - 1) / ENTRIES + 1) else have
  }

  lemma {:induction false} NeedTwo(have: set<nat>, s: nat, k: nat)
    requires s <= k && NeedsTable(have, s, k)
    ensures Need(have, s, k + 1) == Need(have, s, k) + 2
  {
    NeedSnoc(have, WithTables(have, s, k), s, k);
  }

  /** With enough for the pages up to a, no page before a is lost; with no more than that, none from a on. */
  lemma {:induction false} NoLoss(have: set<nat>, s: nat, a: nat, k: nat, f: nat)
    requires s <= a && s <= k
    ensures f >= Need(have, s, a) && k < a ==> !LossAt(have, s, k, f)
    ensures f <= Need(have, s, a) && k >= a ==> !LossAt(have, s, k, f)
  {
    hide Need;
    if k < a {
      if NeedsTable(have, s, k) { NeedTwo(have, s, k); }
      NeedMore(have, s, k + 1, a);
    } else {
      NeedMore(have, s, a, k);
    }
  }

  lemma {:induction false} OneLoss(have: set<nat>, s: nat, j: nat, k: nat, f: nat)
    requires s <= j < k && LossAt(have, s, j, f)
    ensures f + 1 <= Need(have, s, k) && !LossAt(have, s, k, f)
  {
    hide Need;
    NeedTwo(have, s, j);
    NeedMore(have, s, j + 1, k);
  }

  /** How allocuvm's loop from s to e ended at page k: done, out of pages, out of pages for a table
      just after taking the last one, or at a page that is mapped already. */
  datatype GrowEnd = Complete | NoneFree | LostPage(p: nat) | Remapped

  ghost function Lost(r: GrowEnd): set<nat> { if r.LostPage? then {r.p} else {} }

  /** f pages were free at the beginning and `left` at the end. */
  ghost predicate Ended(r: GrowEnd, have: set<nat>, s: nat, k: nat, e: nat, f: nat, left: nat) {
    match r
    case Complete => k == e && f == left + Need(have, s, e)
    case NoneFree => k < e && f == Need(have, s, k) && left == 0
    case LostPage(_) => k < e && LossAt(have, s, k, f) && left == 0
    case Remapped => k < e && f > Need(have, s, k)
  }

  lemma {:induction false} ShortNoLoss(have: set<nat>, s: nat, a: nat, e: nat, f: nat)
    requires s <= a && f == Need(have, s, a)
    ensures !SomeLoss(have, s, e, f)
  {
    forall j | s <= j < e ensures !LossAt(have, s, j, f) { NoLoss(have, s, a, j, f); }
  }

  lemma {:induction false} ShortLoss(have: set<nat>, s: nat, a: nat, e: nat, f: nat)
    requires s <= a < e && LossAt(have, s, a, f)
    ensures SomeLoss(have, s, e, f)
  {
  }

  /** Page m is the first mapped one from s on. */
  ghost predicate FirstMapped(mem: Mem, d: nat, s: nat, m: nat)
    requires d < |mem| && m < SPACE
  { Present(Pte(mem, d, m)) && NoneMapped(mem, d, s, m) }

  /** Growing from s to e meets a mapped page while there are pages left. */
  ghost predicate WillRemap(mem: Mem, d: nat, s: nat, e: nat, f: nat)
    requires d < |mem| && e <= USER
  { exists m :: s <= m < e && FirstMapped(mem, d, s, m) && f > Need(Tables(mem, d), s, m) }

  /** Every end is decided by the number of free pages and by what is mapped at the beginning. */
  lemma {:induction false} EndedMeans(r: GrowEnd, mem: Mem, d: nat, s: nat, k: nat, e: nat, f: nat, left: nat)
    requires d < |mem| && s <= k <= e <= USER && Ended(r, Tables(mem, d), s, k, e, f, left)
    requires NoneMapped(mem, d, s, k) && (r.Remapped? ==> Present(Pte(mem, d, k)))
    ensures r.Remapped? <==> WillRemap(mem, d, s, e, f)
    ensures !r.Remapped? ==> (r.LostPage? <==> SomeLoss(Tables(mem, d), s, e, f))
    ensures !r.Remapped? ==> (r.Complete? <==> f >= Need(Tables(mem, d), s, e))
    ensures !r.Remapped? ==> (r.LostPage? && k + 1 == e <==> f + 1 == Need(Tables(mem, d), s, e) && LastNeedsTable(Tables(mem, d), s, e))
  {
    hide Pte, Need, NeedsTable, Tables;
    var have := Tables(mem, d);
    if WillRemap(mem, d, s, e, f) { NotStopped(r, mem, d, s, k, e, f, left); }
    if r.Remapped? { assert FirstMapped(mem, d, s, k); }
    forall j | s <= j < e && !r.Remapped? && !r.LostPage? ensures !LossAt(have, s, j, f) {
      NoLoss(have, s, k, j, f);
    }
    NeedMore(have, s, k, e);
    if r.LostPage? {
      NeedTwo(have, s, k);
      NeedMore(have, s, k + 1, e);
    }
    if LastNeedsTable(have, s, e) && f + 1 == Need(have, s, e) {
      NeedTwo(have, s, e - 1);
      if k < e - 1 {
        NeedMore(have, s, k + 1, e - 1);
        NeedMore(have, s, k, e - 1);
      }
    }
  }

  lemma {:induction false} NotStopped(r: GrowEnd, mem: Mem, d: nat, s: nat, k: nat, e: nat, f: nat, left: nat)
    requires d < |mem| && s <= k <= e <= USER && Ended(r, Tables(mem, d), s, k, e, f, left)
    requires NoneMapped(mem, d, s, k) && WillRemap(mem, d, s, e, f)
    ensures r.Remapped?
  {
    hide Pte, Need;
    var have := Tables(mem, d);
    var m :| s <= m < e && FirstMapped(mem, d, s, m) && f > Need(have, s, m);
    PresentTable(mem, d, m);
    NeedMore(have, s, k, m);
    if r.LostPage? && k < m { OneLoss(have, s, k, m, f); }
  }

  /** Pages s to a of d are new, zeroed, writable user pages; all other translations are as before. */
  ghost predicate Fresh(mem: Mem, mem': Mem, d: nat, s: nat, a: nat)
    requires d < |mem| && |mem'| == |mem|
  {
    forall n :: 0 <= n < SPACE ==>
      if s <= n < a then
        && Pte(mem', d, n) % 0x1000 == PTE_U + PTE_W + 1
        && Frame(Pte(mem', d, n)) < |mem| && mem'[Frame(Pte(mem', d, n))] == ZeroPage()
      else Pte(mem', d, n) == Pte(mem, d, n)
  }

  lemma {:induction false} FreshOn(mem: Mem, mem1: Mem, mem2: Mem, dirs: set<nat>, owner: map<nat, Use>, held: set<nat>, d: nat,
                                   s: nat, a: nat, p: nat)
    requires d in dirs && d < |mem| && |mem| == |mem1| == |mem2| && Fresh(mem, mem1, d, s, a) && s <= a < USER
    requires Own(mem1, dirs, owner) && DataSame(mem1, mem2, owner, held) && p < |mem| && p < SPACE && mem2[p] == ZeroPage()
    requires forall m :: 0 <= m < SPACE ==> Pte(mem2, d, m) == if m == a then Entry(p, PTE_W + PTE_U) else Pte(mem1, d, m)
    ensures Fresh(mem, mem2, d, s, a + 1)
  {
    hide Pte, Own;
    forall n | s <= n < a
      ensures Frame(Pte(mem2, d, n)) < |mem| && mem2[Frame(Pte(mem2, d, n))] == ZeroPage()
    {
      UserOf(mem1, dirs, owner, d, n);
    }
    EntryFlags(p, PTE_W + PTE_U);
  }

  lemma {:induction false} EntryFlags(p: nat, perm: nat)
    requires p < SPACE && perm < 0x1000
    ensures Entry(p, perm) % 0x1000 == perm / 2 * 2 + 1
  {
  }

  lemma {:induction false} FreshMapped(mem: Mem, mem': Mem, d: nat, s: nat, a: nat)
    requires d < |mem| && |mem'| == |mem| && Fresh(mem, mem', d, s, a) && MappedBelow(mem, d, s) && s <= a <= USER
    ensures MappedBelow(mem', d, a)
  {
    hide Pte;
  }

  /** How one mapping, or mappages as a whole, may end. */
  datatype MapResult = Mapped | NoTable | Remap

  datatype CopyResult = Child(v: Word) | CopyFailed | CopyPanic

  lemma {:induction false} Removed(s: set<nat>, dirs: set<nat>, c: nat)
    requires s <= dirs && c !in dirs
    ensures s + {c} - {c} == s && c in s + {c}
  {
  }

  lemma {:induction false} StrayOne(dirs: set<nat>, dirs': set<nat>, c: nat)
    requires dirs' == dirs || (dirs' == dirs + {c} && c !in dirs)
    ensures dirs' == dirs + (dirs' - dirs) && |dirs' - dirs| <= 1
  {
    assert dirs' - dirs == {} || dirs' - dirs == {c};
  }

  lemma {:induction false} SetupFailed(lo: nat, free: seq<nat>, owner: map<nat, Use>, held: set<nat>, free': seq<nat>,
                                       owner': map<nat, Use>,
                    pool: set<nat>, dirs: set<nat>, dirs': set<nat>)
    requires Parts(lo, free, owner, held, pool) && Parts(lo, free', owner', held, pool)
    requires dirs' - dirs == {} ==> owner' == owner
    ensures dirs' - dirs == {} ==> forall p :: p in free' <==> p in free
  {
  }

  lemma {:induction false} ThenData(mem: Mem, mem1: Mem, mem2: Mem, owner: map<nat, Use>, owner1: map<nat, Use>,
                                    owner2: map<nat, Use>, held: set<nat>, c: nat)
    requires |mem| == |mem1| == |mem2| && Extends(owner, owner1, c) && Extends(owner1, owner2, c)
    requires DataSame(mem, mem1, owner, held) && DataSame(mem1, mem2, owner1, held)
    ensures DataSame(mem, mem2, owner, held) && Extends(owner, owner2, c)
  {
  }

  /** Copying what setupkvm left alone is copying what was there before it. */
  lemma {:induction false} SameSource(mem: Mem, mem1: Mem, mem2: Mem, dirs: set<nat>, owner: map<nat, Use>, held: set<nat>,
                                      d: nat, c: nat, k: nat)
    requires |mem| == |mem1| == |mem2| && d in dirs && c < |mem| && k <= USER && Own(mem, dirs, owner)
    requires (forall e :: e in dirs ==> e < |mem|) && SameSpaces(mem, mem1, dirs) && DataSame(mem, mem1, owner, held)
    requires Copied(mem1, mem2, d, c, k)
    ensures Copied(mem, mem2, d, c, k)
  {
    hide Pte, Own;
    forall n | 0 <= n < k
      ensures Frame(Pte(mem, d, n)) < |mem| && mem1[Frame(Pte(mem1, d, n))] == mem[Frame(Pte(mem, d, n))]
    {
      assert Pte(mem1, d, n) == Pte(mem, d, n);
      UserOf(mem, dirs, owner, d, n);
    }
  }

  lemma {:induction false} SourceHole(mem: Mem, mem1: Mem, dirs: set<nat>, d: nat, k: nat)
    requires |mem1| == |mem| && (forall e :: e in dirs ==> e < |mem|) && d in dirs && SameSpaces(mem, mem1, dirs)
    requires Holey(mem1, d, k)
    ensures Holey(mem, d, k)
  {
    hide Pte;
    var n :| 0 <= n < k && n < SPACE && !Present(Pte(mem1, d, n));
    assert Pte(mem1, d, n) == Pte(mem, d, n);
  }

  /** A directory that does not exist owns nothing. */
  lemma {:induction false} NoneOf(mem: Mem, dirs: set<nat>, owner: map<nat, Use>, c: nat)
    requires Own(mem, dirs, owner) && c !in dirs
    ensures forall p :: p in owner ==> !BelongsTo(owner[p], p, c)
  {
    hide Pte;
    forall p | p in owner ensures !BelongsTo(owner[p], p, c) {
      assert Placed(mem, dirs, owner[p], p);
    }
  }

  lemma {:induction false} OthersBack(owner: map<nat, Use>, owner': map<nat, Use>, c: nat)
    requires Extends(owner, owner', c) && forall p :: p in owner ==> !BelongsTo(owner[p], p, c)
    ensures Others(owner', c) == owner
  {
  }

  lemma {:induction false} DataBack(mem: Mem, mem1: Mem, mem2: Mem, owner: map<nat, Use>, held: set<nat>, owner2: map<nat, Use>,
                                    held2: set<nat>)
    requires |mem| == |mem1| == |mem2| && DataSame(mem, mem1, owner, held) && DataSame(mem1, mem2, owner2, held2)
    requires owner2 == owner && held <= held2
    ensures DataSame(mem, mem2, owner, held)
  {
  }

  /** With the same pages in use and held, the same pages are free. */
  lemma {:induction false} SameFree(lo: nat, free: seq<nat>, owner: map<nat, Use>, held: set<nat>, free': seq<nat>,
                                    owner': map<nat, Use>, held': set<nat>, pool: set<nat>)
    requires Parts(lo, free, owner, held, pool) && Parts(lo, free', owner', held', pool) && owner' == owner
    ensures held' == held ==> forall p :: p in free' <==> p in free
  {
  }

  datatype CopyStep = Done | Hole | Short(lost: set<nat>)

  /** The first k user pages of c have the contents and flags of d's, and c has no others. */
  ghost predicate Copied(mem: Mem, mem': Mem, d: nat, c: nat, k: nat)
    requires d < |mem| && c < |mem| && |mem'| == |mem|
  {
    forall n :: 0 <= n < USER ==>
      if n < k then
        && Present(Pte(mem, d, n)) && Pte(mem', c, n) % 0x1000 == Pte(mem, d, n) % 0x1000
        && Frame(Pte(mem, d, n)) < |mem| && Frame(Pte(mem', c, n)) < |mem|
        && mem'[Frame(Pte(mem', c, n))] == mem[Frame(Pte(mem, d, n))]
      else Pte(mem', c, n) == 0
  }

  lemma {:induction false} CopyStart(mem: Mem, d: nat, c: nat)
    requires d < |mem| && c < |mem| && forall n :: 0 <= n < USER ==> Pte(mem, c, n) == 0
    ensures Copied(mem, mem, d, c, 0)
  {
    hide Pte;
  }

  lemma {:induction false} SourceSame(mem: Mem, mem': Mem, dirs: set<nat>, d: nat, c: nat, n: nat)
    requires |mem'| == |mem| && (forall x :: x in dirs ==> x < |mem|) && d in dirs && d != c && n < SPACE
    requires OthersSame(mem, mem', dirs, c)
    ensures Pte(mem', d, n) == Pte(mem, d, n)
  {
  }

  /** The source page still holds what it held, and the copy's place is empty. */
  lemma {:induction false} CopyFacts(mem: Mem, mem': Mem, dirs: set<nat>, owner: map<nat, Use>, owner': map<nat, Use>,
                                     held: set<nat>, d: nat, c: nat, n: nat)
    requires |mem'| == |mem| && d in dirs && c in dirs && (forall x :: x in dirs ==> x < |mem|) && n < USER
    requires Own(mem, dirs, owner) && DataSame(mem, mem', owner, held) && Copied(mem, mem', d, c, n)
    requires Present(Pte(mem, d, n))
    ensures Frame(Pte(mem, d, n)) < |mem| && mem'[Frame(Pte(mem, d, n))] == mem[Frame(Pte(mem, d, n))]
    ensures !Present(Pte(mem', c, n))
  {
    hide Pte, Own;
    UserOf(mem, dirs, owner, d, n);
  }

  lemma {:induction false} CopiedOn(mem: Mem, mem1: Mem, mem2: Mem, dirs: set<nat>, owner: map<nat, Use>, held: set<nat>,
                 d: nat, c: nat, i: nat, p: nat, pte: Word)
    requires d in dirs && c in dirs && (forall x :: x in dirs ==> x < |mem|) && |mem| == |mem1| == |mem2| && i < USER
    requires Copied(mem, mem1, d, c, i) && Own(mem1, dirs, owner) && DataSame(mem1, mem2, owner, held)
    requires pte == Pte(mem, d, i) && Present(pte) && Frame(pte) < |mem| && p < |mem| && p < SPACE && mem2[p] == mem[Frame(pte)]
    requires forall m :: 0 <= m < SPACE ==> Pte(mem2, c, m) == if m == i then Entry(p, pte % 0x1000) else Pte(mem1, c, m)
    ensures Copied(mem, mem2, d, c, i + 1)
  {
    hide Pte, Own, Entry, Frame;
    EntryFlags(p, pte % 0x1000);
    EntryFrame(p, pte % 0x1000);
    forall n | 0 <= n < i
      ensures Frame(Pte(mem2, c, n)) < |mem| && mem2[Frame(Pte(mem2, c, n))] == mem[Frame(Pte(mem, d, n))]
    {
      FlagsPresent(Pte(mem1, c, n), Pte(mem, d, n));
      UserOf(mem1, dirs, owner, c, n);
    }
  }

  lemma {:induction false} FlagsPresent(a: Word, b: Word)
    requires a % 0x1000 == b % 0x1000
    ensures Present(a) == Present(b)
  {
    LowBit(a);
    LowBit(b);
  }

  lemma {:induction false} LowBit(a: Word)
    ensures a % 2 == a % 0x1000 % 2
  {
    var q, r := a / 0x1000, a % 0x1000;
    assert a == 2 * (0x800 * q) + r;
  }

  lemma {:induction false} EntryFrame(p: nat, perm: nat)
    requires p < SPACE && perm < 0x1000
    ensures Frame(Entry(p, perm)) == p
  {
  }

  /** The uses that two states have in common. */
  ghost function Still(owner: map<nat, Use>, owner': map<nat, Use>): map<nat, Use> {
    map p | p in owner && p in owner' && owner'[p] == owner[p] :: owner[p]
  }

  lemma {:induction false} PagesUpOrder(oldsz: Word, newsz: Word)
    requires oldsz <= newsz < KERNBASE
    ensures PagesUp(oldsz) <= PagesUp(newsz) <= USER
    ensures oldsz == newsz ==> PagesUp(oldsz) == PagesUp(newsz)
  {
  }

  lemma {:induction false} AllStill(mem: Mem, dirs: set<nat>, d: nat, owner: map<nat, Use>, held: set<nat>)
    requires forall x :: x in dirs ==> x < |mem|
    ensures OthersSame(mem, mem, dirs, d) && DataSame(mem, mem, Still(owner, owner), held)
  {
  }

  lemma {:induction false} StillAll(mem: Mem, mem': Mem, owner: map<nat, Use>, owner': map<nat, Use>, held: set<nat>)
    requires |mem'| == |mem| && DataSame(mem, mem', owner, held)
    ensures DataSame(mem, mem', Still(owner, owner'), held)
  {
  }

  /** allocuvm's way out: the pages below s are as before, and if no page from s to e was mapped,
      so is the whole mapping. */
  lemma {:induction false} ShrinkRestores(mem: Mem, mem1: Mem, mem2: Mem, d: nat, s: nat, k: nat, e: nat)
    requires d < |mem| && |mem| == |mem1| == |mem2| && Fresh(mem, mem1, d, s, k) && Swept(mem1, mem2, d, s, e, e)
    requires s <= k <= e <= USER
    ensures forall n :: 0 <= n < s ==> Pte(mem2, d, n) == Pte(mem, d, n)
    ensures NoneMapped(mem, d, s, e) ==> SameMapping(mem, mem2, d)
  {
    hide Pte, Visits, Skipped, Present, Frame;
    if NoneMapped(mem, d, s, e) {
      ShrinkExact(mem1, mem2, d, s, e);
      forall n | s <= n < e ensures !Present(Pte(mem2, d, n)) { SweptNew(mem, mem1, mem2, d, s, k, e, n); }
      forall n | 0 <= n < SPACE && !(s <= n < e) ensures Pte(mem2, d, n) == Pte(mem, d, n) { }
    }
  }

  lemma {:induction false} SweptNew(mem: Mem, mem1: Mem, mem2: Mem, d: nat, s: nat, k: nat, e: nat, n: nat)
    requires d < |mem| && |mem| == |mem1| == |mem2| && Fresh(mem, mem1, d, s, k) && s <= k <= e <= USER && s <= n < e
    requires NoneMapped(mem, d, s, e) && (Present(Pte(mem2, d, n)) <==> Leftover(mem1, d, s, n))
    ensures !Present(Pte(mem2, d, n))
  {
    hide Pte, Visits, Skipped;
    if n < k {
      FlagsPresent(Pte(mem1, d, s), PTE_U + PTE_W + 1);
      PresentTable(mem1, d, s);
      TableNotSkipped(mem1[d], s, n);
    }
  }

  lemma {:induction false} TableNotSkipped(dir: Page, a: nat, n: nat)
    requires a < SPACE && n < SPACE && Present(dir[a / ENTRIES])
    ensures !Skipped(dir, a, n)
  {
  }

  lemma {:induction false} UndoFrame(mem: Mem, mem1: Mem, mem2: Mem, dirs: set<nat>, d: nat, owner: map<nat, Use>, held: set<nat>,
                  owner1: map<nat, Use>, owner2: map<nat, Use>, held2: set<nat>)
    requires |mem| == |mem1| == |mem2| && forall x :: x in dirs ==> x < |mem|
    requires OthersSame(mem, mem1, dirs, d) && OthersSame(mem1, mem2, dirs, d)
    requires DataSame(mem, mem1, owner, held) && DataSame(mem1, mem2, owner2, held2) && held <= held2
    ensures OthersSame(mem, mem2, dirs, d) && DataSame(mem, mem2, Still(owner, owner2), held)
  {
    hide Pte;
  }

  /** The tables there are once pages s to k are mapped. */
  ghost predicate Reached(have: set<nat>, now: set<nat>, s: nat, k: nat) {
    forall x :: x in now <==> x in have || (s < k && s / ENTRIES <= x <= (k - 1) / ENTRIES)
  }

  lemma {:induction false} ReachedOn(have: set<nat>, now: set<nat>, s: nat, k: nat)
    requires Reached(have, now, s, k) && s <= k
    ensures Reached(have, now + {k / ENTRIES}, s, k + 1)
  {
  }

  lemma {:induction false} WalkExtends(owner: map<nat, Use>, owner': map<nat, Use>, d: nat, x: nat, t: nat)
    requires owner' == owner || (t !in owner && owner' == owner[t := Table(d, x)])
    ensures Extends(owner, owner', d)
  {
  }

  lemma {:induction false} GrowStart(mem: Mem, dirs: set<nat>, d: nat, s: nat, owner: map<nat, Use>, held: set<nat>)
    requires d in dirs && forall x :: x in dirs ==> x < |mem|
    ensures Fresh(mem, mem, d, s, s) && Reached(Tables(mem, d), Tables(mem, d), s, s) && NoneMapped(mem, d, s, s)
    ensures Need(Tables(mem, d), s, s) == 0
    ensures OthersSame(mem, mem, dirs, d) && DataSame(mem, mem, owner, held) && Extends(owner, owner, d)
  {
  }

  lemma {:induction false} NotTouched(mem: Mem, mem': Mem, d: nat, s: nat, k: nat, a: nat)
    requires d < |mem| && |mem'| == |mem| && Fresh(mem, mem', d, s, k) && s <= k <= a < USER
    ensures Pte(mem', d, a) == Pte(mem, d, a)
  {
    hide Pte;
  }

  lemma {:induction false} NoneMappedOn(mem: Mem, d: nat, s: nat, a: nat)
    requires d < |mem| && s <= a < SPACE && NoneMapped(mem, d, s, a) && !Present(Pte(mem, d, a))
    ensures NoneMapped(mem, d, s, a + 1)
  {
  }

  lemma {:induction false} GrowFrame(mem: Mem, mem1: Mem, mem2: Mem, dirs: set<nat>, d: nat, owner: map<nat, Use>, held: set<nat>,
                  owner1: map<nat, Use>, held1: set<nat>, owner2: map<nat, Use>)
    requires |mem| == |mem1| == |mem2| && Extends(owner1, owner2, d) && forall x :: x in dirs ==> x < |mem|
    requires OthersSame(mem, mem1, dirs, d) && OthersSame(mem1, mem2, dirs, d)
    requires DataSame(mem, mem1, owner, held) && DataSame(mem1, mem2, owner1, held1) && Extends(owner, owner1, d) && held <= held1
    ensures OthersSame(mem, mem2, dirs, d) && DataSame(mem, mem2, owner, held) && Extends(owner, owner2, d)
  {
    hide Pte;
  }

  lemma {:induction false} SameFresh(mem: Mem, mem1: Mem, mem2: Mem, dirs: set<nat>, owner: map<nat, Use>, held: set<nat>,
                                     d: nat, s: nat, k: nat)
    requires d in dirs && d < |mem| && |mem| == |mem1| == |mem2| && Fresh(mem, mem1, d, s, k) && s <= k <= USER
    requires Own(mem1, dirs, owner) && DataSame(mem1, mem2, owner, held)
    requires mem2[d] == mem1[d] && forall m :: 0 <= m < SPACE ==> Pte(mem2, d, m) == Pte(mem1, d, m)
    ensures Fresh(mem, mem2, d, s, k) && Tables(mem2, d) == Tables(mem1, d)
  {
    hide Pte, Own;
    forall n | s <= n < k
      ensures Frame(Pte(mem2, d, n)) < |mem| && mem2[Frame(Pte(mem2, d, n))] == ZeroPage()
    {
      UserOf(mem1, dirs, owner, d, n);
    }
  }

  datatype AddResult = Added(p: nat) | NoPage | TableMissing(p: nat) | AlreadyMapped

  /** How allocuvm's loop ends, as the code sees it. */
  datatype GrowCode = Went | OutOfMemory | RemapPanic

  /** allocuvm's result: a size, or the panic of mappages. */
  datatype GrowResult = Grown(sz: Word) | GrowPanic

  /** The same pages are mapped, with the same entries. */
  ghost predicate SameMapping(mem: Mem, mem': Mem, d: nat)
    requires d < |mem| && |mem'| == |mem|
  {
    forall n :: 0 <= n < SPACE ==>
      (Present(Pte(mem', d, n)) <==> Present(Pte(mem, d, n))) && (Present(Pte(mem, d, n)) ==> Pte(mem', d, n) == Pte(mem, d, n))
  }

  lemma {:induction false} PageArith(n: nat, p: nat)
    requires n < USER && p < HI
    ensures n * PGSIZE + PGSIZE <= KERNBASE && n * PGSIZE / PGSIZE == n && (n * PGSIZE + PGSIZE - 1) / PGSIZE == n
    ensures p * PGSIZE < KERNBASE && p * PGSIZE / PGSIZE == p && p * PGSIZE % PGSIZE == 0
  {
  }

  lemma {:induction false} TabledTables(mem: Mem, mem': Mem, d: nat, x: nat)
    requires d < |mem| && |mem'| == |mem| && x < ENTRIES && Tabled(mem, mem', d, x)
    ensures Tables(mem', d) == Tables(mem, d) + {x}
    ensures |Tables(mem', d)| == |Tables(mem, d)| + if Present(mem[d][x]) then 0 else 1
  {
    assert Tables(mem', d) == Tables(mem, d) + {x};
    if Present(mem[d][x]) {
      assert x in Tables(mem, d);
      assert Tables(mem', d) == Tables(mem, d);
    } else {
      assert x !in Tables(mem, d);
    }
  }

  /** The directory entries that the first i rows of kmap need. */
  ghost function KmapTables(data: nat, i: nat): set<nat>
    requires i <= 4 && 0x100 < data < HI
  {
    (if i == 0 then {} else Span(512, 513 + ((if i == 1 then 0x100 else if i == 2 then data else HI) - 1) / ENTRIES))
    + (if i == 4 then Span(1016, 1024) else {})
  }

  /** The directory entries of the kernel half: physical memory up to PHYSTOP, and the devices. */
  ghost function KernelTables(): set<nat> { Span(512, 568) + Span(1016, 1024) }

  lemma {:induction false} KernelTablesSize()
    ensures |KernelTables()| == 64
  {
    SpanSize(512, 568);
    SpanSize(1016, 1024);
    assert Span(512, 568) * Span(1016, 1024) == {};
  }

  /** Row i brings the tables of its own pages. */
  lemma {:induction false} KmapTablesOn(data: nat, i: nat, have: set<nat>, now: set<nat>)
    requires i < 4 && 0x100 < data < HI && have == KmapTables(data, i)
    requires var k := Kmap(data, i); Reached(have, now, k.virt / PGSIZE, (k.virt + k.size - 1) / PGSIZE + 1)
    ensures now == KmapTables(data, i + 1)
  {
    KmapBounds(data, i);
  }

  lemma {:induction false} KmapBounds(data: nat, i: nat)
    requires i < 4 && 0x100 < data < HI
    ensures var k := Kmap(data, i);
            var first, last := k.virt / PGSIZE, (k.virt + k.size - 1) / PGSIZE;
            && first == (if i == 0 then USER else if i == 1 then USER + 0x100 else if i == 2 then USER + data else DEVICES)
            && last == (if i == 0 then USER + 0x100 else if i == 1 then USER + data else if i == 2 then USER + HI else SPACE) - 1
  {
  }

  /** The walk over pages first to last stopped at one without a table. */
  ghost predicate StoppedAt(have: set<nat>, now: set<nat>, first: nat, last: nat) {
    exists a :: first <= a <= last && Reached(have, now, first, a) && a / ENTRIES !in now
  }

  lemma {:induction false} StopHere(mem: Mem, d: nat, have: set<nat>, first: nat, a: nat, last: nat)
    requires d < |mem| && first <= a <= last < SPACE && Reached(have, Tables(mem, d), first, a) && !Present(mem[d][a / ENTRIES])
    ensures StoppedAt(have, Tables(mem, d), first, last)
  {
  }

  /** Tables that stop short of the kernel's are fewer than 64. */
  lemma {:induction false} KmapStopped(data: nat, i: nat, have: set<nat>, now: set<nat>)
    requires i < 4 && 0x100 < data < HI && have == KmapTables(data, i)
    requires var k := Kmap(data, i); StoppedAt(have, now, k.virt / PGSIZE, (k.virt + k.size - 1) / PGSIZE)
    ensures |now| < 64
  {
    var k := Kmap(data, i);
    var a :| k.virt / PGSIZE <= a <= (k.virt + k.size - 1) / PGSIZE && Reached(have, now, k.virt / PGSIZE, a) && a / ENTRIES !in now;
    hide Reached, KernelTables, KmapTables, Kmap;
    KmapWithin(data, i, have, now, a);
    KernelTablesSize();
    SubsetSize(now + {a / ENTRIES}, KernelTables());
  }

  lemma {:induction false} KmapWithin(data: nat, i: nat, have: set<nat>, now: set<nat>, a: nat)
    requires i < 4 && 0x100 < data < HI && have == KmapTables(data, i)
    requires var k := Kmap(data, i); k.virt / PGSIZE <= a <= (k.virt + k.size - 1) / PGSIZE && Reached(have, now, k.virt / PGSIZE, a)
    ensures now + {a / ENTRIES} <= KernelTables()
  {
    KmapBounds(data, i);
    hide Kmap;
  }

  lemma {:induction false} KmapTablesEnds(data: nat)
    requires 0x100 < data < HI
    ensures KmapTables(data, 0) == {} && KmapTables(data, 4) == KernelTables()
  {
  }

  /** For user pages of a space that has only its kernel half, that is one table for every 1024 pages or part of them. */
  lemma {:induction false} NeedFresh(have: set<nat>, n: nat, e: nat)
    requires n <= e && (n % ENTRIES == 0 || n / ENTRIES in have)
    requires forall x :: x in have ==> x < (n + ENTRIES - 1) / ENTRIES || x >= (e + ENTRIES - 1) / ENTRIES
    ensures Need(have, n, e) == e - n + (e + ENTRIES - 1) / ENTRIES - (n + ENTRIES - 1) / ENTRIES
    decreases e - n
  {
    if n < e { NeedFresh(have + {n / ENTRIES}, n + 1, e); }
  }

  /** The pages a child of k user pages takes: its directory, the tables of its kernel half,
      its own pages, and a table for every 1024 of them or part. */
  function ChildCost(k: nat): nat { 65 + k + (k + ENTRIES - 1) / ENTRIES }

  /** With f free pages, copying k user pages into a new space loses one. */
  predicate CopyLoses(f: nat, k: nat) { f >= 66 && (f - 66) % 1025 == 0 && (f - 66) / 1025 * 1024 < k }

  /** What the number of free pages decides of copyuvm, on a source without holes. */
  ghost predicate CopyCounts(r: CopyResult, lost: set<nat>, f: nat, k: nat) {
    !r.CopyPanic? ==> (r.Child? <==> f >= ChildCost(k)) && (lost != {} <==> CopyLoses(f, k))
  }

  /** Some page below k is not mapped. */
  ghost predicate Holey(mem: Mem, d: nat, k: nat)
    requires d < |mem|
  { exists n :: 0 <= n < k && n < SPACE && !Present(Pte(mem, d, n)) }

  lemma {:induction false} CopyLoss(f: nat, k: nat)
    requires k <= USER
    ensures f >= 65 ==> (SomeLoss(KernelTables(), 0, k, f - 65) <==> CopyLoses(f, k))
    ensures CopyLoses(f, k) ==> f < ChildCost(k)
  {
    hide Need;
    if f >= 65 && SomeLoss(KernelTables(), 0, k, f - 65) {
      var j :| 0 <= j < k && LossAt(KernelTables(), 0, j, f - 65);
      CopyCost(j);
      assert j % ENTRIES == 0;
      var q := j / ENTRIES;
      assert f - 66 == 1025 * q;
      assert (f - 66) % 1025 == 0 && (f - 66) / 1025 == q;
    }
    if CopyLoses(f, k) {
      var q := (f - 66) / 1025;
      CopyCost(1024 * q);
      assert f - 66 == 1025 * q;
      assert 1024 * q / ENTRIES == q && 1024 * q % ENTRIES == 0 && q < 512;
      assert LossAt(KernelTables(), 0, 1024 * q, f - 65);
      assert (k + ENTRIES - 1) / ENTRIES >= q + 1;
    }
  }

  lemma {:induction false} NoCopyLoss(f: nat, k: nat)
    ensures f < 65 ==> CopyCounts(CopyFailed, {}, f, k)
  {
  }

  lemma {:induction false} PagesUpUser(sz: Word)
    requires sz <= KERNBASE
    ensures PagesUp(sz) <= USER
  {
  }

  /** What copying k user pages into a new address space takes. */
  lemma {:induction false} CopyCost(k: nat)
    requires k <= USER
    ensures 65 + Need(KernelTables(), 0, k) == ChildCost(k)
  {
    NeedFresh(KernelTables(), 0, k);
  }

  lemma {:induction false} OthersIn(owner: map<nat, Use>, d: nat)
    ensures forall p :: p in Others(owner, d) ==> p in owner && Others(owner, d)[p] == owner[p]
  {
  }

  lemma {:induction false} DirNotFree(lo: nat, free: seq<nat>, owner: map<nat, Use>, held: set<nat>, pool: set<nat>,
                                      free': seq<nat>, d: nat)
    requires Parts(lo, free, owner, held, pool) && d in owner && owner[d] == Dir
    requires forall p :: p in free' <==> p in free || (p in owner && owner[p].Table? && owner[p].d == d && owner[p].x < ENTRIES)
    ensures d !in free' && lo <= d < HI
  {
  }

  lemma {:induction false} OthersKept(mem: Mem, mem': Mem, owner: map<nat, Use>, d: nat)
    requires |mem'| == |mem| && (forall p :: p in owner ==> p < |mem|) && d in owner && owner[d] == Dir
    requires forall q :: 0 <= q < |mem| && !(q in owner && BelongsTo(owner[q], q, d)) && q != d ==> mem'[q] == mem[q]
    ensures forall p :: p in Others(owner, d) ==> p < |mem| && mem'[p] == mem[p]
  {
  }

  lemma {:induction false} OthersOn(mem: Mem, mem': Mem, dirs: set<nat>, owner: map<nat, Use>, d: nat)
    requires |mem| == |mem'| && (forall e :: e in dirs ==> e < |mem| && e in owner && owner[e] == Dir)
    requires forall p :: p in Others(owner, d) ==> p < |mem| && mem'[p] == mem[p]
    requires forall e, n :: e in dirs && e != d && 0 <= n < SPACE ==> Pte(mem', e, n) == Pte(mem, e, n)
    ensures OthersSame(mem, mem', dirs, d)
  {
    hide Pte;
    forall e | e in dirs && e != d ensures mem'[e] == mem[e] {
      assert e in Others(owner, d);
    }
  }

  lemma {:induction false} OthersData(mem: Mem, mem': Mem, owner: map<nat, Use>, held: set<nat>, lo: nat, free: seq<nat>,
                                      pool: set<nat>, d: nat)
    requires |mem| == |mem'| && Parts(lo, free, owner, held, pool) && d in owner && owner[d] == Dir
    requires forall q :: 0 <= q < |mem| && !(q in owner && BelongsTo(owner[q], q, d)) && q != d ==> mem'[q] == mem[q]
    ensures DataSame(mem, mem', Others(owner, d), held)
  {
  }

  /** The freed tables and the directory: together all that d still owned. */
  lemma {:induction false} AllReturned(lo: nat, free: seq<nat>, owner: map<nat, Use>, held: set<nat>, pool: set<nat>,
                                       free': seq<nat>, d: nat)
    requires Parts(lo, free, owner, held, pool) && d in owner && owner[d] == Dir
    requires forall p :: p in owner && BelongsTo(owner[p], p, d) ==> p == d || (owner[p].Table? && owner[p].x < ENTRIES)
    requires forall p :: p in free' <==>
      p == d || p in free || (p in owner && owner[p].Table? && owner[p].d == d && owner[p].x < ENTRIES)
    ensures Parts(lo, free', Others(owner, d), held, pool)
    ensures forall p :: p in free' <==> p in free || (p in owner && BelongsTo(owner[p], p, d))
  {
  }

  /** The table at entry i of d, and no other, is owned by that entry. */
  lemma {:induction false} OneTable(mem: Mem, dirs: set<nat>, owner: map<nat, Use>, d: nat, i: nat)
    requires Own(mem, dirs, owner) && d in dirs && d < |mem| && i < ENTRIES
    ensures forall p :: p in owner && owner[p] == Table(d, i) ==> Present(mem[d][i]) && p == Frame(mem[d][i])
    ensures Present(mem[d][i]) ==> Frame(mem[d][i]) in owner && owner[Frame(mem[d][i])] == Table(d, i)
    ensures d in owner && owner[d] == Dir
  {
    hide Pte;
    forall p | p in owner && owner[p] == Table(d, i) ensures Present(mem[d][i]) && p == Frame(mem[d][i]) {
      assert Placed(mem, dirs, owner[p], p);
    }
  }

  /** Returning user pages of d does not change what the others own. */
  lemma {:induction false} OthersTwice(owner: map<nat, Use>, owner': map<nat, Use>, d: nat)
    requires forall p :: p in owner' ==> p in owner && owner'[p] == owner[p]
    requires forall p :: p in owner && !(owner[p].User? && owner[p].d == d) ==> p in owner'
    ensures Others(owner', d) == Others(owner, d)
  {
  }

  lemma {:induction false} SweepStart(mem: Mem, d: nat, s: nat, e: nat)
    requires d < |mem| && s < SPACE
    ensures Swept(mem, mem, d, s, s, e) && Visits(mem[d], s, s) && Unmapped(mem, d, s, s, e) == 0
  {
  }

  lemma {:induction false} SweepFrame(mem: Mem, mem1: Mem, mem2: Mem, dirs: set<nat>, d: nat, owner1: map<nat, Use>,
                                      owner2: map<nat, Use>, held: set<nat>)
    requires |mem| == |mem1| == |mem2| && forall x :: x in dirs ==> x < |mem|
    requires OthersSame(mem, mem1, dirs, d) && OthersSame(mem1, mem2, dirs, d)
    requires DataSame(mem, mem1, owner1, held) && DataSame(mem1, mem2, owner2, held)
    requires forall p :: p in owner2 ==> p in owner1 && owner2[p] == owner1[p]
    ensures OthersSame(mem, mem2, dirs, d) && DataSame(mem, mem2, owner2, held)
  {
    hide Pte;
  }

  lemma {:induction false} SweepEnd(mem: Mem, mem': Mem, d: nat, s: nat, a: nat, e: nat)
    requires d < |mem| && |mem'| == |mem| && Swept(mem, mem', d, s, a, e) && e <= a
    ensures Swept(mem, mem', d, s, e, e)
  {
    hide Pte;
  }

  lemma {:induction false} ThenOthers(mem: Mem, mem': Mem, mem'': Mem, dirs: set<nat>, dirs': set<nat>, d: nat)
    requires |mem| == |mem'| == |mem''| && d !in dirs && dirs <= dirs' && forall e :: e in dirs' ==> e < |mem|
    requires SameSpaces(mem, mem', dirs) && OthersSame(mem', mem'', dirs', d)
    ensures SameSpaces(mem, mem'', dirs)
  {
    hide Pte;
  }

  lemma {:induction false} NoneCovered(data: nat)
    ensures forall n :: 0 <= n < SPACE ==> !Covered(data, 0, n)
  {
  }

  lemma {:induction false} HeldNotFree(lo: nat, free: seq<nat>, owner: map<nat, Use>, held: set<nat>, pool: set<nat>, p: nat)
    requires Parts(lo, free, owner, held, pool) && p in held
    ensures p !in free
  {
  }

  /** struct kmap, with the length in place of the physical end. */
  datatype Kmapping = Kmapping(virt: Word, phys: Word, size: Word, perm: nat)

  function Kmap(data: nat, i: nat): Kmapping
    requires i < 4 && 0x100 < data < HI
  {
    if i == 0 then Kmapping(KERNBASE, 0, 0x10_0000, PTE_W)
    else if i == 1 then Kmapping(KERNBASE + 0x10_0000, 0x10_0000, data * PGSIZE - 0x10_0000, 0)
    else if i == 2 then Kmapping(KERNBASE + data * PGSIZE, data * PGSIZE, HI * PGSIZE - data * PGSIZE, PTE_W)
    else Kmapping(DEVICES * PGSIZE, DEVICES * PGSIZE, 0x1_0000_0000 - DEVICES * PGSIZE, PTE_W)
  }

  /** The pages the first i rows of kmap map. */
  predicate Covered(data: nat, i: nat, n: nat) {
    || USER <= n < USER + (if i == 0 then 0 else if i == 1 then 0x100 else if i == 2 then data else HI)
    || (i == 4 && n >= DEVICES)
  }

  lemma {:induction false} KmapRange(data: nat, i: nat)
    requires i < 4 && 0x100 < data < HI
    ensures var k := Kmap(data, i);
            && 0 < k.size && k.virt + k.size <= 0x1_0000_0000 && k.perm < 0x1000 && k.phys % PGSIZE == 0
            && USER <= k.virt / PGSIZE <= (k.virt + k.size - 1) / PGSIZE < SPACE
            && k.phys / PGSIZE + (k.virt + k.size - 1) / PGSIZE - k.virt / PGSIZE < SPACE
            && forall n :: k.virt / PGSIZE <= n <= (k.virt + k.size - 1) / PGSIZE ==> !Covered(data, i, n)
  {
  }

  /** Row i maps what KernelPte says of its pages. */
  lemma {:induction false} KmapPte(data: nat, i: nat, n: nat)
    requires i < 4 && 0x100 < data < HI && n < SPACE
    ensures var k := Kmap(data, i);
            var first, last := k.virt / PGSIZE, (k.virt + k.size - 1) / PGSIZE;
            if first <= n <= last
            then Covered(data, i + 1, n) && KernelPte(data, n) == Entry(k.phys / PGSIZE + n - first, k.perm)
            else Covered(data, i + 1, n) == Covered(data, i, n)
  {
  }

  lemma {:induction false} AllCovered(mem: Mem, data: nat, d: nat)
    requires d < |mem| && 0x100 < data < HI
    requires forall n :: 0 <= n < SPACE ==> Pte(mem, d, n) == if Covered(data, 4, n) then KernelPte(data, n) else 0
    ensures Kernel(mem, data, d) && forall n :: 0 <= n < USER ==> Pte(mem, d, n) == 0
  {
    hide Pte;
  }

  /** Pages in use stay in use, for the same purpose; new uses are all for directory d. */
  ghost predicate Extends(owner: map<nat, Use>, owner': map<nat, Use>, d: nat) {
    && (forall p :: p in owner ==> p in owner' && owner'[p] == owner[p])
    && (forall p :: p in owner' && p !in owner ==> BelongsTo(owner'[p], p, d))
  }

  /** Directory d gained a table at x, if it lacked one, and nothing else. */
  ghost predicate Tabled(mem: Mem, mem': Mem, d: nat, x: nat)
    requires d < |mem| && |mem'| == |mem| && x < ENTRIES
  {
    Present(mem'[d][x]) && forall y :: 0 <= y < ENTRIES && y != x ==> mem'[d][y] == mem[d][y]
  }

  lemma {:induction false} PteAbsent(mem: Mem, d: nat, n: nat)
    requires d < |mem| && n < SPACE
    ensures !Present(mem[d][n / ENTRIES]) ==> Pte(mem, d, n) == 0
    ensures !Present(0)
  {
  }

  lemma {:induction false} PteAt(mem: Mem, dirs: set<nat>, owner: map<nat, Use>, d: nat, n: nat)
    requires Own(mem, dirs, owner) && d in dirs && d < |mem| && n < SPACE && Present(mem[d][n / ENTRIES])
    ensures var t := Frame(mem[d][n / ENTRIES]); t < |mem| && Pte(mem, d, n) == mem[t][n % ENTRIES]
  {
    TableOf(mem, dirs, owner, d, n / ENTRIES);
  }

  /** No page serves two places, and none in use is free or held. */
  lemma {:induction false} NoSharing(lo: nat, mem: Mem, dirs: set<nat>, owner: map<nat, Use>, free: seq<nat>, held: set<nat>,
                                     pool: set<nat>,
                  d: nat, n: nat, e: nat, m: nat)
    requires Own(mem, dirs, owner) && Parts(lo, free, owner, held, pool) && d in dirs && e in dirs && n < USER && m < USER
    requires d < |mem| && e < |mem| && Present(Pte(mem, d, n)) && Present(Pte(mem, e, m))
    ensures Frame(Pte(mem, d, n)) == Frame(Pte(mem, e, m)) ==> d == e && n == m
    ensures Frame(Pte(mem, d, n)) !in free && Frame(Pte(mem, d, n)) !in held && Frame(Pte(mem, d, n)) !in dirs
  {
    hide Pte;
    UserOf(mem, dirs, owner, d, n);
    UserOf(mem, dirs, owner, e, m);
    OwnDirs(mem, dirs, owner);
  }
}
