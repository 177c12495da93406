/** Two runs in which allocuvm's unchecked mappages does harm: a page lost in a call that reports
    success, and user pages that stay mapped above the size and end in a panic. */
module VmRuns {
  import opened DiskWrites
  import opened PageTables
  import opened AddressSpaces
  import opened Vm

  /** No user page is mapped, and there is no table but those of the kernel half. */
  ghost predicate Empty(mem: Mem, d: nat)
    requires d < |mem|
  { NoneMapped(mem, d, 0, USER) && Tables(mem, d) == KernelTables() }

  lemma {:induction false} NoUserTable(x: nat)
    requires x < 512
    ensures x !in KernelTables()
  {
  }

  /** One page without a table needs two. */
  lemma {:induction false} OnePageCost(have: set<nat>, n: nat)
    requires n / ENTRIES !in have
    ensures Need(have, n, n + 1) == 2 && LastNeedsTable(have, n, n + 1)
  {
    assert Need(have + {n / ENTRIES}, n + 1, n + 1) == 0;
  }

  lemma {:induction false} PagesExact(n: nat)
    requires n <= USER
    ensures n * PGSIZE <= KERNBASE && PagesUp(n * PGSIZE) == n
  {
  }

  /** 66 free pages: setupkvm takes 65, and allocuvm takes the last one for a page it cannot map.
      It reports success, the page is not mapped, and the last page is nobody's. */
  method LosesPage(lo: nat, data: nat, mem: Mem) returns (m: Memory, d: nat, r: GrowResult)
    requires 0x100 < data <= lo && lo + 66 <= HI && |mem| == HI
    ensures m.Valid() && d in m.spaces && r == Grown(PGSIZE)
    ensures NoneMapped(m.mem, d, 0, USER) && m.free == [] && |m.held| == 1
  {
    hide Need, Tables, KernelTables, LastNeedsTable, Reached, Fresh, Pte, NoneMapped, WillRemap, SomeLoss, FreeOk, Parts,
         Own, Kernel, PageOf, Addr;
    m := new Memory(lo, data, mem);
    m.FreeRange(lo, lo + 66);
    var v;
    ghost var g;
    v, g := m.SetupKvm();
    d := PageOf(v);
    ghost var m1 := m.mem;
    NewEmpty(m.mem, d);
    NoUserTable(0);
    OnePageCost(KernelTables(), 0);
    PagesExact(1);
    NoRemap(m.mem, d, 0, 1, 1);
    r := m.AllocUvm(d, 0, PGSIZE);
    SameEmpty(m1, m.mem, d, 0);
    LastLost(KernelTables(), 0, 1);
    assert m.held - {} == m.held;
  }

  lemma {:induction false} LastLost(have: set<nat>, s: nat, f: nat)
    requires LastNeedsTable(have, s, s + 1) && f + 1 == Need(have, s, s + 1)
    ensures SomeLoss(have, s, s + 1, f)
  {
    assert Need(have, s, s) == 0 && Need(have + {s / ENTRIES}, s + 1, s + 1) == 0;
    assert LossAt(have, s, s, f);
  }

  lemma {:induction false} NewEmpty(mem: Mem, d: nat)
    requires d < |mem| && Tables(mem, d) == KernelTables() && forall n :: 0 <= n < USER ==> Pte(mem, d, n) == 0
    ensures Empty(mem, d)
  {
    hide Pte;
  }

  lemma {:induction false} NoRemap(mem: Mem, d: nat, s: nat, e: nat, f: nat)
    requires d < |mem| && e <= USER && NoneMapped(mem, d, 0, USER)
    ensures !WillRemap(mem, d, s, e, f)
  {
    hide Pte, Need;
  }

  /** Nothing was mapped and no table was added. */
  lemma {:induction false} SameEmpty(mem: Mem, mem': Mem, d: nat, s: nat)
    requires d < |mem| && |mem'| == |mem| && Fresh(mem, mem', d, s, s)
    ensures NoneMapped(mem, d, 0, USER) ==> NoneMapped(mem', d, 0, USER)
  {
    hide Pte;
  }

  // ------------------------------------------------- pages above the size

  const BASE := 1024     // pages process a starts with: table 0 is full
  const GAP := 2048      // the pages from BASE to GAP are those of table 1, which a never gets
  const SPARE := 2052    // pages process b starts with
  const POOL := 3210     // all pages there are

  /** The user pages of d are those of table 0, and it has no other user table. */
  ghost predicate Low(mem: Mem, d: nat)
    requires d < |mem|
  { MappedBelow(mem, d, BASE) && Tables(mem, d) == KernelTables() + {0} }

  /** Process a has table 0 and no more; b has the pages below k; no page is free. */
  ghost predicate Trading(m: Memory, a: nat, b: nat, k: nat)
    reads m
  {
    && m.Valid() && a in m.dirs && b in m.dirs && a != b && a < |m.mem| && b < |m.mem|
    && Low(m.mem, a) && MappedBelow(m.mem, b, k) && m.free == []
  }

  /** A new process with its first BASE pages. */
  method NewLow(m: Memory) returns (a: nat)
    requires m.Valid() && |m.free| >= 1090
    modifies m`mem, m`freelist, m`free, m`held, m`owner, m`dirs, m`spaces
    ensures m.Valid() && a in m.dirs && a < |m.mem| && |m.mem| == |old(m.mem)|
    ensures Low(m.mem, a) && |m.free| == |old(m.free)| - 1090
  {
    hide Need, Tables, KernelTables, LastNeedsTable, Reached, Fresh, Pte, NoneMapped, WillRemap, SomeLoss, FreeOk, Parts, Own, Kernel,
         PageOf, Addr, OthersSame, SameSpaces, MappedBelow, Empty, DataSame, Low;
    var v;
    ghost var g;
    v, g := m.SetupKvm();
    a := PageOf(v);
    NewEmpty(m.mem, a);
    ghost var m1 := m.mem;
    CopyCost(BASE);
    PagesExact(BASE);
    EmptyRemaps(m.mem, a, 0, BASE, |m.free|);
    var r := m.AllocUvm(a, 0, BASE * PGSIZE);
    FirstTable(m1, m.mem, a);
  }

  lemma {:induction false} FirstTable(mem: Mem, mem': Mem, d: nat)
    requires d < |mem| && |mem'| == |mem| && Empty(mem, d) && Fresh(mem, mem', d, 0, BASE)
    requires Reached(Tables(mem, d), Tables(mem', d), 0, BASE)
    ensures Low(mem', d)
  {
    hide Pte;
    EmptyBelow(mem, d);
    FreshMapped(mem, mem', d, 0, BASE);
    assert Tables(mem', d) == KernelTables() + {0};
  }

  /** Two processes, the second of which takes all the memory that is left. */
  method TwoProcesses(lo: nat, data: nat, mem: Mem) returns (m: Memory, a: nat, b: nat)
    requires 0x100 < data <= lo && lo + POOL <= HI && |mem| == HI
    ensures fresh(m) && Trading(m, a, b, SPARE)
  {
    hide Need, Tables, KernelTables, LastNeedsTable, Reached, Fresh, Pte, NoneMapped, WillRemap, SomeLoss, FreeOk, Parts, Own, Kernel,
         PageOf, Addr, OthersSame, SameSpaces, MappedBelow, Empty, DataSame, Low;
    m := new Memory(lo, data, mem);
    m.FreeRange(lo, lo + POOL);
    a := NewLow(m);
    ghost var m1, d1 := m.mem, m.dirs;
    var v;
    ghost var g;
    v, g := m.SetupKvm();
    b := PageOf(v);
    NewEmpty(m.mem, b);
    StillLow(m1, m.mem, d1, a);
    ghost var m2 := m.mem;
    CopyCost(SPARE);
    PagesExact(SPARE);
    EmptyRemaps(m.mem, b, 0, SPARE, 2055);
    var r := m.AllocUvm(b, 0, SPARE * PGSIZE);
    OthersLow(m2, m.mem, m.dirs, b, a);
    EmptyBelow(m2, b);
    FreshMapped(m2, m.mem, b, 0, SPARE);
  }

  lemma {:induction false} EmptyRemaps(mem: Mem, d: nat, s: nat, e: nat, f: nat)
    requires d < |mem| && e <= USER && Empty(mem, d)
    ensures !WillRemap(mem, d, s, e, f) && Tables(mem, d) == KernelTables()
  {
    NoRemap(mem, d, s, e, f);
  }

  lemma {:induction false} EmptyBelow(mem: Mem, d: nat)
    requires d < |mem| && Empty(mem, d)
    ensures MappedBelow(mem, d, 0)
  {
    hide Pte;
  }

  lemma {:induction false} LowRemaps(mem: Mem, d: nat, s: nat, e: nat, f: nat)
    requires d < |mem| && BASE <= s && e <= USER && Low(mem, d)
    ensures !WillRemap(mem, d, s, e, f) && Tables(mem, d) == KernelTables() + {0}
  {
    hide Pte, Need;
  }

  lemma {:induction false} StillLow(mem: Mem, mem': Mem, dirs: set<nat>, d: nat)
    requires |mem'| == |mem| && d in dirs && (forall e :: e in dirs ==> e < |mem|) && SameSpaces(mem, mem', dirs) && Low(mem, d)
    ensures Low(mem', d)
  {
    hide Pte;
    assert Tables(mem', d) == Tables(mem, d);
  }

  lemma {:induction false} OthersLow(mem: Mem, mem': Mem, dirs: set<nat>, d: nat, e: nat)
    requires |mem'| == |mem| && e in dirs && e != d && (forall x :: x in dirs ==> x < |mem|) && OthersSame(mem, mem', dirs, d)
    requires Low(mem, e)
    ensures Low(mem', e)
  {
    hide Pte;
    assert Tables(mem', e) == Tables(mem, e);
  }

  lemma {:induction false} OthersBelow(mem: Mem, mem': Mem, dirs: set<nat>, d: nat, e: nat, k: nat)
    requires |mem'| == |mem| && e in dirs && e != d && (forall x :: x in dirs ==> x < |mem|) && OthersSame(mem, mem', dirs, d)
    requires MappedBelow(mem, e, k)
    ensures MappedBelow(mem', e, k)
  {
    hide Pte;
  }

  /** b gives back its pages from j on. */
  method GiveUp(m: Memory, b: nat, k: nat, j: nat)
    requires m.Valid() && b in m.dirs && b < |m.mem| && MappedBelow(m.mem, b, k) && j < k <= USER && m.free == []
    modifies m`mem, m`freelist, m`free, m`owner, m`held
    ensures m.Valid() && |m.mem| == |old(m.mem)| && m.held == old(m.held)
    ensures MappedBelow(m.mem, b, j) && |m.free| == k - j && OthersSame(old(m.mem), m.mem, m.dirs, b)
  {
    hide Pte, MappedBelow, Unmapped, Swept, Leftover, NoneMapped, FreeOk, Parts, Own, Kernel, OthersSame, DataSame, Returned,
         Visits;
    PagesExact(k);
    PagesExact(j);
    ghost var m1 := m.mem;
    var sz := m.DeallocUvm(b, k * PGSIZE, j * PGSIZE);
    ShrinkBelow(m1, m.mem, b, k, j, k);
    UnmappedBelow(m1, b, k, j, k, k);
  }

  /** b gives back a page and a loses it: a's size grows, its mapping does not. */
  method Trade(m: Memory, a: nat, b: nat, k: nat, i: nat) returns (r: GrowResult)
    requires Trading(m, a, b, k) && 0 < k <= USER && BASE <= i < GAP
    modifies m`mem, m`freelist, m`free, m`owner, m`held
    ensures Trading(m, a, b, k - 1) && r == Grown((i + 1) * PGSIZE) && |m.mem| == |old(m.mem)|
  {
    hide Need, Tables, KernelTables, LastNeedsTable, Reached, Fresh, Pte, NoneMapped, WillRemap, SomeLoss, FreeOk, Parts, Own, Kernel,
         OthersSame, MappedBelow, Low, DataSame;
    ghost var m0 := m.mem;
    GiveUp(m, b, k, k - 1);
    OthersLow(m0, m.mem, m.dirs, b, a);
    ghost var m1 := m.mem;
    PagesExact(i);
    PagesExact(i + 1);
    NoUserTable(i / ENTRIES);
    OnePageCost(KernelTables() + {0}, i);
    LowRemaps(m.mem, a, i, i + 1, 1);
    r := m.AllocUvm(a, i * PGSIZE, (i + 1) * PGSIZE);
    NothingNew(m1, m.mem, a, i);
    OthersBelow(m1, m.mem, m.dirs, a, b, k - 1);
  }

  lemma {:induction false} NothingNew(mem: Mem, mem': Mem, d: nat, s: nat)
    requires d < |mem| && |mem'| == |mem| && Low(mem, d) && Fresh(mem, mem', d, s, s)
    requires Reached(Tables(mem, d), Tables(mem', d), s, s)
    ensures Low(mem', d)
  {
    hide Pte;
    assert Tables(mem', d) == Tables(mem, d);
  }

  /** The user pages of a are those of table 0 and the first five of table 2, and it has no table 1. */
  ghost predicate Stranded(mem: Mem, a: nat)
    requires a < |mem|
  {
    && (forall n :: 0 <= n < USER ==> (Present(Pte(mem, a, n)) <==> n < BASE || GAP <= n < GAP + 5))
    && Tables(mem, a) == KernelTables() + {0, 2}
  }

  /** a, of size GAP pages and without a table 1, grows by five pages. */
  method GrowFive(m: Memory, a: nat, b: nat, k: nat) returns (r: GrowResult)
    requires Trading(m, a, b, k) && 6 < k <= USER
    modifies m`mem, m`freelist, m`free, m`owner, m`held
    ensures m.Valid() && |m.mem| == |old(m.mem)| && r == Grown((GAP + 5) * PGSIZE)
    ensures Stranded(m.mem, a) && MappedBelow(m.mem, b, k - 6) && m.free == []
  {
    hide Need, Tables, KernelTables, LastNeedsTable, Reached, Fresh, Pte, NoneMapped, WillRemap, SomeLoss, FreeOk, Parts, Own, Kernel,
         OthersSame, MappedBelow, Low, DataSame, Stranded;
    ghost var m0 := m.mem;
    GiveUp(m, b, k, k - 6);
    OthersLow(m0, m.mem, m.dirs, b, a);
    ghost var m1 := m.mem;
    PagesExact(GAP);
    PagesExact(GAP + 5);
    NeedFive();
    LowRemaps(m.mem, a, GAP, GAP + 5, 6);
    r := m.AllocUvm(a, GAP * PGSIZE, (GAP + 5) * PGSIZE);
    FiveMapped(m1, m.mem, a);
    OthersBelow(m1, m.mem, m.dirs, a, b, k - 6);
  }

  lemma {:induction false} NeedFive()
    ensures Need(KernelTables() + {0}, GAP, GAP + 5) == 6
  {
    NeedFresh(KernelTables() + {0}, GAP, GAP + 5);
  }

  lemma {:induction false} FiveMapped(mem: Mem, mem': Mem, d: nat)
    requires d < |mem| && |mem'| == |mem| && Low(mem, d) && Fresh(mem, mem', d, GAP, GAP + 5)
    requires Reached(Tables(mem, d), Tables(mem', d), GAP, GAP + 5)
    ensures Stranded(mem', d)
  {
    hide Pte;
    assert Tables(mem', d) == KernelTables() + {0, 2};
    forall x | GAP <= x < GAP + 5 ensures Present(Pte(mem', d, x)) {
      FlagsPresent(Pte(mem', d, x), PTE_U + PTE_W + 1);
    }
  }

  /** a shrinks to five pages above BASE. The walk starts in the missing table 1 and jumps over all
      five pages of table 2, which stay mapped. */
  method ShrinkToFive(m: Memory, a: nat) returns (sz: Word)
    requires m.Valid() && a in m.dirs && a < |m.mem| && Stranded(m.mem, a) && m.free == []
    modifies m`mem, m`freelist, m`free, m`owner, m`held
    ensures m.Valid() && |m.mem| == |old(m.mem)| && sz == (BASE + 5) * PGSIZE && Stranded(m.mem, a)
    ensures OthersSame(old(m.mem), m.mem, m.dirs, a) && m.free == []
  {
    hide Pte, Unmapped, Swept, Leftover, NoneMapped, FreeOk, Parts, Own, Kernel, OthersSame, DataSame, Returned, Visits, Stranded;
    PagesExact(GAP + 5);
    PagesExact(BASE + 5);
    ghost var m1 := m.mem;
    sz := m.DeallocUvm(a, (GAP + 5) * PGSIZE, (BASE + 5) * PGSIZE);
    AllSkipped(m1, m.mem, a);
  }

  lemma {:induction false} AllSkipped(mem: Mem, mem': Mem, a: nat)
    requires a < |mem| && |mem'| == |mem| && mem'[a] == mem[a] && Stranded(mem, a)
    requires Swept(mem, mem', a, BASE + 5, GAP + 5, GAP + 5)
    ensures Stranded(mem', a) && Unmapped(mem, a, BASE + 5, GAP + 5, GAP + 5) == 0
  {
    hide Pte, Visits;
    NoUserTable(1);
    assert 1 !in Tables(mem, a);
    assert !Present(mem[a][1]);
    assert 2 in Tables(mem, a);
    forall n | BASE + 5 <= n < GAP + 5 ensures !Visits(mem[a], BASE + 5, n) || !Present(Pte(mem, a, n)) {
      if n >= GAP {
        assert n / ENTRIES == 2 && n % ENTRIES < 5;
        VisitsExactly(mem[a], BASE + 5, n);
      }
    }
    UnmappedSkip(mem, a, BASE + 5, BASE + 5, GAP + 5, GAP + 5);
    assert Tables(mem', a) == Tables(mem, a);
  }

  /** From POOL free pages to pages mapped above the size. a's calls, as growproc makes them: one
      page at a time up to GAP pages, five pages more, then down to BASE + 5. Five pages below the
      size are not mapped and the five from GAP on, far above it, are. */
  method StrandsPages(lo: nat, data: nat, mem: Mem) returns (m: Memory, a: nat, b: nat, sz: Word)
    requires 0x100 < data <= lo && lo + POOL <= HI && |mem| == HI
    ensures fresh(m) && m.Valid() && a in m.dirs && b in m.dirs && a != b && a < |m.mem| && b < |m.mem|
    ensures sz == (BASE + 5) * PGSIZE && Stranded(m.mem, a) && MappedBelow(m.mem, b, 1022) && m.free == []
  {
    hide Need, Tables, KernelTables, LastNeedsTable, Reached, Pte, NoneMapped, WillRemap, SomeLoss, FreeOk, Parts, Own, Kernel,
         OthersSame, MappedBelow, Low, DataSame, Stranded;
    m, a, b := TwoProcesses(lo, data, mem);
    for i := BASE to GAP
      invariant Trading(m, a, b, SPARE + BASE - i)
    {
      var lost := Trade(m, a, b, SPARE + BASE - i, i);
    }
    var grown := GrowFive(m, a, b, 1028);
    ghost var m1 := m.mem;
    sz := ShrinkToFive(m, a);
    OthersBelow(m1, m.mem, m.dirs, a, b, 1022);
  }

  /** The run goes on: b gives back all its pages but one, a grows to GAP + 1 pages, and mappages
      meets the first stranded page and panics. */
  method StrandedPanics(lo: nat, data: nat, mem: Mem) returns (r: GrowResult)
    requires 0x100 < data <= lo && lo + POOL <= HI && |mem| == HI
    ensures r == GrowPanic
  {
    hide Need, Tables, KernelTables, LastNeedsTable, Reached, Pte, NoneMapped, WillRemap, SomeLoss, FreeOk, Parts, Own, Kernel,
         OthersSame, MappedBelow, DataSame, Stranded;
    var m, a, b, sz := StrandsPages(lo, data, mem);
    ghost var m1 := m.mem;
    GiveUp(m, b, 1022, 1);
    StillStranded(m1, m.mem, m.dirs, b, a);
    PagesExact(BASE + 5);
    PagesExact(GAP + 1);
    MeetsMapped(m.mem, a, 1021);
    r := m.AllocUvm(a, sz, (GAP + 1) * PGSIZE);
  }

  lemma {:induction false} StillStranded(mem: Mem, mem': Mem, dirs: set<nat>, d: nat, e: nat)
    requires |mem'| == |mem| && e in dirs && e != d && (forall x :: x in dirs ==> x < |mem|) && OthersSame(mem, mem', dirs, d)
    requires Stranded(mem, e)
    ensures Stranded(mem', e)
  {
    hide Pte;
    assert Tables(mem', e) == Tables(mem, e);
  }

  lemma {:induction false} MeetsMapped(mem: Mem, a: nat, f: nat)
    requires a < |mem| && Stranded(mem, a) && f >= 1021
    ensures WillRemap(mem, a, BASE + 5, GAP + 1, f)
  {
    hide Pte;
    NeedGap();
    assert FirstMapped(mem, a, BASE + 5, GAP);
  }

  /** 1019 pages and a table. */
  lemma {:induction false} NeedGap()
    ensures Need(KernelTables() + {0, 2}, BASE + 5, GAP) == 1020
  {
    var have := KernelTables() + {0, 2};
    NoUserTable(1);
    assert (BASE + 5) / ENTRIES == 1 && 1 !in have;
    NeedFresh(have + {1}, BASE + 6, GAP);
  }
}
