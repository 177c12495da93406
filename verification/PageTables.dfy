/** Two-level page tables held in physical pages, and who owns each page.

    Entries have the format of section 4.3 (32-bit paging) of the Intel SDM, volume 3A:
    the page frame in the upper 20 bits, flags in the lower 12, bit 0 meaning present. */
module PageTables {
  import opened DiskWrites

  const ENTRIES := 1024        // NPDENTRIES and NPTENTRIES
  const USER := 0x80000        // KERNBASE / PGSIZE: user pages lie below
  const SPACE := 0x100000      // pages in an address space
  const PTE_W := 2
  const PTE_U := 4

  /** A physical page, as 1024 words. */
  type Page = p: seq<Word> | |p| == ENTRIES witness seq(ENTRIES, i => 0)
  type Mem = seq<Page>

  function ZeroPage(): Page { seq(ENTRIES, i => 0) }

  predicate Present(e: Word) { e % 2 == 1 }

  predicate Writable(e: Word) { e / PTE_W % 2 == 1 }

  predicate UserSees(e: Word) { e / PTE_U % 2 == 1 }

  /** A directory entry that leaves the decision to the table entry. */
  predicate Generous(e: Word) { Writable(e) && UserSees(e) }

  function Frame(e: Word): nat { e / 0x1000 }

  /** pa | perm | PTE_P */
  function Entry(p: nat, perm: nat): (e: Word)
    requires p < SPACE && perm < 0x1000
    ensures Present(e) && Frame(e) == p
  { p * 0x1000 + perm / 2 * 2 + 1 }

  /** The table entry for page n of directory d; 0 where the directory has no table. */
  function Pte(mem: Mem, d: nat, n: nat): Word
    requires d < |mem| && n < SPACE
  {
    if Present(mem[d][n / ENTRIES]) && Frame(mem[d][n / ENTRIES]) < |mem|
    then mem[Frame(mem[d][n / ENTRIES])][n % ENTRIES] else 0
  }

  /** What a page is used for. */
  datatype Use = Dir | Table(d: nat, x: nat) | User(d: nat, n: nat)

  /** Every directory, table and user page has exactly one place that refers to it. */
  ghost predicate Own(mem: Mem, dirs: set<nat>, owner: map<nat, Use>) {
    && (forall d :: d in dirs ==> d < |mem| && d in owner && owner[d] == Dir)
    && (forall d, x :: d in dirs && 0 <= x < ENTRIES && Present(mem[d][x]) ==>
          Frame(mem[d][x]) in owner && owner[Frame(mem[d][x])] == Table(d, x))
    && (forall d, n :: d in dirs && 0 <= n < USER && Present(Pte(mem, d, n)) ==>
          Frame(Pte(mem, d, n)) in owner && owner[Frame(Pte(mem, d, n))] == User(d, n))
    && (forall p :: p in owner ==> p < |mem| && Placed(mem, dirs, owner[p], p))
  }

  /** Page p is where its use says. */
  ghost predicate Placed(mem: Mem, dirs: set<nat>, u: Use, p: nat)
    requires forall d :: d in dirs ==> d < |mem|
  {
    match u
    case Dir => p in dirs
    case Table(d, x) => d in dirs && x < ENTRIES && Present(mem[d][x]) && Frame(mem[d][x]) == p && Generous(mem[d][x])
    case User(d, n) => d in dirs && n < USER && Present(Pte(mem, d, n)) && Frame(Pte(mem, d, n)) == p
  }

  /** Directories and translations are as they were. */
  ghost predicate SameSpaces(mem: Mem, mem': Mem, dirs: set<nat>)
    requires |mem'| == |mem| && forall d :: d in dirs ==> d < |mem|
  {
    && (forall d :: d in dirs ==> mem'[d] == mem[d])
    && (forall d, n :: d in dirs && 0 <= n < SPACE ==> Pte(mem', d, n) == Pte(mem, d, n))
  }

  lemma {:induction false} OwnDirs(mem: Mem, dirs: set<nat>, owner: map<nat, Use>)
    requires Own(mem, dirs, owner)
    ensures forall d :: d in dirs ==> d < |mem| && d in owner && owner[d] == Dir
    ensures forall p :: p in owner ==> p < |mem|
  {
  }

  /** Own depends on the directories and translations only. */
  lemma {:induction false} SameSpacesOwn(mem: Mem, mem': Mem, dirs: set<nat>, owner: map<nat, Use>)
    requires Own(mem, dirs, owner) && |mem'| == |mem| && SameSpaces(mem, mem', dirs)
    ensures Own(mem', dirs, owner)
  {
    hide Pte;
  }

  /** The table behind a directory entry. */
  lemma {:induction false} TableOf(mem: Mem, dirs: set<nat>, owner: map<nat, Use>, d: nat, x: nat)
    requires Own(mem, dirs, owner) && d in dirs && x < ENTRIES && Present(mem[d][x])
    ensures Frame(mem[d][x]) < |mem| && Frame(mem[d][x]) in owner && owner[Frame(mem[d][x])] == Table(d, x)
  {
  }

  /** The hardware lets an access pass that both the directory entry and the table entry allow. In an
      address space of the kernel the table entry alone decides. */
  lemma {:induction false} TableEntryDecides(mem: Mem, dirs: set<nat>, owner: map<nat, Use>, d: nat, n: nat)
    requires Own(mem, dirs, owner) && d in dirs && n < SPACE
    ensures var dir, e := mem[d][n / ENTRIES], Pte(mem, d, n);
      && (Present(e) ==> Present(dir) && Frame(dir) < |mem| && e == mem[Frame(dir)][n % ENTRIES])
      && (Present(dir) && Present(e) && Writable(dir) && Writable(e) <==> Present(e) && Writable(e))
      && (Present(dir) && Present(e) && UserSees(dir) && UserSees(e) <==> Present(e) && UserSees(e))
  {
    var dir := mem[d][n / ENTRIES];
    if Present(dir) {
      TableOf(mem, dirs, owner, d, n / ENTRIES);
      assert Placed(mem, dirs, owner[Frame(dir)], Frame(dir));
    }
  }

  /** A page that is neither directory nor table may be overwritten. */
  lemma {:induction false} WriteData(mem: Mem, dirs: set<nat>, owner: map<nat, Use>, p: nat, c: Page)
    requires Own(mem, dirs, owner) && p < |mem| && (p in owner ==> owner[p].User?)
    ensures SameSpaces(mem, mem[p := c], dirs) && Own(mem[p := c], dirs, owner)
  {
    forall d, n | d in dirs && 0 <= n < SPACE ensures Pte(mem[p := c], d, n) == Pte(mem, d, n) {
      if Present(mem[d][n / ENTRIES]) { TableOf(mem, dirs, owner, d, n / ENTRIES); }
    }
    SameSpacesOwn(mem, mem[p := c], dirs, owner);
  }

  /** A zeroed page becomes the table of an empty directory entry: no translation changes. */
  lemma {:induction false} LinkTable(mem: Mem, dirs: set<nat>, owner: map<nat, Use>, d: nat, x: nat, p: nat)
    requires Own(mem, dirs, owner) && d in dirs && x < ENTRIES && !Present(mem[d][x])
    requires p < |mem| && p < SPACE && p !in owner && mem[p] == ZeroPage()
    ensures var mem' := mem[d := mem[d][x := Entry(p, PTE_W + PTE_U)]];
            && Own(mem', dirs, owner[p := Table(d, x)])
            && (forall e, n :: e in dirs && 0 <= n < SPACE ==> Pte(mem', e, n) == Pte(mem, e, n))
  {
    var mem' := mem[d := mem[d][x := Entry(p, PTE_W + PTE_U)]];
    forall e, n | e in dirs && 0 <= n < SPACE ensures Pte(mem', e, n) == Pte(mem, e, n) {
      if Present(mem[e][n / ENTRIES]) { TableOf(mem, dirs, owner, e, n / ENTRIES); }
    }
    hide Pte;
    LinkedOwn(mem, mem', dirs, owner, d, x, p);
  }

  lemma {:induction false} Quotient(x: nat, y: nat, a: nat, n: nat)
    requires n == 2 || n == 4
    requires x == n * y + a && a < n
    ensures x / n == y && x % n == a
  {
  }

  /** Bits 1 and 2 of an entry. */
  lemma {:induction false} LowBits(e: nat, q: nat, user: nat, write: nat)
    requires e == 8 * q + 4 * user + 2 * write + 1 && user < 2 && write < 2
    ensures e / 2 % 2 == write && e / 4 % 2 == user
  {
    Quotient(e, 4 * q + 2 * user + write, 1, 2);
    Quotient(4 * q + 2 * user + write, 2 * q + user, write, 2);
    Quotient(e, 2 * q + user, 2 * write + 1, 4);
    Quotient(2 * q + user, q, user, 2);
  }

  lemma {:induction false} EntryGenerous(p: nat)
    requires p < SPACE
    ensures Generous(Entry(p, PTE_W + PTE_U))
  {
    hide Present, Frame;
    LowBits(Entry(p, PTE_W + PTE_U), p * 0x200, 1, 1);
  }

  lemma {:induction false} EntryKernel(p: nat)
    requires p < SPACE
    ensures !UserSees(Entry(p, 0)) && !Writable(Entry(p, 0)) && !UserSees(Entry(p, PTE_W)) && Writable(Entry(p, PTE_W))
  {
    hide Present, Frame;
    LowBits(Entry(p, 0), p * 0x200, 0, 0);
    LowBits(Entry(p, PTE_W), p * 0x200, 0, 1);
  }

  lemma {:induction false} LinkedOwn(mem: Mem, mem': Mem, dirs: set<nat>, owner: map<nat, Use>, d: nat, x: nat, p: nat)
    requires Own(mem, dirs, owner) && d in dirs && x < ENTRIES && !Present(mem[d][x]) && p < |mem| && p < SPACE && p !in owner
    requires mem' == mem[d := mem[d][x := Entry(p, PTE_W + PTE_U)]]
    requires forall e, n :: e in dirs && 0 <= n < SPACE ==> Pte(mem', e, n) == Pte(mem, e, n)
    ensures Own(mem', dirs, owner[p := Table(d, x)])
  {
    hide Pte, Entry, Generous;
    EntryGenerous(p);
    var owner' := owner[p := Table(d, x)];
    forall q | q in owner' ensures q < |mem'| && Placed(mem', dirs, owner'[q], q) {
      if q != p { assert Placed(mem, dirs, owner[q], q); }
    }
  }

  /** Storing a table entry changes that one translation. */
  lemma {:induction false} PutPte(mem: Mem, dirs: set<nat>, owner: map<nat, Use>, d: nat, n: nat, w: Word)
    requires Own(mem, dirs, owner) && d in dirs && n < SPACE && Present(mem[d][n / ENTRIES])
    ensures var t := Frame(mem[d][n / ENTRIES]);
            && t < |mem|
            && var mem' := mem[t := mem[t][n % ENTRIES := w]];
               && (forall e :: e in dirs ==> mem'[e] == mem[e])
               && (forall e, m :: e in dirs && 0 <= m < SPACE ==>
                     Pte(mem', e, m) == if e == d && m == n then w else Pte(mem, e, m))
  {
    var t := Frame(mem[d][n / ENTRIES]);
    TableOf(mem, dirs, owner, d, n / ENTRIES);
    var mem' := mem[t := mem[t][n % ENTRIES := w]];
    forall e, m | e in dirs && 0 <= m < SPACE
      ensures Pte(mem', e, m) == if e == d && m == n then w else Pte(mem, e, m)
    {
      if Present(mem[e][m / ENTRIES]) { TableOf(mem, dirs, owner, e, m / ENTRIES); }
    }
  }

  /** Only translation (d, n) changed, to w. */
  ghost predicate OnePte(mem: Mem, mem': Mem, dirs: set<nat>, d: nat, n: nat, w: Word)
    requires |mem'| == |mem| && forall e :: e in dirs ==> e < |mem|
  {
    && (forall e :: e in dirs ==> mem'[e] == mem[e])
    && (forall e, m :: e in dirs && 0 <= m < SPACE ==>
          Pte(mem', e, m) == if e == d && m == n then w else Pte(mem, e, m))
  }

  /** A new user page finds its place. */
  lemma {:induction false} MapUser(mem: Mem, mem': Mem, dirs: set<nat>, owner: map<nat, Use>, d: nat, n: nat, w: Word)
    requires Own(mem, dirs, owner) && d in dirs && n < USER && !Present(Pte(mem, d, n))
    requires |mem'| == |mem| && OnePte(mem, mem', dirs, d, n, w)
    requires Present(w) && Frame(w) < |mem| && Frame(w) !in owner
    ensures Own(mem', dirs, owner[Frame(w) := User(d, n)])
  {
    hide Pte;
    var owner' := owner[Frame(w) := User(d, n)];
    forall q | q in owner' ensures q < |mem'| && Placed(mem', dirs, owner'[q], q) {
      if q != Frame(w) { assert Placed(mem, dirs, owner[q], q); }
    }
  }

  /** A cleared entry gives up its page. */
  lemma {:induction false} UnmapUser(mem: Mem, mem': Mem, dirs: set<nat>, owner: map<nat, Use>, d: nat, n: nat)
    requires Own(mem, dirs, owner) && d in dirs && n < USER && Present(Pte(mem, d, n))
    requires |mem'| == |mem| && OnePte(mem, mem', dirs, d, n, 0)
    ensures Frame(Pte(mem, d, n)) in owner && owner[Frame(Pte(mem, d, n))] == User(d, n)
    ensures Own(mem', dirs, owner - {Frame(Pte(mem, d, n))})
  {
    hide Pte;
    var p := Frame(Pte(mem, d, n));
    var owner' := owner - {p};
    forall q | q in owner' ensures q < |mem'| && Placed(mem', dirs, owner'[q], q) {
      assert Placed(mem, dirs, owner[q], q);
    }
  }

  /** Kernel translations name no owned page. */
  lemma {:induction false} MapKernel(mem: Mem, mem': Mem, dirs: set<nat>, owner: map<nat, Use>, d: nat, n: nat, w: Word)
    requires Own(mem, dirs, owner) && d in dirs && USER <= n < SPACE
    requires |mem'| == |mem| && OnePte(mem, mem', dirs, d, n, w)
    ensures Own(mem', dirs, owner)
  {
    hide Pte;
    forall q | q in owner ensures q < |mem'| && Placed(mem', dirs, owner[q], q) {
      assert Placed(mem, dirs, owner[q], q);
    }
  }

  /** A zeroed page becomes a directory with no translations. */
  lemma {:induction false} NewDir(mem: Mem, dirs: set<nat>, owner: map<nat, Use>, p: nat)
    requires Own(mem, dirs, owner) && p < |mem| && p !in owner && mem[p] == ZeroPage()
    ensures Own(mem, dirs + {p}, owner[p := Dir])
    ensures forall n :: 0 <= n < SPACE ==> Pte(mem, p, n) == 0
  {
    assert forall n :: 0 <= n < SPACE ==> Pte(mem, p, n) == 0;
    hide Pte;
    var owner' := owner[p := Dir];
    forall q | q in owner' ensures q < |mem| && Placed(mem, dirs + {p}, owner'[q], q) {
      if q != p { assert Placed(mem, dirs, owner[q], q); }
    }
  }

  predicate BelongsTo(u: Use, p: nat, d: nat) {
    match u case Dir => p == d case Table(e, _) => e == d case User(e, _) => e == d
  }

  /** The pages of every directory but d. */
  ghost function Others(owner: map<nat, Use>, d: nat): map<nat, Use> {
    map p | p in owner && !BelongsTo(owner[p], p, d) :: owner[p]
  }

  /** Dropping directory d with all its pages leaves the others intact, whatever became of those pages. */
  lemma {:induction false} DropDir(mem: Mem, mem': Mem, dirs: set<nat>, owner: map<nat, Use>, d: nat)
    requires Own(mem, dirs, owner) && d in dirs && |mem'| == |mem|
    requires forall p :: p in Others(owner, d) ==> mem'[p] == mem[p]
    ensures Own(mem', dirs - {d}, Others(owner, d))
    ensures forall e, n :: e in dirs && e != d && 0 <= n < SPACE ==> Pte(mem', e, n) == Pte(mem, e, n)
  {
    forall e, n | e in dirs && e != d && 0 <= n < SPACE ensures Pte(mem', e, n) == Pte(mem, e, n) {
      assert e in Others(owner, d);
      if Present(mem[e][n / ENTRIES]) { TableOf(mem, dirs, owner, e, n / ENTRIES); }
    }
    hide Pte;
    DroppedOwn(mem, mem', dirs, owner, d);
  }

  lemma {:induction false} DroppedOwn(mem: Mem, mem': Mem, dirs: set<nat>, owner: map<nat, Use>, d: nat)
    requires Own(mem, dirs, owner) && d in dirs && |mem'| == |mem|
    requires forall p :: p in Others(owner, d) ==> mem'[p] == mem[p]
    requires forall e, n :: e in dirs && e != d && 0 <= n < SPACE ==> Pte(mem', e, n) == Pte(mem, e, n)
    ensures Own(mem', dirs - {d}, Others(owner, d))
  {
    hide Pte, Generous;
    var o, rest := Others(owner, d), dirs - {d};
    forall e | e in rest ensures e in o && mem'[e] == mem[e] { }
    forall q | q in o ensures q < |mem'| && Placed(mem', rest, o[q], q) {
      assert Placed(mem, dirs, owner[q], q);
    }
  }
}
