/** The free list of umalloc.c as a sequence of blocks in address order.
    Addresses and sizes are in Header units (8 bytes). The first block is `base`,
    the static header of size 0 below the heap. */
module FreeList {

  datatype Blk = Blk(addr: nat, size: nat) {
    function End(): nat { addr + size }
  }

  /** In address order, and no two blocks touch. */
  ghost predicate Apart(bs: seq<Blk>) {
    forall i, j :: 0 <= i < j < |bs| ==> bs[i].End() < bs[j].addr
  }

  /** base first, and every other block non-empty. */
  ghost predicate IsFreeList(bs: seq<Blk>, base: nat) {
    && |bs| > 0 && bs[0] == Blk(base, 0)
    && (forall i :: 0 < i < |bs| ==> bs[i].size > 0)
    && Apart(bs)
  }

  function Units(bs: seq<Blk>): nat {
    if bs == [] then 0 else Units(bs[..|bs|-1]) + bs[|bs|-1].size
  }

  lemma {:induction false} UnitsConcat(a: seq<Blk>, b: seq<Blk>)
    ensures Units(a + b) == Units(a) + Units(b)
  {
    if b == [] {
      assert a + b == a;
    } else {
      UnitsConcat(a, b[..|b|-1]);
      assert (a + b)[..|a + b|-1] == a + b[..|b|-1];
    }
  }

  lemma {:induction false} UnitsOne(b: Blk)
    ensures Units([b]) == b.size
  {
    assert [b][..0] == [];
  }

  /** The list index after k, going round. */
  function After(bs: seq<Blk>, k: nat): nat
    requires k < |bs|
  { if k == |bs| - 1 then 0 else k + 1 }

  /** Block b lies strictly between neighbours c and c+1 (or past the last one). */
  ghost predicate FitsAt(bs: seq<Blk>, c: nat, b: Blk) {
    && c < |bs| && b.size > 0
    && bs[c].addr < b.addr && bs[c].End() <= b.addr
    && (c + 1 < |bs| ==> b.End() <= bs[c+1].addr)
  }

  /** b after absorbing the block it touches above. */
  function Grown(bs: seq<Blk>, c: nat, b: Blk): Blk
    requires c < |bs|
  { if c + 1 < |bs| && b.End() == bs[c+1].addr then Blk(b.addr, b.size + bs[c+1].size) else b }

  function Tail(bs: seq<Blk>, c: nat, b: Blk): seq<Blk>
    requires c < |bs|
  { if c + 1 < |bs| && b.End() == bs[c+1].addr then bs[c+2..] else bs[c+1..] }

  /** The list with b inserted after c and merged with whatever it touches. */
  function Merge(bs: seq<Blk>, c: nat, b: Blk): (r: seq<Blk>)
    requires c < |bs|
  {
    var g := Grown(bs, c, b);
    if bs[c].End() == b.addr then bs[..c] + [Blk(bs[c].addr, bs[c].size + g.size)] + Tail(bs, c, b)
    else bs[..c+1] + [g] + Tail(bs, c, b)
  }

  lemma {:induction false} TailKeeps(bs: seq<Blk>, base: nat, c: nat, b: Blk)
    requires IsFreeList(bs, base) && FitsAt(bs, c, b)
    ensures Apart(Tail(bs, c, b)) && Grown(bs, c, b).addr == b.addr && Grown(bs, c, b).size > 0
    ensures forall i :: 0 <= i < |Tail(bs, c, b)| ==>
              Grown(bs, c, b).End() < Tail(bs, c, b)[i].addr && Tail(bs, c, b)[i].size > 0
  {
    var k := if c + 1 < |bs| && b.End() == bs[c+1].addr then c + 2 else c + 1;
    DropApart(bs, k);
    forall i | 0 <= i < |bs[k..]| ensures Grown(bs, c, b).End() < bs[k..][i].addr && bs[k..][i].size > 0 {
      assert bs[k..][i] == bs[k+i];
    }
  }

  lemma {:induction false} DropApart(bs: seq<Blk>, k: nat)
    requires Apart(bs) && k <= |bs|
    ensures Apart(bs[k..])
  {
    forall i, j | 0 <= i < j < |bs[k..]| ensures bs[k..][i].End() < bs[k..][j].addr {
      assert bs[k+i].End() < bs[k+j].addr;
    }
  }

  lemma {:induction false} MergeKeeps(bs: seq<Blk>, base: nat, c: nat, b: Blk)
    requires IsFreeList(bs, base) && FitsAt(bs, c, b)
    ensures IsFreeList(Merge(bs, c, b), base)
  {
    hide Apart, Tail;
    TailKeeps(bs, base, c, b);
    if bs[c].End() == b.addr {
      TakeKeeps(bs, base, c);
      Rebuilt(bs[..c], base, Blk(bs[c].addr, bs[c].size + Grown(bs, c, b).size), Tail(bs, c, b));
    } else {
      TakeKeeps(bs, base, c + 1);
      Rebuilt(bs[..c+1], base, Grown(bs, c, b), Tail(bs, c, b));
    }
  }

  lemma {:induction false} TakeKeeps(bs: seq<Blk>, base: nat, k: nat)
    requires IsFreeList(bs, base) && 0 < k <= |bs|
    ensures IsFreeList(bs[..k], base)
    ensures forall i :: 0 <= i < k ==> bs[i].End() <= bs[k-1].End()
    ensures forall i :: 0 <= i < k - 1 ==> bs[i].End() < bs[k-1].addr
    ensures forall i :: 0 <= i < k && k < |bs| ==> bs[i].End() < bs[k].addr
  {
  }

  lemma {:induction false} Rebuilt(a: seq<Blk>, base: nat, m: Blk, t: seq<Blk>)
    requires IsFreeList(a, base) && Apart(t) && m.size > 0
    requires forall i :: 0 <= i < |a| ==> a[i].End() < m.addr
    requires forall i :: 0 <= i < |t| ==> m.End() < t[i].addr && t[i].size > 0
    ensures IsFreeList(a + [m] + t, base)
  {
    ApartGlue(a, m, t);
  }

  lemma {:induction false} ApartGlue(a: seq<Blk>, m: Blk, t: seq<Blk>)
    requires Apart(a) && Apart(t)
    requires forall i :: 0 <= i < |a| ==> a[i].End() < m.addr
    requires forall i :: 0 <= i < |t| ==> m.End() < t[i].addr
    ensures Apart(a + [m] + t)
  {
    var r := a + [m] + t;
    forall i, j | 0 <= i < j < |r| ensures r[i].End() < r[j].addr {
      if i < |a| && j > |a| { assert r[j] == t[j-|a|-1]; }
    }
  }

  /** Freeing adds exactly the units of the freed block. */
  lemma {:induction false} MergeUnits(bs: seq<Blk>, base: nat, c: nat, b: Blk)
    requires IsFreeList(bs, base) && FitsAt(bs, c, b)
    ensures Units(Merge(bs, c, b)) == Units(bs) + b.size
  {
    hide Units, IsFreeList;
    var g := Grown(bs, c, b);
    var t := Tail(bs, c, b);
    TailUnits(bs, c, b);
    SplitUnits(bs, c);
    if bs[c].End() == b.addr {
      var m := Blk(bs[c].addr, bs[c].size + g.size);
      UnitsConcat(bs[..c] + [m], t);
      UnitsConcat(bs[..c], [m]);
      UnitsOne(m);
    } else {
      UnitsConcat(bs[..c+1] + [g], t);
      UnitsConcat(bs[..c+1], [g]);
      UnitsOne(g);
    }
  }

  lemma {:induction false} SplitUnits(bs: seq<Blk>, c: nat)
    requires c < |bs|
    ensures Units(bs) == Units(bs[..c+1]) + Units(bs[c+1..])
    ensures Units(bs[..c+1]) == Units(bs[..c]) + bs[c].size
  {
    assert bs[..c+1] + bs[c+1..] == bs;
    UnitsConcat(bs[..c+1], bs[c+1..]);
    assert bs[..c] + [bs[c]] == bs[..c+1];
    UnitsConcat(bs[..c], [bs[c]]);
    UnitsOne(bs[c]);
  }

  lemma {:induction false} TailUnits(bs: seq<Blk>, c: nat, b: Blk)
    requires c < |bs|
    ensures Grown(bs, c, b).size + Units(Tail(bs, c, b)) == b.size + Units(bs[c+1..])
  {
    if c + 1 < |bs| && b.End() == bs[c+1].addr {
      assert bs[c+1..] == [bs[c+1]] + bs[c+2..];
      UnitsConcat([bs[c+1]], bs[c+2..]);
      UnitsOne(bs[c+1]);
    }
  }

  /** Where block b belongs: the last list entry below it. */
  lemma {:induction false} FindGap(bs: seq<Blk>, base: nat, b: Blk) returns (c: nat)
    requires IsFreeList(bs, base) && b.size > 0 && base < b.addr && Clear(bs, b)
    ensures FitsAt(bs, c, b)
    ensures forall i :: 0 <= i <= c ==> bs[i].addr < b.addr
    ensures forall i :: c < i < |bs| ==> b.addr < bs[i].addr
  {
    c := 0;
    while c + 1 < |bs| && bs[c+1].addr < b.addr
      invariant c < |bs| && forall i :: 0 <= i <= c ==> bs[i].addr < b.addr
    {
      c := c + 1;
    }
  }

  /** Block b overlaps no block of the list. */
  ghost predicate Clear(bs: seq<Blk>, b: Blk) {
    forall i :: 0 <= i < |bs| ==> Disjoint(bs[i], b)
  }

  predicate Disjoint(a: Blk, b: Blk) { a.End() <= b.addr || b.End() <= a.addr }

  lemma {:induction false} MergeClear(bs: seq<Blk>, base: nat, c: nat, b: Blk, u: Blk)
    requires IsFreeList(bs, base) && FitsAt(bs, c, b) && Clear(bs, u) && Disjoint(b, u) && u.size > 0 && base < u.addr
    ensures Clear(Merge(bs, c, b), u)
  {
    var r := Merge(bs, c, b);
    var t := Tail(bs, c, b);
    forall i | 0 <= i < |r| ensures Disjoint(r[i], u) {
      if i > c && !(i == c + 1 && bs[c].End() != b.addr) {
        assert r[i] in t;
        assert exists k :: 0 <= k < |bs| && r[i] == bs[k];
      }
    }
  }

  // ----------------------------------------------------- headers in memory

  datatype Header = Header(ptr: nat, size: nat)

  /** The k-th block's header holds its size and points at the next one, the last at `end`. */
  ghost predicate Node(mem: map<nat, Header>, bs: seq<Blk>, k: nat, end: nat)
    requires k < |bs|
  {
    bs[k].addr in mem && mem[bs[k].addr] == Header(if k + 1 < |bs| then bs[k+1].addr else end, bs[k].size)
  }

  ghost predicate Chain(mem: map<nat, Header>, bs: seq<Blk>, end: nat) {
    forall k :: 0 <= k < |bs| ==> Node(mem, bs, k, end)
  }

  /** The whole list is a ring. */
  ghost predicate Rep(mem: map<nat, Header>, bs: seq<Blk>) {
    |bs| > 0 && Chain(mem, bs, bs[0].addr)
  }

  function First(bs: seq<Blk>, end: nat): nat { if bs == [] then end else bs[0].addr }

  lemma {:induction false} ChainConcat(mem: map<nat, Header>, a: seq<Blk>, b: seq<Blk>, end: nat)
    ensures Chain(mem, a + b, end) <==> Chain(mem, a, First(b, end)) && Chain(mem, b, end)
  {
    var s := a + b;
    forall k | 0 <= k < |a| ensures Node(mem, s, k, end) <==> Node(mem, a, k, First(b, end)) {
      assert s[k] == a[k];
      assert k + 1 < |s| ==> s[k+1] == if k + 1 < |a| then a[k+1] else b[0];
    }
    forall k | 0 <= k < |b| ensures Node(mem, s, |a| + k, end) <==> Node(mem, b, k, end) {
      assert s[|a| + k] == b[k];
      assert k + 1 < |b| ==> s[|a| + k + 1] == b[k+1];
    }
    if Chain(mem, a, First(b, end)) && Chain(mem, b, end) {
      forall k | 0 <= k < |s| ensures Node(mem, s, k, end) {
        if k >= |a| { assert Node(mem, b, k - |a|, end); }
      }
    }
    if Chain(mem, s, end) {
      forall k | 0 <= k < |b| ensures Node(mem, b, k, end) {
        assert Node(mem, s, |a| + k, end);
      }
    }
  }

  lemma {:induction false} ChainFrame(mem: map<nat, Header>, bs: seq<Blk>, end: nat, x: nat, h: Header)
    requires Chain(mem, bs, end) && forall k :: 0 <= k < |bs| ==> bs[k].addr != x
    ensures Chain(mem[x := h], bs, end)
  {
    var mem' := mem[x := h];
    forall k | 0 <= k < |bs| ensures Node(mem', bs, k, end) {
      assert Node(mem, bs, k, end);
    }
  }

  /** The header stores of free(): first into the freed block, then into its predecessor. */
  function LinkBlock(mem: map<nat, Header>, p: nat, b: Blk): map<nat, Header>
    requires p in mem && b.addr in mem && mem[p].ptr in mem
  {
    var q := mem[p].ptr;
    mem[b.addr := if b.End() == q then Header(mem[q].ptr, b.size + mem[q].size) else Header(q, b.size)]
  }

  function LinkPrev(mem: map<nat, Header>, p: nat, b: nat): map<nat, Header>
    requires p in mem && b in mem
  {
    mem[p := if p + mem[p].size == b then Header(mem[b].ptr, mem[p].size + mem[b].size) else Header(b, mem[p].size)]
  }

  /** Cut the list around index c: what is before, the entry, what is after. */
  lemma {:induction false} RepCut(mem: map<nat, Header>, bs: seq<Blk>, c: nat)
    requires Rep(mem, bs) && c < |bs|
    ensures Chain(mem, bs[..c], bs[c].addr) && Chain(mem, bs[c+1..], bs[0].addr)
    ensures bs[c].addr in mem && mem[bs[c].addr] == Header(First(bs[c+1..], bs[0].addr), bs[c].size)
  {
    assert bs == bs[..c] + ([bs[c]] + bs[c+1..]);
    ChainConcat(mem, bs[..c], [bs[c]] + bs[c+1..], bs[0].addr);
    ChainConcat(mem, [bs[c]], bs[c+1..], bs[0].addr);
    assert Node(mem, [bs[c]], 0, First(bs[c+1..], bs[0].addr));
  }

  lemma {:induction false} ChainJoin(mem: map<nat, Header>, a: seq<Blk>, m: Blk, t: seq<Blk>, end: nat)
    requires Chain(mem, a, m.addr) && Chain(mem, t, end)
    requires m.addr in mem && mem[m.addr] == Header(First(t, end), m.size)
    ensures Chain(mem, a + [m] + t, end)
  {
    assert Chain(mem, [m], First(t, end));
    ChainConcat(mem, [m], t, end);
    ChainConcat(mem, a, [m] + t, end);
    assert a + [m] + t == a + ([m] + t);
  }

  /** The stores of free() turn the ring for bs into the ring for Merge(bs, c, b). */
  lemma {:induction false} RepMerge(mem: map<nat, Header>, bs: seq<Blk>, base: nat, c: nat, b: Blk)
    requires IsFreeList(bs, base) && FitsAt(bs, c, b) && Rep(mem, bs) && b.addr in mem
    ensures bs[c].addr in mem && mem[bs[c].addr].ptr in mem
    ensures Rep(LinkPrev(LinkBlock(mem, bs[c].addr, b), bs[c].addr, b.addr), Merge(bs, c, b))
  {
    hide Chain, Apart, Tail, Grown;
    var p, g, t := bs[c].addr, Grown(bs, c, b), Tail(bs, c, b);
    RepCut(mem, bs, c);
    TailChain(mem, bs, base, c, b);
    var mem1 := LinkBlock(mem, p, b);
    var mem2 := LinkPrev(mem1, p, b.addr);
    TailKeeps(bs, base, c, b);
    TakeKeeps(bs, base, c + 1);
    ChainFrame(mem, bs[..c], p, b.addr, mem1[b.addr]);
    ChainFrame(mem1, bs[..c], p, p, mem2[p]);
    ChainFrame(mem, t, base, b.addr, mem1[b.addr]);
    ChainFrame(mem1, t, base, p, mem2[p]);
    JoinMerged(mem2, bs, base, c, b, g, t);
  }

  /** The pieces of the merged list, joined. */
  lemma {:induction false} JoinMerged(mem: map<nat, Header>, bs: seq<Blk>, base: nat, c: nat, b: Blk, g: Blk, t: seq<Blk>)
    requires IsFreeList(bs, base) && c < |bs| && bs[c].addr in mem && g == Grown(bs, c, b) && t == Tail(bs, c, b) && g.addr == b.addr
    requires Chain(mem, bs[..c], bs[c].addr) && Chain(mem, t, base)
    requires if bs[c].End() == b.addr then mem[bs[c].addr] == Header(First(t, base), bs[c].size + g.size)
             else mem[bs[c].addr] == Header(b.addr, bs[c].size) && b.addr in mem && mem[b.addr] == Header(First(t, base), g.size)
    ensures Rep(mem, Merge(bs, c, b))
  {
    hide Chain, Apart, Tail, Grown;
    var p := bs[c].addr;
    if bs[c].End() == b.addr {
      ChainJoin(mem, bs[..c], Blk(p, bs[c].size + g.size), t, base);
    } else {
      ChainJoin(mem, [], g, t, base);
      assert [] + [g] + t == [g] + t;
      ChainJoin(mem, bs[..c], bs[c], [g] + t, base);
      assert bs[..c] + [bs[c]] + ([g] + t) == bs[..c+1] + [g] + t;
    }
  }

  lemma {:induction false} TailChain(mem: map<nat, Header>, bs: seq<Blk>, base: nat, c: nat, b: Blk)
    requires IsFreeList(bs, base) && FitsAt(bs, c, b) && Rep(mem, bs) && b.addr in mem && bs[c].addr in mem
    ensures mem[bs[c].addr].ptr in mem
    ensures Chain(mem, Tail(bs, c, b), base)
    ensures LinkBlock(mem, bs[c].addr, b)[b.addr] == Header(First(Tail(bs, c, b), base), Grown(bs, c, b).size)
  {
    RepCut(mem, bs, c);
    RepCut(mem, bs, 0);
    if c + 1 < |bs| {
      RepCut(mem, bs, c + 1);
    }
  }

  // --------------------------------------------------------------- malloc

  /** The list without entry j. */
  function Remove(bs: seq<Blk>, j: nat): seq<Blk>
    requires j < |bs|
  { bs[..j] + bs[j+1..] }

  /** The list with entry j cut down by n units. */
  function Shrink(bs: seq<Blk>, j: nat, n: nat): seq<Blk>
    requires j < |bs| && n <= bs[j].size
  { bs[..j] + [Blk(bs[j].addr, bs[j].size - n)] + bs[j+1..] }

  lemma {:induction false} RemoveKeeps(bs: seq<Blk>, base: nat, j: nat)
    requires IsFreeList(bs, base) && 0 < j < |bs|
    ensures IsFreeList(Remove(bs, j), base)
  {
    var r := Remove(bs, j);
    assert forall k :: 0 <= k < j ==> r[k] == bs[k];
    assert forall k :: j <= k < |r| ==> r[k] == bs[k+1];
  }

  lemma {:induction false} RemoveUnits(bs: seq<Blk>, j: nat)
    requires j < |bs|
    ensures Units(Remove(bs, j)) == Units(bs) - bs[j].size
  {
    SplitUnits(bs, j);
    UnitsConcat(bs[..j], bs[j+1..]);
  }

  lemma {:induction false} RemoveRep(mem: map<nat, Header>, bs: seq<Blk>, base: nat, j: nat)
    requires IsFreeList(bs, base) && Rep(mem, bs) && 0 < j < |bs|
    ensures bs[j-1].addr in mem && bs[j].addr in mem
    ensures Rep(mem[bs[j-1].addr := Header(mem[bs[j].addr].ptr, mem[bs[j-1].addr].size)], Remove(bs, j))
  {
    RepCut(mem, bs, j-1);
    RepCut(mem, bs, j);
    var p := bs[j-1];
    var h := Header(mem[bs[j].addr].ptr, p.size);
    TakeKeeps(bs, base, j);
    ChainFrame(mem, bs[..j-1], p.addr, p.addr, h);
    ChainFrame(mem, bs[j+1..], base, p.addr, h);
    ChainJoin(mem[p.addr := h], bs[..j-1], p, bs[j+1..], base);
    assert bs[..j-1] + [p] + bs[j+1..] == Remove(bs, j);
  }

  lemma {:induction false} ShrinkKeeps(bs: seq<Blk>, base: nat, j: nat, n: nat)
    requires IsFreeList(bs, base) && 0 < j < |bs| && 0 < n < bs[j].size
    ensures IsFreeList(Shrink(bs, j, n), base)
  {
    var r := Shrink(bs, j, n);
    assert forall k :: 0 <= k < |r| && k != j ==> r[k] == bs[k];
  }

  lemma {:induction false} ShrinkUnits(bs: seq<Blk>, j: nat, n: nat)
    requires j < |bs| && n <= bs[j].size
    ensures Units(Shrink(bs, j, n)) == Units(bs) - n
  {
    var m := Blk(bs[j].addr, bs[j].size - n);
    SplitUnits(bs, j);
    UnitsConcat(bs[..j] + [m], bs[j+1..]);
    UnitsConcat(bs[..j], [m]);
    UnitsOne(m);
  }

  lemma {:induction false} ShrinkRep(mem: map<nat, Header>, bs: seq<Blk>, base: nat, j: nat, n: nat)
    requires IsFreeList(bs, base) && Rep(mem, bs) && 0 < j < |bs| && 0 < n < bs[j].size
    ensures bs[j].addr in mem
    ensures Rep(mem[bs[j].addr := Header(mem[bs[j].addr].ptr, bs[j].size - n)], Shrink(bs, j, n))
  {
    RepCut(mem, bs, j);
    var m := Blk(bs[j].addr, bs[j].size - n);
    var h := Header(mem[m.addr].ptr, m.size);
    TakeKeeps(bs, base, j + 1);
    ChainFrame(mem, bs[..j], m.addr, m.addr, h);
    ChainFrame(mem, bs[j+1..], base, m.addr, h);
    ChainJoin(mem[m.addr := h], bs[..j], m, bs[j+1..], base);
  }
}
