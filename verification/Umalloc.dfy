/** malloc, free and morecore of umalloc.c, on headers in memory.

    Addresses and sizes count Headers (8 bytes). `free` and `used` are what the
    headers mean: the free list in address order, and the blocks callers hold. */
module Umalloc {
  import opened FreeList
  import opened Sums

  type Uint = x: int | 0 <= x < 0x1_0000_0000

  /** nunits, computed in 32-bit unsigned arithmetic. */
  function NUnits(nbytes: Uint): nat {
    (nbytes + 8 - 1) % 0x1_0000_0000 / 8 + 1
  }

  /** What morecore asks sbrk for, in units. */
  function CoreUnits(nu: nat): nat { if nu < 4096 then 4096 else nu }

  /** nu * sizeof(Header) reaches sbrk as a positive int. */
  predicate SbrkSafe(nu: nat) { 8 * nu < 0x8000_0000 }

  datatype Outcome =
    | Block(ap: nat)   // one past the header of the new block
    | NoMemory
    | Fault            // sbrk was not asked for the memory about to be used

  /** The callers' blocks: inside the heap, apart from the free list and each other. */
  ghost predicate UsedOk(mem: map<nat, Header>, bs: seq<Blk>, used: map<nat, int>, base: nat, brk: nat) {
    && (forall a :: a in used ==>
          && used[a] > 0 && base < a && a + used[a] <= brk
          && a in mem && mem[a].size == used[a] && Clear(bs, Blk(a, used[a])))
    && (forall a, b :: a in used && b in used && a != b ==> Disjoint(Blk(a, used[a]), Blk(b, used[b])))
  }

  ghost predicate Below(bs: seq<Blk>, brk: nat) { forall k :: 0 <= k < |bs| ==> bs[k].End() <= brk }

  ghost predicate Heaped(mem: map<nat, Header>, bs: seq<Blk>, used: map<nat, int>, base: nat, brk: nat) {
    && 0 < base < brk && IsFreeList(bs, base) && Rep(mem, bs) && Below(bs, brk) && UsedOk(mem, bs, used, base, brk)
  }

  lemma {:induction false} MergeUsed(mem: map<nat, Header>, bs: seq<Blk>, used: map<nat, int>, base: nat, brk: nat, c: nat,
                                     bp: nat)
    requires Heaped(mem, bs, used, base, brk) && bp in used && FitsAt(bs, c, Blk(bp, used[bp]))
    ensures bs[c].addr in mem && mem[bs[c].addr].ptr in mem
    ensures var b := Blk(bp, used[bp]);
            Heaped(LinkPrev(LinkBlock(mem, bs[c].addr, b), bs[c].addr, bp), Merge(bs, c, b), used - {bp}, base, brk)
  {
    var b := Blk(bp, used[bp]);
    RepMerge(mem, bs, base, c, b);
    MergeKeeps(bs, base, c, b);
    var mem' := LinkPrev(LinkBlock(mem, bs[c].addr, b), bs[c].addr, bp);
    var bs' := Merge(bs, c, b);
    MergeBelow(bs, c, b, brk);
    forall a | a in used - {bp}
      ensures Clear(bs', Blk(a, used[a])) && a in mem' && mem'[a].size == used[a]
    {
      MergeClear(bs, base, c, b, Blk(a, used[a]));
      assert Disjoint(bs[c], Blk(a, used[a]));
      assert a != bs[c].addr;
    }
  }

  lemma {:induction false} MergeBelow(bs: seq<Blk>, c: nat, b: Blk, brk: nat)
    requires c < |bs| && Below(bs, brk) && b.End() <= brk
    ensures Below(Merge(bs, c, b), brk)
  {
    hide Below, Tail;
    TailBelow(bs, c, b, brk);
    if bs[c].End() == b.addr {
      GlueBelow(bs[..c], Blk(bs[c].addr, bs[c].size + Grown(bs, c, b).size), Tail(bs, c, b), brk);
    } else {
      GlueBelow(bs[..c+1], Grown(bs, c, b), Tail(bs, c, b), brk);
    }
  }

  lemma {:induction false} TailBelow(bs: seq<Blk>, c: nat, b: Blk, brk: nat)
    requires c < |bs| && Below(bs, brk) && b.End() <= brk
    ensures Below(Tail(bs, c, b), brk) && Grown(bs, c, b).End() <= brk && Grown(bs, c, b).addr == b.addr
    ensures Below(bs[..c], brk) && Below(bs[..c+1], brk)
  {
    var k := if c + 1 < |bs| && b.End() == bs[c+1].addr then c + 2 else c + 1;
    assert Tail(bs, c, b) == bs[k..];
  }

  lemma {:induction false} GlueBelow(a: seq<Blk>, m: Blk, t: seq<Blk>, brk: nat)
    requires Below(a, brk) && m.End() <= brk && Below(t, brk)
    ensures Below(a + [m] + t, brk)
  {
    var r := a + [m] + t;
    forall k | 0 <= k < |r| ensures r[k].End() <= brk {
      if k > |a| { assert r[k] == t[k - |a| - 1]; }
    }
  }

  ghost predicate Listed(bs: seq<Blk>, p: nat) { exists k :: 0 <= k < |bs| && bs[k].addr == p }

  /** bs' is bs with block b merged in after the entry at p. */
  ghost predicate Merged(bs: seq<Blk>, b: Blk, bs': seq<Blk>, p: nat) {
    exists c: nat :: FitsAt(bs, c, b) && bs' == Merge(bs, c, b) && p == bs[c].addr
  }

  class Heap {
    var mem: map<nat, Header>
    var freep: nat                 // 0 before the first malloc
    const base: nat                // &base
    var brk: nat                   // end of the data segment
    ghost var free: seq<Blk>
    ghost var used: map<nat, int>
    ghost var total: nat           // units ever obtained from sbrk

    /** One ring in address order, everything apart, every unit accounted for. */
    ghost predicate Live()
      reads this
    {
      && Heaped(mem, free, used, base, brk)
      && Listed(free, freep)
      && Units(free) + Sum(used) == total
    }

    ghost predicate Valid()
      reads this
    {
      if freep == 0 then 0 < base < brk && free == [] && used == map[] && total == 0 else Live()
    }

    constructor (b: nat, end: nat)
      requires 0 < b < end
      ensures Valid() && freep == 0 && base == b && brk == end
    {
      mem, freep, base, brk := map[], 0, b, end;
      free, used, total := [], map[], 0;
    }

    /** The search loop of free: go round the list to the entry bp belongs after. */
    method Locate(bp: nat) returns (p: nat, ghost c: nat)
      requires Live() && bp in used
      ensures FitsAt(free, c, Blk(bp, used[bp])) && p == free[c].addr
    {
      hide UsedOk, Chain, FitsAt, IsFreeList, Below;
      c := GapOf(mem, free, used, base, brk, bp);
      ghost var k :| 0 <= k < |free| && free[k].addr == freep;
      p := freep;
      NextOf(mem, free, k);
      while !(bp > p && bp < mem[p].ptr)
        invariant 0 <= k < |free| && p == free[k].addr && p in mem
        invariant mem[p].ptr == free[After(free, k)].addr
        decreases if k <= c then c - k else c - k + |free|
      {
        PlaceTest(free, base, c, bp, k);
        if p >= mem[p].ptr && (bp > p || bp < mem[p].ptr) {
          break;
        }
        p := mem[p].ptr;
        k := After(free, k);
        NextOf(mem, free, k);
      }
      PlaceTest(free, base, c, bp, k);
    }

    /** free: the block goes back into the list, merged with the neighbours it touches. */
    method Free(ap: nat)
      requires Live() && ap > 0 && ap - 1 in used
      modifies this
      ensures Live() && brk == old(brk) && total == old(total)
      ensures used == old(used) - {ap - 1}
      ensures Merged(old(free), Blk(ap - 1, old(used)[ap - 1]), free, freep)
    {
      var bp := ap - 1;
      hide Heaped, Merged, FitsAt, Listed;
      var p;
      ghost var c;
      p, c := Locate(bp);
      ghost var bs, us := FreeFacts(mem, free, used, base, brk, c, bp);
      Relink(bp, p);
      freep := p;
      free, used := bs, us;
    }

    /** The header stores of free. */
    method Relink(bp: nat, p: nat)
      requires bp in mem && p in mem && mem[p].ptr in mem && bp != p
      modifies this`mem
      ensures mem == LinkPrev(LinkBlock(old(mem), p, Blk(bp, old(mem)[bp].size)), p, bp)
    {
      if bp + mem[bp].size == mem[p].ptr {
        mem := mem[bp := mem[bp].(size := mem[bp].size + mem[mem[p].ptr].size)];
        mem := mem[bp := mem[bp].(ptr := mem[mem[p].ptr].ptr)];
      } else {
        mem := mem[bp := mem[bp].(ptr := mem[p].ptr)];
      }
      if p + mem[p].size == bp {
        mem := mem[p := mem[p].(size := mem[p].size + mem[bp].size)];
        mem := mem[p := mem[p].(ptr := mem[bp].ptr)];
      } else {
        mem := mem[p := mem[p].(ptr := bp)];
      }
    }
  
    /** malloc's carving step: entry j is big enough and i is the entry before it. */
    method Take(prevp: nat, p: nat, nunits: nat, ghost j: nat) returns (a: nat)
      requires Live() && nunits > 0
      requires 0 < j < |free| && p == free[j].addr && prevp == free[j-1].addr && free[j].size >= nunits
      modifies this
      ensures Live() && brk == old(brk) && total == old(total)
      ensures a !in old(used) && used == old(used)[a := nunits]
      ensures freep == prevp && CarvedFrom(old(free), free, j, nunits, a)
    {
      hide Heaped, Listed;
      a := p;
      NodeOf(mem, free, used, base, brk, j);
      NodeOf(mem, free, used, base, brk, j - 1);
      ghost var bs, us;
      if mem[p].size == nunits {
        bs, us := TakeAll(mem, free, used, base, brk, j);
        mem := mem[prevp := mem[prevp].(ptr := mem[p].ptr)];
      } else {
        bs, us := TakeTail(mem, free, used, base, brk, j, nunits);
        mem := mem[p := mem[p].(size := mem[p].size - nunits)];
        a := p + mem[p].size;
        mem := mem[a := Header(if a in mem then mem[a].ptr else 0, nunits)];
      }
      freep := prevp;
      free, used := bs, us;
    }
  
    /** morecore: new memory from sbrk goes through free(). `gap` is how far other
        callers of sbrk have moved the break meanwhile. */
    method Morecore(nu: nat, sbrkOk: bool, gap: nat) returns (p: nat)
      requires Live() && SbrkSafe(CoreUnits(nu))
      modifies this
      ensures Live() && used == old(used)
      ensures p == 0 <==> !sbrkOk
      ensures p == 0 ==> free == old(free) && freep == old(freep) && total == old(total) && brk == old(brk)
      ensures p != 0 ==> brk == old(brk) + gap + CoreUnits(nu)
      ensures p != 0 ==> p == freep && HasFit(free, nu) && total == old(total) + CoreUnits(nu)
      ensures p != 0 ==> GrewTo(old(free), CoreUnits(nu), free, freep)
    {
      hide Heaped, Listed, Merged;
      if !sbrkOk {
        BaseFacts(mem, free, used, base, brk);
        return 0;
      }
      var n := CoreUnits(nu);
      var hp: nat := brk + gap;
      GrowUsed(mem, free, used, base, brk, hp, n);
      SumUpdate(used, hp, n);
      brk := hp + n;
      mem := mem[hp := Header(if hp in mem then mem[hp].ptr else 0, n)];
      used := used[hp := n];
      total := total + n;
      Free(hp + 1);
      assert old(used)[hp := n] - {hp} == old(used);
      BaseFacts(mem, free, used, base, brk);
      ListedPositive(free, base, freep);
      MergedFits(old(free), Blk(hp, n), free, freep, nu);
      return freep;
    }

    /** malloc's first lines: on the first call the list is base alone. */
    method Begin()
      requires Valid()
      modifies `mem, `freep, `free
      ensures Live() && free == (if old(freep) == 0 then [Blk(base, 0)] else old(free))
      ensures freep == (if old(freep) == 0 then base else old(freep))
    {
      hide Heaped, Listed;
      if freep == 0 {
        mem := mem[base := Header(base, 0)];
        freep := base;
        free := [Blk(base, 0)];
        FreshHeap(mem, base, brk);
      }
    }

    /** malloc(nbytes). `cores` counts its calls of morecore; bs is the list, and fp the place in it,
        from which the search that ended began: the block is carved off the first entry behind fp that
        is big enough. */
    method Malloc(nbytes: Uint, sbrkOk: bool, gap: nat)
      returns (r: Outcome, cores: nat, ghost bs: seq<Blk>, ghost fp: nat)
      requires Valid()
      modifies this
      ensures Live() && cores <= 1
      ensures cores == 0 && old(freep) != 0 ==> bs == old(free) && fp == old(freep)
      ensures cores == 0 && old(freep) == 0 ==> bs == [Blk(base, 0)] && fp == base
      ensures cores == 1 ==> GrewTo(if old(freep) == 0 then [Blk(base, 0)] else old(free), CoreUnits(NUnits(nbytes)), bs, fp)
      ensures r.Block? ==> NextFitTaken(bs, fp, NUnits(nbytes), free, freep, r.ap)
      ensures total == old(total) + if cores == 1 then CoreUnits(NUnits(nbytes)) else 0
      ensures r.Block? ==> r.ap > 0 && r.ap - 1 !in old(used) && used == old(used)[r.ap - 1 := NUnits(nbytes)]
      ensures !r.Block? ==> used == old(used) && !HasFit(free, NUnits(nbytes))
      ensures r.NoMemory? <==> !old(HasFit(free, NUnits(nbytes))) && SbrkSafe(CoreUnits(NUnits(nbytes))) && !sbrkOk
      ensures r.Fault? <==> !old(HasFit(free, NUnits(nbytes))) && !SbrkSafe(CoreUnits(NUnits(nbytes)))
    {
      hide Heaped, Listed, Passed, Apart, GrewTo, NextFitTaken, CarvedFrom, HasFit, Rep, UsedOk, Merged;
      var nunits := NUnits(nbytes);
      cores := 0;
      FitBase(base, nunits);
      Begin();
      bs, fp := free, freep;
      ghost var bs0 := free;
      var prevp := freep;
      ghost var s: nat := IndexOf(free, freep);
      NodeOf(mem, free, used, base, brk, s);
      BaseFacts(mem, free, used, base, brk);
      var p := mem[prevp].ptr;
      ghost var j: nat := After(free, s);
      ghost var i: nat := s;
      NothingPassed(free, s, nunits);
      while true
        invariant Live() && used == old(used) && cores <= 1
        invariant total == old(total) + if cores == 1 then CoreUnits(nunits) else 0
        invariant i < |free| && prevp == free[i].addr && j == After(free, i) && p == free[j].addr
        invariant s < |free| && free[s].addr == freep && bs == free && fp == freep
        invariant cores == 0 ==> bs == bs0 && freep == if old(freep) == 0 then base else old(freep)
        invariant cores == 1 ==> GrewTo(bs0, CoreUnits(nunits), bs, fp)
        invariant Passed(free, j, s, nunits)
        invariant cores == 0 ==> (HasFit(free, nunits) <==> old(HasFit(free, NUnits(nbytes))))
        invariant cores == 1 ==> HasFit(free, nunits) && sbrkOk && SbrkSafe(CoreUnits(nunits)) && !old(HasFit(free, NUnits(nbytes)))
        decreases 1 - cores, Dist(|free|, j, s)
      {
        NodeOf(mem, free, used, base, brk, j);
        BaseFacts(mem, free, used, base, brk);
        if mem[p].size >= nunits {
          FitAt(free, j, nunits);
          var a := Take(prevp, p, nunits, j);
          Taken(bs, fp, s, j, nunits, free, freep, a);
          return Block(a + 1), cores, bs, fp;
        }
        if p == freep {
          AllPassed(free, base, j, s, nunits);
          if !SbrkSafe(CoreUnits(nunits)) {
            return Fault, cores, bs, fp;
          }
          p := Morecore(nunits, sbrkOk, gap);
          if p == 0 {
            return NoMemory, cores, bs, fp;
          }
          cores := cores + 1;
          bs, fp := free, freep;
          s := IndexOf(free, freep);
          j := s;
          NodeOf(mem, free, used, base, brk, j);
          NothingPassed(free, s, nunits);
        } else {
          PassOne(free, base, j, s, nunits, freep);
        }
        prevp := p;
        i := j;
        p := mem[p].ptr;
        j := After(free, j);
      }
    }
  }

  /** Entry j gave up its top n units, at a; if that was all of it, it left the list. */
  ghost predicate CarvedFrom(bs: seq<Blk>, bs': seq<Blk>, j: nat, n: nat, a: nat) {
    && j < |bs| && n <= bs[j].size && a == bs[j].addr + bs[j].size - n
    && bs' == if n == bs[j].size then Remove(bs, j) else Shrink(bs, j, n)
  }

  /** bs is bs0 with a new block of n units merged in behind the entry at fp. */
  ghost predicate GrewTo(bs0: seq<Blk>, n: nat, bs: seq<Blk>, fp: nat) { exists hp :: Merged(bs0, Blk(hp, n), bs, fp) }

  /** Going round from the entry at fp, the first entry of n units or more gave up its top n units, one
      header below ap, and the entry before it is where the next search begins. */
  ghost predicate NextFitTaken(bs: seq<Blk>, fp: nat, n: nat, bs': seq<Blk>, fp': nat, ap: nat) {
    exists s: nat, j: nat ::
      && s < |bs| && bs[s].addr == fp && 0 < j < |bs| && Passed(bs, j, s, n) && bs[j].size >= n
      && ap > 0 && CarvedFrom(bs, bs', j, n, ap - 1) && fp' == bs[j - 1].addr
  }

  lemma {:induction false} Taken(bs: seq<Blk>, fp: nat, s: nat, j: nat, n: nat, bs': seq<Blk>, fp': nat, a: nat)
    requires s < |bs| && bs[s].addr == fp && 0 < j < |bs| && Passed(bs, j, s, n) && bs[j].size >= n
    requires CarvedFrom(bs, bs', j, n, a) && fp' == bs[j - 1].addr
    ensures NextFitTaken(bs, fp, n, bs', fp', a + 1)
  {
    hide Passed, CarvedFrom;
    assert CarvedFrom(bs, bs', j, n, a + 1 - 1);
  }

  /** Some block of the list is big enough. */
  ghost predicate HasFit(bs: seq<Blk>, n: nat) { exists k :: 0 <= k < |bs| && bs[k].size >= n }

  lemma {:induction false} FitBase(base: nat, n: nat)
    requires n > 0
    ensures !HasFit([Blk(base, 0)], n) && !HasFit([], n)
  {
  }

  lemma {:induction false} FitAt(bs: seq<Blk>, j: nat, n: nat)
    requires j < |bs| && bs[j].size >= n
    ensures HasFit(bs, n)
  {
  }

  /** How many steps round a ring of n entries lead from j to s. */
  function Dist(n: nat, j: nat, s: nat): int { if j <= s then s - j else s - j + n }

  /** The entries malloc's walk from s has already rejected when it stands at j. */
  ghost predicate Passed(bs: seq<Blk>, j: nat, s: nat, n: nat) {
    forall m :: 0 <= m < |bs| && Dist(|bs|, m, s) > Dist(|bs|, j, s) ==> bs[m].size < n
  }

  lemma {:induction false} NodeOf(mem: map<nat, Header>, bs: seq<Blk>, used: map<nat, int>, base: nat, brk: nat, k: nat)
    requires Heaped(mem, bs, used, base, brk) && k < |bs|
    ensures bs[k].addr in mem && mem[bs[k].addr] == Header(bs[After(bs, k)].addr, bs[k].size)
  {
    NextOf(mem, bs, k);
  }

  /** The whole of entry j becomes a caller's block. */
  lemma {:induction false} TakeAll(mem: map<nat, Header>, bs: seq<Blk>, used: map<nat, int>, base: nat, brk: nat, j: nat)
    returns (bs': seq<Blk>, used': map<nat, int>)
    requires Heaped(mem, bs, used, base, brk) && 0 < j < |bs|
    ensures bs[j-1].addr in mem && bs[j].addr in mem
    ensures Heaped(mem[bs[j-1].addr := mem[bs[j-1].addr].(ptr := mem[bs[j].addr].ptr)], bs', used', base, brk)
    ensures bs[j].addr !in used && used' == used[bs[j].addr := bs[j].size]
    ensures Units(bs') + Sum(used') == Units(bs) + Sum(used)
    ensures Listed(bs', bs[j-1].addr) && bs' == Remove(bs, j)
  {
    hide Rep, UsedOk, Remove, Listed, Pieces, IsFreeList, Below;
    var a, p := bs[j].addr, bs[j-1].addr;
    bs', used' := Remove(bs, j), used[a := bs[j].size];
    NextOf(mem, bs, j);
    NextOf(mem, bs, j-1);
    RemoveKeeps(bs, base, j);
    RemoveUnits(bs, j);
    RemoveRep(mem, bs, base, j);
    RemovePieces(bs, base, j);
    PiecesBelow(bs, bs', bs[j], brk);
    NotUsed(mem, bs, used, base, brk, j);
    NotUsed(mem, bs, used, base, brk, j-1);
    Positive(bs, base, j);
    SumUpdate(used, a, bs[j].size);
    var mem' := mem[p := mem[p].(ptr := mem[a].ptr)];
    UsedInMem(mem, bs, used, base, brk);
    TakenUsed(mem, bs, used, base, brk, j, mem', bs', bs[j]);
  }

  lemma {:induction false} Positive(bs: seq<Blk>, base: nat, j: nat)
    requires IsFreeList(bs, base) && 0 < j < |bs|
    ensures bs[j].size > 0 && bs[j-1].addr < bs[j].addr
  {
    assert bs[j-1].End() < bs[j].addr;
  }

  lemma {:induction false} UsedInMem(mem: map<nat, Header>, bs: seq<Blk>, used: map<nat, int>, base: nat, brk: nat)
    requires Heaped(mem, bs, used, base, brk)
    ensures forall a :: a in used ==> a in mem
  {
  }

  /** The top n units of entry j become a caller's block. */
  lemma {:induction false} TakeTail(mem: map<nat, Header>, bs: seq<Blk>, used: map<nat, int>, base: nat, brk: nat, j: nat, n: nat)
    returns (bs': seq<Blk>, used': map<nat, int>)
    requires Heaped(mem, bs, used, base, brk) && 0 < j < |bs| && 0 < n < bs[j].size
    ensures bs[j].addr in mem
    ensures var a := bs[j].addr + bs[j].size - n;
            && a !in used && used' == used[a := n]
            && forall x :: Heaped(mem[bs[j].addr := Header(mem[bs[j].addr].ptr, bs[j].size - n)][a := Header(x, n)],
                                  bs', used', base, brk)
    ensures Units(bs') + Sum(used') == Units(bs) + Sum(used)
    ensures Listed(bs', bs[j-1].addr) && bs' == Shrink(bs, j, n)
  {
    hide Rep, UsedOk, Shrink, Listed, Pieces, IsFreeList, Below;
    var a: nat, p := bs[j].addr + bs[j].size - n, bs[j].addr;
    bs', used' := Shrink(bs, j, n), used[a := n];
    NextOf(mem, bs, j);
    ShrinkKeeps(bs, base, j, n);
    ShrinkUnits(bs, j, n);
    ShrinkRep(mem, bs, base, j, n);
    ShrinkPieces(bs, base, j, n);
    PiecesBelow(bs, bs', Blk(a, n), brk);
    NotUsed(mem, bs, used, base, brk, j);
    TailNotUsed(mem, bs, used, base, brk, j, n);
    SumUpdate(used, a, n);
    UsedInMem(mem, bs, used, base, brk);
    forall x ensures Heaped(mem[p := Header(mem[p].ptr, bs[j].size - n)][a := Header(x, n)], bs', used', base, brk) {
      var mem1 := mem[p := Header(mem[p].ptr, bs[j].size - n)];
      RepFrame(mem1, bs', a, Header(x, n));
      TakenUsed(mem, bs, used, base, brk, j, mem1[a := Header(x, n)], bs', Blk(a, n));
    }
  }

  lemma {:induction false} RepFrame(mem: map<nat, Header>, bs: seq<Blk>, x: nat, h: Header)
    requires Rep(mem, bs) && forall k :: 0 <= k < |bs| ==> bs[k].addr != x
    ensures Rep(mem[x := h], bs)
  {
    ChainFrame(mem, bs, bs[0].addr, x, h);
  }

  lemma {:induction false} TailNotUsed(mem: map<nat, Header>, bs: seq<Blk>, used: map<nat, int>, base: nat, brk: nat, j: nat,
                                       n: nat)
    requires Heaped(mem, bs, used, base, brk) && 0 < j < |bs| && 0 < n < bs[j].size
    ensures bs[j].addr + bs[j].size - n !in used
  {
    assert forall a :: a in used ==> Disjoint(bs[j], Blk(a, used[a]));
  }

  lemma {:induction false} NotUsed(mem: map<nat, Header>, bs: seq<Blk>, used: map<nat, int>, base: nat, brk: nat, j: nat)
    requires Heaped(mem, bs, used, base, brk) && j < |bs|
    ensures bs[j].addr !in used
  {
    assert forall a :: a in used ==> Disjoint(bs[j], Blk(a, used[a]));
  }

  /** A block cut out of entry j joins the callers' blocks. */
  lemma {:induction false} TakenUsed(mem: map<nat, Header>, bs: seq<Blk>, used: map<nat, int>, base: nat, brk: nat, j: nat,
                  mem': map<nat, Header>, bs': seq<Blk>, u: Blk)
    requires Heaped(mem, bs, used, base, brk) && 0 < j < |bs| && u.size > 0
    requires bs[j].addr <= u.addr && u.End() == bs[j].End()
    requires u.addr in mem' && mem'[u.addr].size == u.size
    requires forall a :: a in used ==> a in mem' && mem'[a].size == mem[a].size
    requires Pieces(bs, bs', u)
    ensures UsedOk(mem', bs', used[u.addr := u.size], base, brk)
  {
    var used' := used[u.addr := u.size];
    forall a | a in used ensures Clear(bs', Blk(a, used[a])) && Disjoint(u, Blk(a, used[a])) {
      var x := Blk(a, used[a]);
      assert Disjoint(bs[j], x);
      forall k | 0 <= k < |bs'| ensures Disjoint(bs'[k], x) {
        var m :| 0 <= m < |bs| && Inside(bs'[k], bs[m]);
        assert Disjoint(bs[m], x);
      }
    }
    assert base < u.addr;
  }

  predicate Inside(a: Blk, b: Blk) { a.addr == b.addr && a.size <= b.size }

  /** Every block of bs' is part of a block of bs, and apart from u. */
  ghost predicate Pieces(bs: seq<Blk>, bs': seq<Blk>, u: Blk) {
    forall k :: 0 <= k < |bs'| ==> Disjoint(bs'[k], u) && exists m :: 0 <= m < |bs| && Inside(bs'[k], bs[m])
  }

  lemma {:induction false} PiecesBelow(bs: seq<Blk>, bs': seq<Blk>, u: Blk, brk: nat)
    requires Pieces(bs, bs', u) && Below(bs, brk)
    ensures Below(bs', brk)
  {
  }

  lemma {:induction false} RemovePieces(bs: seq<Blk>, base: nat, j: nat)
    requires IsFreeList(bs, base) && 0 < j < |bs|
    ensures Pieces(bs, Remove(bs, j), bs[j]) && Listed(Remove(bs, j), bs[j-1].addr)
  {
    var r := Remove(bs, j);
    forall k | 0 <= k < |r| ensures Disjoint(r[k], bs[j]) && exists m :: 0 <= m < |bs| && Inside(r[k], bs[m]) {
      var m := if k < j then k else k + 1;
      assert r[k] == bs[m];
      assert Inside(r[k], bs[m]);
    }
    assert r[j-1] == bs[j-1];
  }

  lemma {:induction false} ShrinkPieces(bs: seq<Blk>, base: nat, j: nat, n: nat)
    requires IsFreeList(bs, base) && 0 < j < |bs| && 0 < n < bs[j].size
    ensures Pieces(bs, Shrink(bs, j, n), Blk(bs[j].addr + bs[j].size - n, n)) && Listed(Shrink(bs, j, n), bs[j-1].addr)
    ensures forall k :: 0 <= k < |Shrink(bs, j, n)| ==> Shrink(bs, j, n)[k].addr != bs[j].addr + bs[j].size - n
  {
    var r, u := Shrink(bs, j, n), Blk(bs[j].addr + bs[j].size - n, n);
    forall k | 0 <= k < |r| ensures r[k].addr != u.addr && Disjoint(r[k], u) && exists m :: 0 <= m < |bs| && Inside(r[k], bs[m]) {
      assert k != j ==> r[k] == bs[k];
      assert Inside(r[k], bs[k]);
      if k < j { assert bs[k].End() < bs[j].addr; } else if k > j { assert bs[j].End() < bs[k].addr; }
    }
    assert r[j-1] == bs[j-1];
  }

  lemma {:induction false} GapOf(mem: map<nat, Header>, bs: seq<Blk>, used: map<nat, int>, base: nat, brk: nat,
                                 bp: nat) returns (c: nat)
    requires Heaped(mem, bs, used, base, brk) && bp in used
    ensures used[bp] > 0 && c < |bs| && FitsAt(bs, c, Blk(bp, used[bp]))
    ensures forall i :: 0 <= i <= c ==> bs[i].addr < bp
    ensures forall i :: c < i < |bs| ==> bp < bs[i].addr
  {
    c := FindGap(bs, base, Blk(bp, used[bp]));
  }

  lemma {:induction false} NextOf(mem: map<nat, Header>, bs: seq<Blk>, k: nat)
    requires Rep(mem, bs) && k < |bs|
    ensures bs[k].addr in mem && mem[bs[k].addr] == Header(bs[After(bs, k)].addr, bs[k].size)
  {
    assert Node(mem, bs, k, bs[0].addr);
  }

  /** free's two stopping tests, taken together, hold at exactly the right entry. */
  lemma {:induction false} PlaceTest(bs: seq<Blk>, base: nat, c: nat, bp: nat, k: nat)
    requires IsFreeList(bs, base) && c < |bs| && k < |bs|
    requires forall i :: 0 <= i <= c ==> bs[i].addr < bp
    requires forall i :: c < i < |bs| ==> bp < bs[i].addr
    ensures var p, q := bs[k].addr, bs[After(bs, k)].addr;
            ((bp > p && bp < q) || (p >= q && (bp > p || bp < q))) <==> k == c
  {
    assert k < |bs| - 1 ==> bs[k].End() < bs[k+1].addr;
    assert k > 0 ==> bs[0].End() < bs[k].addr;
  }

  lemma {:induction false} FreeFacts(mem: map<nat, Header>, bs: seq<Blk>, used: map<nat, int>, base: nat, brk: nat, c: nat,
                                     bp: nat)
    returns (bs': seq<Blk>, used': map<nat, int>)
    requires Heaped(mem, bs, used, base, brk) && bp in used && FitsAt(bs, c, Blk(bp, used[bp]))
    ensures bp in mem && mem[bp].size == used[bp] && bs[c].addr in mem && mem[bs[c].addr].ptr in mem && bs[c].addr != bp
    ensures var b := Blk(bp, used[bp]);
            && Heaped(LinkPrev(LinkBlock(mem, bs[c].addr, b), bs[c].addr, bp), bs', used', base, brk)
            && Merged(bs, b, bs', bs[c].addr)
    ensures used' == used - {bp}
    ensures Units(bs') + Sum(used') == Units(bs) + Sum(used)
    ensures Listed(bs', bs[c].addr)
  {
    var b := Blk(bp, used[bp]);
    MergeUsed(mem, bs, used, base, brk, c, bp);
    MergeUnits(bs, base, c, b);
    SumRemove(used, bp);
    MergeKept(bs, c, b);
    bs', used' := Merge(bs, c, b), used - {bp};
    assert bs'[c].addr == bs[c].addr;
  }

  lemma {:induction false} MergeKept(bs: seq<Blk>, c: nat, b: Blk)
    requires c < |bs|
    ensures c < |Merge(bs, c, b)| && Merge(bs, c, b)[c].addr == bs[c].addr
  {
  }

  lemma {:induction false} NothingPassed(bs: seq<Blk>, s: nat, n: nat)
    requires s < |bs|
    ensures Passed(bs, After(bs, s), s, n)
  {
  }

  lemma {:induction false} PassOne(bs: seq<Blk>, base: nat, j: nat, s: nat, n: nat, freep: nat)
    requires IsFreeList(bs, base) && j < |bs| && s < |bs| && bs[s].addr == freep && bs[j].addr != freep
    requires Passed(bs, j, s, n) && bs[j].size < n
    ensures Passed(bs, After(bs, j), s, n) && Dist(|bs|, After(bs, j), s) < Dist(|bs|, j, s)
  {
  }

  lemma {:induction false} AllPassed(bs: seq<Blk>, base: nat, j: nat, s: nat, n: nat)
    requires IsFreeList(bs, base) && j < |bs| && s < |bs| && bs[s].addr == bs[j].addr
    requires Passed(bs, j, s, n) && bs[j].size < n
    ensures !HasFit(bs, n)
  {
    assert j == s;
    forall m | 0 <= m < |bs| ensures bs[m].size < n {
      if m != j { assert Dist(|bs|, m, s) > Dist(|bs|, j, s); }
    }
  }

  lemma {:induction false} IndexOf(bs: seq<Blk>, p: nat) returns (k: nat)
    requires Listed(bs, p)
    ensures k < |bs| && bs[k].addr == p
  {
    k :| 0 <= k < |bs| && bs[k].addr == p;
  }

  lemma {:induction false} BaseFacts(mem: map<nat, Header>, bs: seq<Blk>, used: map<nat, int>, base: nat, brk: nat)
    requires Heaped(mem, bs, used, base, brk)
    ensures IsFreeList(bs, base) && 0 < base
  {
  }

  lemma {:induction false} ListedPositive(bs: seq<Blk>, base: nat, p: nat)
    requires IsFreeList(bs, base) && Listed(bs, p) && 0 < base
    ensures p > 0
  {
  }

  lemma {:induction false} FreshHeap(mem: map<nat, Header>, base: nat, brk: nat)
    requires 0 < base < brk && base in mem && mem[base] == Header(base, 0)
    ensures Heaped(mem, [Blk(base, 0)], map[], base, brk) && Listed([Blk(base, 0)], base)
    ensures Units([Blk(base, 0)]) == 0
  {
    UnitsOne(Blk(base, 0));
    assert [Blk(base, 0)][0].addr == base;
  }

  lemma {:induction false} GrowUsed(mem: map<nat, Header>, bs: seq<Blk>, used: map<nat, int>, base: nat, brk: nat, hp: nat,
                                    n: nat)
    requires Heaped(mem, bs, used, base, brk) && brk <= hp && n > 0
    ensures hp !in used
    ensures forall x :: Heaped(mem[hp := Header(x, n)], bs, used[hp := n], base, hp + n)
  {
    hide Rep;
    forall x ensures Heaped(mem[hp := Header(x, n)], bs, used[hp := n], base, hp + n) {
      assert forall k :: 0 < k < |bs| ==> bs[k].addr != hp;
      RepFrame(mem, bs, hp, Header(x, n));
    }
  }

  /** Freed memory is found again: some entry is at least as big as the freed block. */
  lemma {:induction false} MergedFits(bs: seq<Blk>, b: Blk, bs': seq<Blk>, p: nat, n: nat)
    requires Merged(bs, b, bs', p) && n <= b.size
    ensures HasFit(bs', n)
  {
    var c: nat :| FitsAt(bs, c, b) && bs' == Merge(bs, c, b) && p == bs[c].addr;
    var k := if bs[c].End() == b.addr then c else c + 1;
    assert bs'[k].size >= b.size;
  }

  /** The ring wraps exactly once, at its highest block. */
  lemma {:induction false} OneWrap(mem: map<nat, Header>, bs: seq<Blk>, used: map<nat, int>, base: nat, brk: nat, k: nat)
    requires Heaped(mem, bs, used, base, brk) && k < |bs|
    ensures bs[k].addr in mem
    ensures mem[bs[k].addr].ptr <= bs[k].addr <==> k == |bs| - 1
  {
    NextOf(mem, bs, k);
    assert k < |bs| - 1 ==> bs[k].End() < bs[k+1].addr;
    assert k > 0 ==> bs[0].End() < bs[k].addr;
  }

  /** The rounding in malloc gives the requested bytes plus a header exactly when
      nbytes + 7 does not wrap; malloc(0xffffffff) yields a bare header. */
  lemma {:induction false} RoundingFits(nbytes: Uint)
    ensures 8 * (NUnits(nbytes) - 1) >= nbytes <==> nbytes <= 0xFFFF_FFF8
    ensures nbytes <= 0xFFFF_FFF8 ==> NUnits(nbytes) == (nbytes + 7) / 8 + 1 && 8 * (NUnits(nbytes) - 1) < nbytes + 8
    ensures NUnits(0xFFFF_FFFF) == 1
  {
    if nbytes > 0xFFFF_FFF8 {
      assert (nbytes + 8 - 1) % 0x1_0000_0000 == nbytes + 7 - 0x1_0000_0000;
    }
  }

  /** The byte count as sbrk receives it: a 32-bit product read as a signed int. */
  function SbrkArg(nu: nat): int {
    var w := nu * 8 % 0x1_0000_0000;
    if w < 0x8000_0000 then w else w - 0x1_0000_0000
  }

  /** For every block malloc can ask for, sbrk is asked for that many bytes
      exactly when the request is SbrkSafe; malloc(0xfffffff8) asks for none. */
  lemma {:induction false} SbrkAsked(nbytes: Uint)
    ensures var nu := CoreUnits(NUnits(nbytes));
            SbrkArg(nu) == 8 * nu <==> SbrkSafe(nu)
    ensures SbrkArg(CoreUnits(NUnits(0xFFFF_FFF8))) == 0
  {
  }
}
