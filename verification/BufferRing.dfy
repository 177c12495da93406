/** The doubly linked list of bio.c: prev/next links through the buffer array. */
module BufferRing {
  import opened Counting

  datatype Buf<T> = Buf(busy: bool, valid: bool, dirty: bool, dev: int, blockno: nat, data: T, prev: nat, next: nat)

  /** Consecutive entries of p point at each other. */
  predicate Linked<T>(bufs: seq<Buf<T>>, p: seq<nat>) {
    && (forall k :: 0 <= k < |p| ==> p[k] < |bufs|)
    && (forall k :: 0 <= k < |p| - 1 ==> bufs[p[k]].next == p[k+1])
    && (forall k :: 0 < k < |p| ==> bufs[p[k]].prev == p[k-1])
  }

  /** The list: head, then each of the n buffers once, then head again. */
  predicate IsRing(order: seq<nat>, n: nat) {
    && |order| == n
    && (forall k :: 0 <= k < n ==> order[k] < n)
    && (forall j, k :: 0 <= j < k < n ==> order[j] != order[k])
  }

  function Path(order: seq<nat>, head: nat): (p: seq<nat>) { [head] + order + [head] }

  predicate Ring<T>(bufs: seq<Buf<T>>, order: seq<nat>) {
    |bufs| > 0 && IsRing(order, |bufs| - 1) && Linked(bufs, Path(order, |bufs| - 1))
  }

  function SetPrev<T>(bufs: seq<Buf<T>>, i: nat, v: nat): seq<Buf<T>>
    requires i < |bufs|
  { bufs[i := bufs[i].(prev := v)] }

  function SetNext<T>(bufs: seq<Buf<T>>, i: nat, v: nat): seq<Buf<T>>
    requires i < |bufs|
  { bufs[i := bufs[i].(next := v)] }

  /** Take buffer i out of the list: its neighbours now point past it. */
  function Unlink<T>(bufs: seq<Buf<T>>, i: nat): seq<Buf<T>>
    requires i < |bufs| && bufs[i].next < |bufs| && bufs[i].prev < |bufs|
  { SetNext(SetPrev(bufs, bufs[i].next, bufs[i].prev), bufs[i].prev, bufs[i].next) }

  /** Insert buffer i right after the head. */
  function Push<T>(bufs: seq<Buf<T>>, i: nat): seq<Buf<T>>
    requires i < |bufs| && bufs[|bufs|-1].next < |bufs|
  {
    var h := |bufs| - 1;
    var n := bufs[h].next;
    SetNext(SetPrev(SetPrev(SetNext(bufs, i, n), i, h), n, i), h, i)
  }

  /** The same buffer, possibly with other links. */
  ghost predicate SameButLinks<T>(a: Buf<T>, b: Buf<T>) {
    b == a.(prev := b.prev, next := b.next)
  }

  ghost predicate SameContents<T>(a: seq<Buf<T>>, b: seq<Buf<T>>) {
    |a| == |b| && forall j :: 0 <= j < |a| ==> SameButLinks(a[j], b[j])
  }

  lemma {:induction false} SameTrans<T>(a: seq<Buf<T>>, b: seq<Buf<T>>, c: seq<Buf<T>>)
    requires SameContents(a, b) && SameContents(b, c)
    ensures SameContents(a, c)
  {
  }

  lemma {:induction false} SetPrevSame<T>(a: seq<Buf<T>>, b: seq<Buf<T>>, i: nat, v: nat)
    requires SameContents(a, b) && i < |b|
    ensures SameContents(a, SetPrev(b, i, v))
  {
  }

  lemma {:induction false} SetNextSame<T>(a: seq<Buf<T>>, b: seq<Buf<T>>, i: nat, v: nat)
    requires SameContents(a, b) && i < |b|
    ensures SameContents(a, SetNext(b, i, v))
  {
  }

  lemma {:induction false} UnlinkSame<T>(bufs: seq<Buf<T>>, i: nat)
    requires i < |bufs| && bufs[i].next < |bufs| && bufs[i].prev < |bufs|
    ensures SameContents(bufs, Unlink(bufs, i))
  {
    var n, p := bufs[i].next, bufs[i].prev;
    SetPrevSame(bufs, bufs, n, p);
    SetNextSame(bufs, SetPrev(bufs, n, p), p, n);
  }

  /** Relinking touches no flag, name or data. */
  lemma {:induction false} PushSame<T>(a: seq<Buf<T>>, bufs: seq<Buf<T>>, i: nat)
    requires SameContents(a, bufs) && i < |bufs| && bufs[|bufs|-1].next < |bufs|
    ensures SameContents(a, Push(bufs, i))
  {
    var h := |bufs| - 1;
    var n := bufs[h].next;
    SetNextSame(a, bufs, i, n);
    var b1 := SetNext(bufs, i, n);
    SetPrevSame(a, b1, i, h);
    var b2 := SetPrev(b1, i, h);
    SetPrevSame(a, b2, n, i);
    SetNextSame(a, SetPrev(b2, n, i), h, i);
  }

  function Without(order: seq<nat>, k: nat): seq<nat>
    requires k < |order|
  { order[..k] + order[k+1..] }

  /** brelse's first two assignments take a buffer out of the list. */
  lemma {:induction false} UnlinkKeeps<T>(bufs: seq<Buf<T>>, order: seq<nat>, k: nat)
    requires Ring(bufs, order) && k < |order|
    ensures var b := bufs[order[k]];
            b.next < |bufs| && b.prev < |bufs|
            && Linked(Unlink(bufs, order[k]), Path(Without(order, k), |bufs| - 1))
  {
    var h := |bufs| - 1;
    var p, q := Path(order, h), Path(Without(order, k), h);
    assert p[k+1] == order[k];
    PathDistinct(order, h);
    assert forall m :: 0 <= m <= k ==> q[m] == p[m];
    assert forall m :: k < m < |q| ==> q[m] == p[m+1];
    hide Path, IsRing;
    Bypass(bufs, p, q, k);
  }

  /** Entry k + 1 of a path taken out: its neighbours point at each other. */
  lemma {:induction false} Bypass<T>(bufs: seq<Buf<T>>, p: seq<nat>, q: seq<nat>, k: nat)
    requires Linked(bufs, p) && k + 2 < |p| && |q| == |p| - 1
    requires (forall m :: 0 <= m <= k ==> q[m] == p[m]) && (forall m :: k < m < |q| ==> q[m] == p[m+1])
    requires forall a, b :: 0 <= a < b < |p| - 1 ==> p[a] != p[b]
    requires forall a, b :: 1 <= a < b < |p| ==> p[a] != p[b]
    ensures bufs[p[k+1]].next == p[k+2] && bufs[p[k+1]].prev == p[k] && Linked(Unlink(bufs, p[k+1]), q)
  {
    assert bufs[p[k+1]].next == p[k+1+1] && bufs[p[k+1]].prev == p[k+1-1];
    var c := Unlink(bufs, p[k+1]);
    forall m | 0 <= m < |q| - 1 ensures c[q[m]].next == q[m+1] {
      if m < k { assert p[m] != p[k]; } else if m > k { assert p[m+1] != p[k]; }
    }
    forall m | 0 < m < |q| ensures c[q[m]].prev == q[m-1] {
      if m <= k { assert p[m] != p[k+2]; } else if m > k+1 { assert p[m+1] != p[k+2]; }
    }
  }

  lemma {:induction false} PathDistinct(order: seq<nat>, h: nat)
    requires IsRing(order, h)
    ensures var p := Path(order, h);
            && (forall a, b :: 0 <= a < b < |p| - 1 ==> p[a] != p[b])
            && (forall a, b :: 1 <= a < b < |p| ==> p[a] != p[b])
  {
  }

  /** brelse's other assignments put it back right after the head. */
  lemma {:induction false} PushKeeps<T>(bufs: seq<Buf<T>>, rest: seq<nat>, i: nat)
    requires |bufs| > 0 && Linked(bufs, Path(rest, |bufs| - 1)) && i < |bufs| - 1 && i !in rest
    requires forall k :: 0 <= k < |rest| ==> rest[k] < |bufs| - 1
    ensures bufs[|bufs|-1].next < |bufs| && Linked(Push(bufs, i), Path([i] + rest, |bufs| - 1))
  {
    var h := |bufs| - 1;
    var p := Path(rest, h);
    var q := Path([i] + rest, h);
    assert p[0] == h && bufs[h].next == p[1];
    var n := p[1];
    var c := Push(bufs, i);
    assert forall m :: 2 <= m < |q| ==> q[m] == p[m-1];
    forall m | 0 <= m < |q| - 1 ensures c[q[m]].next == q[m+1] {
      if m >= 2 { assert q[m] == p[m-1] && q[m+1] == p[m]; }
    }
    forall m | 0 < m < |q| ensures c[q[m]].prev == q[m-1] {
      if m >= 3 { assert q[m] == p[m-1] && q[m-1] == p[m-2]; }
    }
  }

  /** The list order with entry k moved to the front. */
  function Front(order: seq<nat>, k: nat): seq<nat>
    requires k < |order|
  { [order[k]] + Without(order, k) }

  lemma {:induction false} FrontIsRing(order: seq<nat>, n: nat, k: nat)
    requires IsRing(order, n) && k < n
    ensures IsRing(Front(order, k), n) && Front(order, k)[0] == order[k] && order[k] !in Without(order, k)
    ensures forall m :: 0 <= m < |Without(order, k)| ==> Without(order, k)[m] < n
    ensures multiset(Front(order, k)) == multiset(order) && Front(order, k) == [order[k]] + Without(order, k)
  {
    var q := Without(order, k);
    assert order == order[..k] + [order[k]] + order[k+1..];
    assert forall m :: 0 <= m < |q| ==> q[m] == if m < k then order[m] else order[m+1];
  }

  /** Buffer a stands before buffer b in the list. */
  ghost predicate Before(order: seq<nat>, a: nat, b: nat) {
    exists j, k :: 0 <= j < k < |order| && order[j] == a && order[k] == b
  }

  /** Moving a buffer to the front leaves the order of the others. */
  lemma {:induction false} FrontOrder(order: seq<nat>, k: nat, a: nat, b: nat)
    requires k < |order| && a != order[k] && b != order[k]
    ensures Before(Front(order, k), a, b) <==> Before(order, a, b)
  {
    hide Front;
    var q := Front(order, k);
    if Before(order, a, b) {
      var i, j :| 0 <= i < j < |order| && order[i] == a && order[j] == b;
      var i', j' := if i < k then i + 1 else i, if j < k then j + 1 else j;
      FrontAt(order, k, i');
      FrontAt(order, k, j');
      assert q[i'] == a && q[j'] == b && i' < j';
    }
    if Before(q, a, b) {
      FrontAt(order, k, 0);
      var i, j :| 0 <= i < j < |q| && q[i] == a && q[j] == b;
      FrontAt(order, k, i);
      FrontAt(order, k, j);
      var i', j' := if i <= k then i - 1 else i, if j <= k then j - 1 else j;
      assert i > 0 && order[i'] == a && order[j'] == b && i' < j';
    }
  }

  lemma {:induction false} FrontAt(order: seq<nat>, k: nat, m: nat)
    requires k < |order| && m < |order|
    ensures |Front(order, k)| == |order|
    ensures Front(order, k)[m] == if m == 0 then order[k] else if m <= k then order[m - 1] else order[m]
  {
  }

  /** When buffer b was last released, counting the releases rs; -1 if never. */
  function LastRelease(rs: seq<nat>, b: nat): (t: int)
    ensures -1 <= t < |rs| && (t >= 0 ==> rs[t] == b) && forall u :: t < u < |rs| ==> rs[u] != b
  {
    if rs == [] then -1 else if rs[|rs| - 1] == b then |rs| - 1 else LastRelease(rs[..|rs| - 1], b)
  }

  /** The list goes from the most to the least recently released buffer; those never released are last. */
  ghost predicate Recent(order: seq<nat>, rs: seq<nat>) {
    forall j, k :: 0 <= j < k < |order| ==>
      LastRelease(rs, order[k]) < LastRelease(rs, order[j]) || LastRelease(rs, order[k]) == -1
  }

  lemma {:induction false} FrontRecent(order: seq<nat>, n: nat, rs: seq<nat>, k: nat)
    requires IsRing(order, n) && k < n && Recent(order, rs)
    ensures Recent(Front(order, k), rs + [order[k]])
  {
    hide LastRelease, Front;
    var q, rs' := Front(order, k), rs + [order[k]];
    FrontAt(order, k, 0);
    forall i, j | 0 <= i < j < |q| ensures LastRelease(rs', q[j]) < LastRelease(rs', q[i]) || LastRelease(rs', q[j]) == -1 {
      FrontAt(order, k, i);
      FrontAt(order, k, j);
      OneMore(rs, order[k], q[i]);
      OneMore(rs, order[k], q[j]);
      var j' := if j <= k then j - 1 else j;
      assert q[j] == order[j'] != order[k];
      if i > 0 {
        var i' := if i <= k then i - 1 else i;
        assert q[i] == order[i'] && i' < j';
      }
    }
  }

  lemma {:induction false} OneMore(rs: seq<nat>, i: nat, b: nat)
    ensures LastRelease(rs + [i], b) == if b == i then |rs| else LastRelease(rs, b)
    ensures LastRelease(rs, b) < |rs|
  {
    assert (rs + [i])[..|rs|] == rs;
  }

  /** Where buffer i stands in the list. */
  lemma {:induction false} PlaceOf(order: seq<nat>, n: nat, i: nat) returns (k: nat)
    requires IsRing(order, n) && i < n
    ensures k < n == |order| && order[k] == i
  {
    OnList(order, n, i);
    k :| 0 <= k < n && order[k] == i;
  }

  /** Every buffer is somewhere on the list. */
  lemma {:induction false} OnList(order: seq<nat>, n: nat, i: nat)
    requires IsRing(order, n) && i < n
    ensures i in order
  {
    if i !in order {
      SpanSize(0, n);
      Pigeonhole(order, Span(0, n) - {i});
    }
  }

  lemma {:induction false} Pigeonhole(s: seq<nat>, box: set<nat>)
    requires forall k :: 0 <= k < |s| ==> s[k] in box
    requires forall j, k :: 0 <= j < k < |s| ==> s[j] != s[k]
    ensures |s| <= |box|
  {
    if s != [] {
      Pigeonhole(s[1..], box - {s[0]});
    }
  }
}
