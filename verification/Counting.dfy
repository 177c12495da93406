/** Sizes of finite sets of numbers. */
module Counting {

  predicate Within(a: nat, x: nat, b: nat) { a <= x < b }

  /** The numbers from a up to b. */
  ghost function Span(a: nat, b: nat): set<nat> { set x | 0 <= x < b && Within(a, x, b) }

  lemma {:induction false} SpanSize(a: nat, b: nat)
    requires a <= b
    ensures |Span(a, b)| == b - a
  {
    if a == b {
      assert Span(a, b) == {};
    } else {
      SpanSize(a, b - 1);
      assert Span(a, b) == Span(a, b - 1) + {b - 1};
    }
  }

  lemma {:induction false} SubsetSize(a: set<nat>, b: set<nat>)
    requires a <= b
    ensures |a| <= |b| && (|a| == |b| ==> a == b)
  {
    assert b == a + (b - a);
  }

  lemma {:induction false} MissingOne(a: set<nat>, b: set<nat>)
    requires |a| < |b|
    ensures exists x :: x in b && x !in a
  {
    if b <= a { SubsetSize(b, a); }
  }
}
