/**
 * Closed genomic position intervals. `Unset` stands for the `null` minimum and
 * maximum of a node that has no position of that kind, and for a subgraph whose
 * bounds have not been set yet.
 */
module Intervals {

  datatype Interval = Unset | Span(lo: int, hi: int)

  /** `outer` covers every position bound of `inner` (nothing to cover when `inner` is unset). */
  predicate Contains(outer: Interval, inner: Interval)
  {
    inner.Unset? || (outer.Span? && outer.lo <= inner.lo && inner.hi <= outer.hi)
  }

  /** The smallest interval covering both: min of the minimums, max of the maximums. */
  function Union(a: Interval, b: Interval): (r: Interval)
    ensures Contains(r, a) && Contains(r, b)
    ensures forall o :: Contains(o, a) && Contains(o, b) ==> Contains(o, r)
    ensures r.Unset? <==> a.Unset? && b.Unset?
  {
    match (a, b)
    case (Unset, _) => b
    case (_, Unset) => a
    case (Span(l1, h1), Span(l2, h2)) =>
      Span(if l1 <= l2 then l1 else l2, if h1 >= h2 then h1 else h2)
  }

  lemma ContainsTransitive(a: Interval, b: Interval, c: Interval)
    requires Contains(a, b) && Contains(b, c)
    ensures Contains(a, c)
  {
  }

  lemma UnionCommutative(a: Interval, b: Interval)
    ensures Union(a, b) == Union(b, a)
  {
  }

  lemma UnionAssociative(a: Interval, b: Interval, c: Interval)
    ensures Union(Union(a, b), c) == Union(a, Union(b, c))
  {
  }

  lemma UnionIdempotent(a: Interval)
    ensures Union(a, a) == a
  {
  }
}
