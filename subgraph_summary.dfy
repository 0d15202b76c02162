/**
 * The descriptor of one connected subgraph: its bounding interval over the
 * reference and mate positions of its nodes, and one k-mer of it from which the
 * whole component can be traversed.
 */
module SubgraphSummary {
  import opened Intervals
  import opened KmerEncoding
  import opened DeBruijnNode

  datatype Summary = Summary(interval: Interval, anyKmer: Kmer)

  /** A fresh singleton subgraph for `kmer`; its bounds are not set yet. */
  function NewSummary(kmer: Kmer): (r: Summary)
    ensures r.interval.Unset? && r.anyKmer == kmer
  {
    Summary(Unset, kmer)
  }

  /** Widens the bounds by a node's reference and mate position ranges, and by no more. */
  function AddNode(s: Summary, n: Support): (r: Summary)
    ensures r.anyKmer == s.anyKmer
    ensures Contains(r.interval, s.interval)
    ensures Contains(r.interval, n.referenceRange) && Contains(r.interval, n.mateRange)
    ensures forall o :: Contains(o, s.interval) && Contains(o, n.referenceRange) && Contains(o, n.mateRange)
                        ==> Contains(o, r.interval)
  {
    s.(interval := Union(Union(s.interval, n.referenceRange), n.mateRange))
  }

  /**
   * The merged descriptor: its interval is the least one covering both, and it is
   * represented by the k-mer of the summary chosen to keep its own.
   */
  function Merge(a: Summary, b: Summary, keepFirstKmer: bool): (r: Summary)
    ensures Contains(r.interval, a.interval) && Contains(r.interval, b.interval)
    ensures forall o :: Contains(o, a.interval) && Contains(o, b.interval) ==> Contains(o, r.interval)
    ensures r.interval.Unset? <==> a.interval.Unset? && b.interval.Unset?
    ensures r.anyKmer == a.anyKmer || r.anyKmer == b.anyKmer
    ensures keepFirstKmer ==> r.anyKmer == a.anyKmer
    ensures !keepFirstKmer ==> r.anyKmer == b.anyKmer
  {
    Summary(Union(a.interval, b.interval), if keepFirstKmer then a.anyKmer else b.anyKmer)
  }

  /** The subgraph spans more than the safety width: a runaway repeat region. */
  predicate ExceedsTimeout(s: Summary, safetyWidth: int)
  {
    s.interval.Span? && s.interval.hi - s.interval.lo > safetyWidth
  }

  /** Every position of the subgraph lies strictly before `position`. */
  predicate Before(s: Summary, position: int)
  {
    s.interval.Span? && s.interval.hi < position
  }

  /** The subgraph may be assembled now: wholly before the cursor and not timed out. */
  predicate Assemblable(s: Summary, position: int, safetyWidth: int)
  {
    Before(s, position) && !ExceedsTimeout(s, safetyWidth)
  }

  /** The subgraph may be evicted now: wholly before the cursor, or timed out wherever it lies. */
  predicate Evictable(s: Summary, position: int, safetyWidth: int)
  {
    Before(s, position) || ExceedsTimeout(s, safetyWidth)
  }

  /**
   * A subgraph assembled at a position is evicted at that position too, and one
   * evicted without being assembled is exactly one that timed out.
   */
  lemma TimeoutSeparatesAssemblyFromEviction(s: Summary, position: int, safetyWidth: int)
    ensures Assemblable(s, position, safetyWidth) ==> Evictable(s, position, safetyWidth)
    ensures Evictable(s, position, safetyWidth) && !Assemblable(s, position, safetyWidth) <==> ExceedsTimeout(s, safetyWidth)
  {
  }
}
