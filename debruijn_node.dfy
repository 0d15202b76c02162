/**
 * The per-k-mer aggregate the store keeps: what every observation of the k-mer
 * contributed (reference flag, position bounds, supporting evidence), and the
 * subgraph the node was attached to when it was first inserted.
 */
module DeBruijnNode {
  import opened Intervals

  /** Opaque identifier of a piece of supporting evidence (a read, a read pair, a soft clip). */
  type EvidenceId = nat

  /** Index of a subgraph summary in the subgraph arena. */
  type SubgraphId = nat

  datatype Support = Support(
    isReference: bool,
    bestReferencePosition: int,
    referenceRange: Interval,   // min/max reference position, Unset when null
    mateRange: Interval,        // min/max mate position, Unset when null
    evidence: set<EvidenceId>)

  datatype Node = Node(support: Support, subgraph: SubgraphId)

  /**
   * Adds a further observation of the same k-mer to its aggregate: the bounds
   * widen to cover both, the evidence sets are joined, and the k-mer is a
   * reference k-mer when either observation was.
   */
  function MergeSupport(a: Support, b: Support): (r: Support)
    ensures Contains(r.referenceRange, a.referenceRange) && Contains(r.referenceRange, b.referenceRange)
    ensures Contains(r.mateRange, a.mateRange) && Contains(r.mateRange, b.mateRange)
    ensures forall o :: Contains(o, a.referenceRange) && Contains(o, b.referenceRange) ==> Contains(o, r.referenceRange)
    ensures forall o :: Contains(o, a.mateRange) && Contains(o, b.mateRange) ==> Contains(o, r.mateRange)
    ensures r.evidence == a.evidence + b.evidence
    ensures r.isReference <==> a.isReference || b.isReference
    ensures a.isReference ==> r.bestReferencePosition == a.bestReferencePosition
  {
    Support(
      a.isReference || b.isReference,
      if a.isReference then a.bestReferencePosition else b.bestReferencePosition,
      Union(a.referenceRange, b.referenceRange),
      Union(a.mateRange, b.mateRange),
      a.evidence + b.evidence)
  }
}
