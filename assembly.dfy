/**
 * Contig extraction as a function of the store: the path-graph assembler is a
 * parameter that yields the contigs of one subgraph; each contig resolves to at
 * most one call, and the calls of a pass are those of every subgraph that is
 * wholly before the cursor and not timed out, in the order the subgraphs are
 * visited.
 */
module Assembly {
  import opened Optional
  import opened KmerEncoding
  import opened DeBruijnNode
  import opened SubgraphSummary
  import opened Anchoring
  import opened SubgraphInvariant

  /** Whether and how the path graph is simplified before contigs are extracted. */
  datatype CollapseRequest = NoCollapse | Collapse(maxBaseMismatch: nat, bubblesOnly: bool)

  /**
   * What the path-graph assembler gives back: whether simplification hit its
   * safety limit (which only decides debugging output), and the contigs.
   */
  datatype PathGraphAssembly = PathGraphAssembly(safetyLimitExceeded: bool, contigs: seq<seq<Kmer>>)

  /** Builds the path graph of the subgraph holding the given k-mer, simplifies it as requested, and extracts contigs. */
  type PathGraphAssembler = (Store, Kmer, CollapseRequest) -> PathGraphAssembly

  /** The assembler only walks the graph it is given: every contig k-mer is in the store. */
  ghost predicate ContigsInStore(assembler: PathGraphAssembler)
  {
    forall store, anyKmer, request, i, j
      | 0 <= i < |assembler(store, anyKmer, request).contigs| && 0 <= j < |assembler(store, anyKmer, request).contigs[i]|
      :: assembler(store, anyKmer, request).contigs[i][j] in store
  }

  /** No subgraph id occurs twice. */
  predicate DistinctIds(order: seq<SubgraphId>)
  {
    forall i, j | 0 <= i < j < |order| :: order[i] != order[j]
  }

  /** The aggregates of the path's k-mers, in path order. */
  function PathSupport(store: Store, path: seq<Kmer>): (r: seq<Support>)
    requires forall i | 0 <= i < |path| :: path[i] in store
    ensures |r| == |path| && forall i | 0 <= i < |path| :: r[i] == store[path[i]].support
  {
    if path == [] then [] else PathSupport(store, path[..|path| - 1]) + [store[path[|path| - 1]].support]
  }

  ghost predicate AllInStore(store: Store, contigs: seq<seq<Kmer>>)
  {
    forall i, j | 0 <= i < |contigs| && 0 <= j < |contigs[i]| :: contigs[i][j] in store
  }

  /** The call one contig resolves to, if any. */
  function ContigCall(store: Store, contig: seq<Kmer>, k: KmerLength, direction: Direction, referenceIndex: int): Option<Call>
    requires forall j | 0 <= j < |contig| :: contig[j] in store
  {
    ResolveContig(PathSupport(store, contig), contig, k, direction, referenceIndex)
  }

  /** The calls present among the resolutions, in order. */
  function Present(rs: seq<Option<Call>>): seq<Call>
  {
    if rs == [] then []
    else
      var last := rs[|rs| - 1];
      Present(rs[..|rs| - 1]) + if last.Some? then [last.value] else []
  }

  /** A call is present exactly when one of the resolutions is that call. */
  lemma {:induction false} PresentExact(rs: seq<Option<Call>>)
    ensures forall c :: c in Present(rs) <==> exists i | 0 <= i < |rs| :: rs[i] == Some(c)
  {
    if rs != [] {
      var init := rs[..|rs| - 1];
      PresentExact(init);
      assert forall i | 0 <= i < |init| :: init[i] == rs[i];
    }
  }

  /** What each contig resolves to, in contig order. */
  ghost function Resolutions(store: Store, contigs: seq<seq<Kmer>>, k: KmerLength, direction: Direction, referenceIndex: int)
    : (rs: seq<Option<Call>>)
    requires AllInStore(store, contigs)
    ensures |rs| == |contigs| && forall i | 0 <= i < |contigs| :: rs[i] == ContigCall(store, contigs[i], k, direction, referenceIndex)
  {
    seq(|contigs|, i requires 0 <= i < |contigs| => ContigCall(store, contigs[i], k, direction, referenceIndex))
  }

  /** The calls the contigs resolve to, in contig order; a contig without an anchor gives none. */
  ghost function ContigCalls(store: Store, contigs: seq<seq<Kmer>>, k: KmerLength, direction: Direction, referenceIndex: int): seq<Call>
    requires AllInStore(store, contigs)
  {
    Present(Resolutions(store, contigs, k, direction, referenceIndex))
  }

  /** A call is among the contigs' calls exactly when one of the contigs resolves to it. */
  lemma ContigCallsExact(store: Store, contigs: seq<seq<Kmer>>, k: KmerLength, direction: Direction, referenceIndex: int)
    requires AllInStore(store, contigs)
    ensures forall c :: c in ContigCalls(store, contigs, k, direction, referenceIndex) <==>
                          exists i | 0 <= i < |contigs| :: ContigCall(store, contigs[i], k, direction, referenceIndex) == Some(c)
  {
    var rs := Resolutions(store, contigs, k, direction, referenceIndex);
    PresentExact(rs);
  }

  /**
   * The calls of one pass over the subgraphs of `order`, in that order: a subgraph
   * wholly before `position` and not timed out contributes the calls of its contigs.
   */
  ghost function AssembledCalls(store: Store, summaries: map<SubgraphId, Summary>, order: seq<SubgraphId>,
                                assembler: PathGraphAssembler, request: CollapseRequest, position: int, safetyWidth: int,
                                k: KmerLength, direction: Direction, referenceIndex: int): seq<Call>
    requires ContigsInStore(assembler) && forall i | 0 <= i < |order| :: order[i] in summaries
  {
    if order == [] then []
    else
      var s := summaries[order[|order| - 1]];
      AssembledCalls(store, summaries, order[..|order| - 1], assembler, request, position, safetyWidth, k, direction, referenceIndex)
      + if Assemblable(s, position, safetyWidth)
        then ContigCalls(store, assembler(store, s.anyKmer, request).contigs, k, direction, referenceIndex)
        else []
  }

  /**
   * A call is assembled exactly when it comes from a contig of a subgraph of the
   * pass that lies wholly before the cursor and has not timed out.
   */
  lemma AssembledCallsExact(store: Store, summaries: map<SubgraphId, Summary>, order: seq<SubgraphId>,
                            assembler: PathGraphAssembler, request: CollapseRequest, position: int, safetyWidth: int,
                            k: KmerLength, direction: Direction, referenceIndex: int)
    requires ContigsInStore(assembler) && forall i | 0 <= i < |order| :: order[i] in summaries
    ensures forall c :: c in AssembledCalls(store, summaries, order, assembler, request, position, safetyWidth, k, direction, referenceIndex)
                        <==> exists i | 0 <= i < |order| ::
                               && Assemblable(summaries[order[i]], position, safetyWidth)
                               && c in ContigCalls(store, assembler(store, summaries[order[i]].anyKmer, request).contigs, k, direction, referenceIndex)
  {
    forall c {
      AssembledCallMember(store, summaries, order, assembler, request, position, safetyWidth, k, direction, referenceIndex, c);
    }
  }

  /** One call at a time: `c` is assembled exactly when a visited assemblable subgraph's contigs yield it. */
  lemma {:induction false} AssembledCallMember(store: Store, summaries: map<SubgraphId, Summary>, order: seq<SubgraphId>,
                                              assembler: PathGraphAssembler, request: CollapseRequest, position: int, safetyWidth: int,
                                              k: KmerLength, direction: Direction, referenceIndex: int, c: Call)
    requires ContigsInStore(assembler) && forall i | 0 <= i < |order| :: order[i] in summaries
    ensures c in AssembledCalls(store, summaries, order, assembler, request, position, safetyWidth, k, direction, referenceIndex)
            <==> exists i | 0 <= i < |order| ::
                   && Assemblable(summaries[order[i]], position, safetyWidth)
                   && c in ContigCalls(store, assembler(store, summaries[order[i]].anyKmer, request).contigs, k, direction, referenceIndex)
  {
    if order != [] {
      var init := order[..|order| - 1];
      AssembledCallMember(store, summaries, init, assembler, request, position, safetyWidth, k, direction, referenceIndex, c);
      assert forall i | 0 <= i < |init| :: init[i] == order[i];
    }
  }

  /** No call of a pass comes from a subgraph reaching `position` or beyond. */
  lemma AssembledOnlyBefore(store: Store, summaries: map<SubgraphId, Summary>, order: seq<SubgraphId>,
                            assembler: PathGraphAssembler, request: CollapseRequest, position: int, safetyWidth: int,
                            k: KmerLength, direction: Direction, referenceIndex: int, c: Call)
    requires ContigsInStore(assembler) && forall i | 0 <= i < |order| :: order[i] in summaries
    requires c in AssembledCalls(store, summaries, order, assembler, request, position, safetyWidth, k, direction, referenceIndex)
    ensures exists i | 0 <= i < |order| ::
              && summaries[order[i]].interval.Span? && summaries[order[i]].interval.hi < position
              && c in ContigCalls(store, assembler(store, summaries[order[i]].anyKmer, request).contigs, k, direction, referenceIndex)
  {
    AssembledCallsExact(store, summaries, order, assembler, request, position, safetyWidth, k, direction, referenceIndex);
  }
}
