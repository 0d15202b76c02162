/**
 * The whole of `add` as a function on store values: the k-mer is stored (merged
 * into its node when already present, attached through the neighbour scan when
 * new), then its subgraph's bounds are widened by the new observation. The
 * lemmas show the result is a consistent store and describe it exactly.
 */
module Insertion {
  import opened Optional
  import opened KmerEncoding
  import opened Intervals
  import opened DeBruijnNode
  import opened SubgraphSummary
  import opened SubgraphInvariant
  import opened Attachment

  /** The store once the k-mer's node is in place, before its subgraph is widened. */
  ghost function Stored(policy: MergePolicy, adj: Kmer -> seq<Kmer>, g0: Graph, kmer: Kmer, n: Support): Graph
  {
    if kmer in g0.kmers then
      g0.(kmers := g0.kmers[kmer := Node(MergeSupport(g0.kmers[kmer].support, n), g0.kmers[kmer].subgraph)])
    else
      AttachKmer(policy, adj, g0, kmer, n)
  }

  lemma StoredStructured(k: KmerLength, policy: MergePolicy, adj: Kmer -> seq<Kmer>, g0: Graph, kmer: Kmer, n: Support)
    requires Consistent(k, adj, g0) && SymmetricOnKmers(adj, k) && IsKmer(k, kmer)
    ensures var g := Stored(policy, adj, g0, kmer, n);
            && Structured(k, adj, g) && BoundedExcept(g, Some(kmer)) && Partitioned(adj, g) && kmer in g.kmers
            && NodeWithin(AddNode(g.summaries[RootOf(g, kmer)], n).interval, g.kmers[kmer].support)
  {
    if kmer in g0.kmers {
      StoredExisting(k, policy, adj, g0, kmer, n);
      StoredExistingPartitioned(policy, adj, g0, kmer, n);
    } else {
      AttachKmerProperties(k, adj, policy, g0, kmer, n);
      AttachKmerPartitioned(k, adj, policy, g0, kmer, n);
    }
  }

  /** `StoredStructured` for a k-mer already present. */
  lemma StoredExisting(k: KmerLength, policy: MergePolicy, adj: Kmer -> seq<Kmer>, g0: Graph, kmer: Kmer, n: Support)
    requires Consistent(k, adj, g0) && kmer in g0.kmers
    ensures var g := Stored(policy, adj, g0, kmer, n);
            && Structured(k, adj, g) && BoundedExcept(g, Some(kmer)) && kmer in g.kmers
            && NodeWithin(AddNode(g.summaries[RootOf(g, kmer)], n).interval, g.kmers[kmer].support)
  {
    SupportReplaced(k, adj, g0, kmer, MergeSupport(g0.kmers[kmer].support, n));
    SupportReplacedBounds(g0, kmer, MergeSupport(g0.kmers[kmer].support, n));
    MergedWithinWidened(g0.summaries[RootOf(g0, kmer)], g0.kmers[kmer].support, n);
  }

  lemma StoredExistingPartitioned(policy: MergePolicy, adj: Kmer -> seq<Kmer>, g0: Graph, kmer: Kmer, n: Support)
    requires RootsWellFormed(g0) && NodesAttached(g0) && Partitioned(adj, g0) && kmer in g0.kmers
    ensures var g := Stored(policy, adj, g0, kmer, n);
            RootsWellFormed(g) && NodesAttached(g) && Partitioned(adj, g)
  {
    PartitionKept(adj, g0, Stored(policy, adj, g0, kmer, n));
  }

  /** Storing replaces the k-mer's observation, merged with the old one when present, and no other node. */
  lemma StoredNodes(k: KmerLength, policy: MergePolicy, adj: Kmer -> seq<Kmer>, g0: Graph, kmer: Kmer, n: Support)
    requires Consistent(k, adj, g0) && SymmetricOnKmers(adj, k) && IsKmer(k, kmer)
    ensures var g := Stored(policy, adj, g0, kmer, n);
            var support := if kmer in g0.kmers then MergeSupport(g0.kmers[kmer].support, n) else n;
            kmer in g.kmers && g.kmers == g0.kmers[kmer := Node(support, g.kmers[kmer].subgraph)]
  {
    if kmer !in g0.kmers {
      AttachKmerProperties(k, adj, policy, g0, kmer, n);
    }
  }

  /** The store after `add(kmer, n)`: always consistent again. */
  ghost function AddKmer(k: KmerLength, policy: MergePolicy, adj: Kmer -> seq<Kmer>, g0: Graph, kmer: Kmer, n: Support): (g: Graph)
    requires Consistent(k, adj, g0) && SymmetricOnKmers(adj, k) && IsKmer(k, kmer)
    ensures Consistent(k, adj, g) && g.kmers.Keys == g0.kmers.Keys + {kmer}
  {
    var g1 := Stored(policy, adj, g0, kmer, n);
    StoredStructured(k, policy, adj, g0, kmer, n);
    StoredNodes(k, policy, adj, g0, kmer, n);
    var s := RootOf(g1, kmer);
    SummaryWidened(k, adj, g1, kmer, n);
    g1.(summaries := g1.summaries[s := AddNode(g1.summaries[s], n)])
  }

  /** Adding stores the observation at that k-mer, leaves the other nodes alone, and bounds the k-mer's subgraph by it. */
  lemma AddStoresNode(k: KmerLength, policy: MergePolicy, adj: Kmer -> seq<Kmer>, g0: Graph, kmer: Kmer, n: Support)
    requires Consistent(k, adj, g0) && SymmetricOnKmers(adj, k) && IsKmer(k, kmer)
    ensures var g := AddKmer(k, policy, adj, g0, kmer, n);
            && g.kmers.Keys == g0.kmers.Keys + {kmer}
            && (forall x | x in g0.kmers && x != kmer :: g.kmers[x] == g0.kmers[x])
            && g.kmers[kmer].support == (if kmer in g0.kmers then MergeSupport(g0.kmers[kmer].support, n) else n)
            && NodeWithin(g.summaries[RootOf(g, kmer)].interval, n)
  {
    var g1 := Stored(policy, adj, g0, kmer, n);
    StoredNodes(k, policy, adj, g0, kmer, n);
    var g := AddKmer(k, policy, adj, g0, kmer, n);
    assert g.kmers == g1.kmers && g.root == g1.root;
  }

  /** A k-mer already present keeps its subgraph; only that subgraph's bounds grow. */
  lemma AddExisting(k: KmerLength, policy: MergePolicy, adj: Kmer -> seq<Kmer>, g0: Graph, kmer: Kmer, n: Support)
    requires Consistent(k, adj, g0) && SymmetricOnKmers(adj, k) && IsKmer(k, kmer) && kmer in g0.kmers
    ensures var g := AddKmer(k, policy, adj, g0, kmer, n);
            var s := RootOf(g0, kmer);
            && g.kmers[kmer].subgraph == g0.kmers[kmer].subgraph
            && g.subgraphs == g0.subgraphs && g.root == g0.root && g.nextId == g0.nextId
            && g.summaries == g0.summaries[s := AddNode(g0.summaries[s], n)]
  {
  }

  /** A new k-mer joins every subgraph it touches into one, or starts a fresh one when it touches none. */
  lemma AddNewRoots(k: KmerLength, policy: MergePolicy, adj: Kmer -> seq<Kmer>, g0: Graph, kmer: Kmer, n: Support)
    requires Consistent(k, adj, g0) && SymmetricOnKmers(adj, k) && IsKmer(k, kmer) && kmer !in g0.kmers
    ensures var g := AddKmer(k, policy, adj, g0, kmer, n);
            var N := PresentRoots(g0, kmer, adj(kmer));
            var s := RootOf(g, kmer);
            && (forall x | x in g0.kmers :: RootOf(g, x) == if RootOf(g0, x) in N then s else RootOf(g0, x))
            && (N == {} ==> s == g0.nextId && g.subgraphs == g0.subgraphs + {s})
            && (N != {} ==> (s in N || g0.nextId <= s) && g.subgraphs == g0.subgraphs - N + {s})
  {
    var g1 := Stored(policy, adj, g0, kmer, n);
    AttachKmerRoots(k, adj, policy, g0, kmer, n);
    AttachKmerSubgraphs(k, adj, policy, g0, kmer, n);
    var g := AddKmer(k, policy, adj, g0, kmer, n);
    assert g.kmers == g1.kmers && g.root == g1.root && g.subgraphs == g1.subgraphs;
  }

  /**
   * The subgraph a new k-mer ends in is bounded exactly by the bounds of every
   * subgraph it absorbed together with the new observation: it covers each of
   * them, and any interval covering all of them covers it. A k-mer touching no
   * subgraph starts one bounded by its own observation alone.
   */
  lemma AddNewBounds(k: KmerLength, policy: MergePolicy, adj: Kmer -> seq<Kmer>, g0: Graph, kmer: Kmer, n: Support)
    requires Consistent(k, adj, g0) && SymmetricOnKmers(adj, k) && IsKmer(k, kmer) && kmer !in g0.kmers
    ensures var g := AddKmer(k, policy, adj, g0, kmer, n);
            var N := PresentRoots(g0, kmer, adj(kmer));
            var s := RootOf(g, kmer);
            && (N == {} ==> g.summaries[s] == AddNode(NewSummary(kmer), n))
            && Covers(g.summaries[s].interval, g0, N) && NodeWithin(g.summaries[s].interval, n)
            && (forall o :: Covers(o, g0, N) && NodeWithin(o, n) ==> Contains(o, g.summaries[s].interval))
  {
    var g1 := Stored(policy, adj, g0, kmer, n);
    AttachKmerSubgraphs(k, adj, policy, g0, kmer, n);
    var N := PresentRoots(g0, kmer, adj(kmer));
    var s := RootOf(g1, kmer);
    var g := AddKmer(k, policy, adj, g0, kmer, n);
    assert g == g1.(summaries := g1.summaries[s := AddNode(g1.summaries[s], n)]);
    assert RootOf(g, kmer) == s;
    forall r | r in N
      ensures r in g0.summaries && Contains(g.summaries[s].interval, g0.summaries[r].interval)
    {
      ContainsTransitive(g.summaries[s].interval, g1.summaries[s].interval, g0.summaries[r].interval);
    }
    forall o | Covers(o, g0, N) && NodeWithin(o, n)
      ensures Contains(o, g.summaries[s].interval)
    {
      assert Contains(o, g1.summaries[s].interval);
    }
  }

  /** The subgraphs a new k-mer does not touch keep their bounds. */
  lemma AddNewUntouched(k: KmerLength, policy: MergePolicy, adj: Kmer -> seq<Kmer>, g0: Graph, kmer: Kmer, n: Support)
    requires Consistent(k, adj, g0) && SymmetricOnKmers(adj, k) && IsKmer(k, kmer) && kmer !in g0.kmers
    ensures var g := AddKmer(k, policy, adj, g0, kmer, n);
            var N := PresentRoots(g0, kmer, adj(kmer));
            forall t | t in g0.subgraphs && t !in N :: t in g.summaries && g.summaries[t] == g0.summaries[t]
  {
    var g1 := Stored(policy, adj, g0, kmer, n);
    AttachKmerSubgraphs(k, adj, policy, g0, kmer, n);
    var N := PresentRoots(g0, kmer, adj(kmer));
    var s := RootOf(g1, kmer);
    var g := AddKmer(k, policy, adj, g0, kmer, n);
    assert g == g1.(summaries := g1.summaries[s := AddNode(g1.summaries[s], n)]);
    forall t | t in g0.subgraphs && t !in N
      ensures t in g.summaries && g.summaries[t] == g0.summaries[t]
    {
      assert t in g0.root && t < g0.nextId;
      assert t != s;
    }
  }
}
