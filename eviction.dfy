/**
 * Which subgraphs a pass of eviction removes, and the store it leaves: every
 * active subgraph wholly before the cursor or timed out goes, together with
 * every k-mer reachable from its representative k-mer.
 */
module Eviction {
  import opened KmerEncoding
  import opened Reachability
  import opened DeBruijnNode
  import opened SubgraphSummary
  import opened SubgraphInvariant

  /** The subgraphs among `ids` that may be evicted at `position`. */
  ghost function Evicted(g: Graph, ids: set<SubgraphId>, position: int, safetyWidth: int): (r: set<SubgraphId>)
    requires ids <= g.summaries.Keys
    ensures r <= ids
    ensures forall s | s in ids :: s in r <==> Evictable(g.summaries[s], position, safetyWidth)
  {
    set s | s in ids && Evictable(g.summaries[s], position, safetyWidth)
  }

  /** The k-mers left once the evicted subgraphs' reaches are removed. */
  ghost function Survivors(adj: Kmer -> seq<Kmer>, g: Graph, evicted: set<SubgraphId>): set<Kmer>
    requires evicted <= g.summaries.Keys
  {
    g.kmers.Keys - ReachUnion(adj, g.kmers.Keys, Anchors(g, evicted))
  }

  /** Evicting one more subgraph extends the evicted set by one and cuts its reach out of what is left. */
  lemma EvictOneMore(adj: Kmer -> seq<Kmer>, g: Graph, evicted: set<SubgraphId>, s: SubgraphId)
    requires evicted <= g.summaries.Keys && s in g.summaries
    ensures var rest := Survivors(adj, g, evicted);
            rest - Reach(adj, rest, g.summaries[s].anyKmer) == Survivors(adj, g, evicted + {s})
  {
    assert Anchors(g, evicted + {s}) == Anchors(g, evicted) + {g.summaries[s].anyKmer};
    ReachUnionStep(adj, g.kmers.Keys, Anchors(g, evicted), g.summaries[s].anyKmer);
  }

  /** Visiting one more subgraph adds it to the evicted set exactly when it is evictable. */
  lemma EvictedStep(g: Graph, ids: set<SubgraphId>, s: SubgraphId, position: int, safetyWidth: int)
    requires ids <= g.summaries.Keys && s in g.summaries
    ensures Evicted(g, ids + {s}, position, safetyWidth)
            == Evicted(g, ids, position, safetyWidth) + (if Evictable(g.summaries[s], position, safetyWidth) then {s} else {})
  {
  }

  /**
   * Every k-mer of an evicted subgraph is gone, and the survivors are stored k-mers
   * none of whose reaches was cut. Since subgraphs are the components of the store,
   * the survivors are exactly the k-mers of the subgraphs not evicted.
   */
  lemma EvictedGone(k: KmerLength, adj: Kmer -> seq<Kmer>, g: Graph, evicted: set<SubgraphId>)
    requires Consistent(k, adj, g) && evicted <= g.subgraphs
    ensures forall x | x in g.kmers && RootOf(g, x) in evicted :: x !in Survivors(adj, g, evicted)
    ensures forall x | x in Survivors(adj, g, evicted) ::
              x in g.kmers && forall s | s in evicted :: x !in Reach(adj, g.kmers.Keys, g.summaries[s].anyKmer)
    ensures Survivors(adj, g, evicted) == set x | x in g.kmers && RootOf(g, x) !in evicted
  {
    ReachUnionExact(k, adj, g, evicted);
    forall x | x in g.kmers && RootOf(g, x) in evicted
      ensures x !in Survivors(adj, g, evicted)
    {
      var a := g.summaries[RootOf(g, x)].anyKmer;
      assert a in Anchors(g, evicted);
      assert x in Reach(adj, g.kmers.Keys, a);
    }
    forall x, s | x in Survivors(adj, g, evicted) && s in evicted
      ensures x !in Reach(adj, g.kmers.Keys, g.summaries[s].anyKmer)
    {
      assert g.summaries[s].anyKmer in Anchors(g, evicted);
    }
  }
}
