/**
 * The state of the subgraph engine as a value, the consistency it keeps, and one
 * lemma per state transition showing the transition keeps it. The class in
 * DeBruijnReadGraph performs the transitions on its fields and appeals to these
 * lemmas.
 */
module SubgraphInvariant {
  import opened Optional
  import opened KmerEncoding
  import opened Intervals
  import opened Reachability
  import opened DeBruijnNode
  import opened SubgraphSummary

  type Store = map<Kmer, Node>

  /**
   * The k-mer store, the active (root) subgraphs, the summary arena, the
   * compressed union-find over it, and the next unused summary index.
   */
  datatype Graph = Graph(
    kmers: Store,
    subgraphs: set<SubgraphId>,
    summaries: map<SubgraphId, Summary>,
    root: map<SubgraphId, SubgraphId>,
    nextId: SubgraphId)

  /** Every allocated summary resolves in one step to a root, which resolves to itself. */
  ghost predicate RootsWellFormed(g: Graph)
  {
    && g.summaries.Keys == g.root.Keys
    && (forall i | i in g.root :: i < g.nextId && g.root[i] in g.root && g.root[g.root[i]] == g.root[i])
  }

  /** Only root subgraphs are active. */
  ghost predicate ActiveAreRoots(g: Graph)
  {
    forall s | s in g.subgraphs :: s in g.root && g.root[s] == s
  }

  /** Every stored k-mer's subgraph is in the active set. */
  ghost predicate NodesAttached(g: Graph)
  {
    forall x | x in g.kmers :: g.kmers[x].subgraph in g.root && g.root[g.kmers[x].subgraph] in g.subgraphs
  }

  /** The subgraph a stored k-mer belongs to. */
  ghost function RootOf(g: Graph, x: Kmer): SubgraphId
    requires x in g.kmers && g.kmers[x].subgraph in g.root
  {
    g.root[g.kmers[x].subgraph]
  }

  ghost predicate KmersEncoded(k: KmerLength, g: Graph)
  {
    forall x | x in g.kmers :: IsKmer(k, x)
  }

  /** Every stored k-mer is reachable from its subgraph's representative k-mer. */
  ghost predicate NodesConnected(adj: Kmer -> seq<Kmer>, g: Graph)
    requires RootsWellFormed(g) && NodesAttached(g)
  {
    forall x | x in g.kmers :: x in Reach(adj, g.kmers.Keys, g.summaries[RootOf(g, x)].anyKmer)
  }

  predicate NodeWithin(interval: Interval, n: Support)
  {
    Contains(interval, n.referenceRange) && Contains(interval, n.mateRange)
  }

  /** Every node's position ranges lie within its subgraph's interval; a k-mer being inserted is exempt. */
  ghost predicate BoundedExcept(g: Graph, pending: Option<Kmer>)
    requires RootsWellFormed(g) && NodesAttached(g)
  {
    forall x | x in g.kmers && pending != Some(x) :: NodeWithin(g.summaries[RootOf(g, x)].interval, g.kmers[x].support)
  }

  ghost predicate Structured(k: KmerLength, adj: Kmer -> seq<Kmer>, g: Graph)
  {
    RootsWellFormed(g) && ActiveAreRoots(g) && NodesAttached(g) && KmersEncoded(k, g) && NodesConnected(adj, g)
  }

  /** No stored adjacency links two subgraphs: stored neighbours always share one. */
  ghost predicate Separated(adj: Kmer -> seq<Kmer>, g: Graph)
    requires RootsWellFormed(g) && NodesAttached(g)
  {
    forall x, i | x in g.kmers && 0 <= i < |adj(x)| && adj(x)[i] in g.kmers :: RootOf(g, x) == RootOf(g, adj(x)[i])
  }

  /** Every active subgraph's representative k-mer is a stored member of that subgraph. */
  ghost predicate AnchorsInside(g: Graph)
    requires RootsWellFormed(g) && NodesAttached(g)
  {
    forall s | s in g.subgraphs ::
      s in g.summaries && g.summaries[s].anyKmer in g.kmers && RootOf(g, g.summaries[s].anyKmer) == s
  }

  /** The subgraphs are the connected components of the store, each holding its representative. */
  ghost predicate Partitioned(adj: Kmer -> seq<Kmer>, g: Graph)
    requires RootsWellFormed(g) && NodesAttached(g)
  {
    Separated(adj, g) && AnchorsInside(g)
  }

  ghost predicate Consistent(k: KmerLength, adj: Kmer -> seq<Kmer>, g: Graph)
  {
    Structured(k, adj, g) && BoundedExcept(g, None) && Partitioned(adj, g)
  }

  /** `o` covers the interval of every subgraph among `ids`. */
  ghost predicate Covers(o: Interval, g: Graph, ids: set<SubgraphId>)
  {
    forall r | r in ids :: r in g.summaries && Contains(o, g.summaries[r].interval)
  }

  /** Adjacency between encoded k-mers goes both ways. */
  ghost predicate SymmetricOnKmers(adj: Kmer -> seq<Kmer>, k: KmerLength)
  {
    forall x, i | IsKmer(k, x) && 0 <= i < |adj(x)| && IsKmer(k, adj(x)[i]) :: x in adj(adj(x)[i])
  }

  /** The subgraphs of the stored k-mers among `ys`, other than `kmer` itself. */
  ghost function PresentRoots(g: Graph, kmer: Kmer, ys: seq<Kmer>): (r: set<SubgraphId>)
    requires NodesAttached(g)
    ensures r <= g.subgraphs
    ensures forall i | 0 <= i < |ys| && ys[i] != kmer && ys[i] in g.kmers :: RootOf(g, ys[i]) in r
    ensures forall s | s in r :: exists i | 0 <= i < |ys| :: ys[i] != kmer && ys[i] in g.kmers && RootOf(g, ys[i]) == s
  {
    if ys == [] then {}
    else
      var y := ys[|ys| - 1];
      PresentRoots(g, kmer, ys[..|ys| - 1]) + (if y != kmer && y in g.kmers then {RootOf(g, y)} else {})
  }

  /** The state after merging roots `a` and `b` into survivor `s`, before the active set is updated. */
  ghost function Merged(g: Graph, a: SubgraphId, b: SubgraphId, s: SubgraphId): Graph
    requires a in g.summaries && b in g.summaries
  {
    g.(summaries := g.summaries[s := Merge(g.summaries[a], g.summaries[b], s != b)],
       root := map i | i in g.root.Keys + {s} :: if i == s || g.root[i] == a || g.root[i] == b then s else g.root[i],
       nextId := if s == g.nextId then g.nextId + 1 else g.nextId)
  }


  // ---------------------------------------------------------------------------
  // Replacing a node's aggregate and widening its subgraph (re-insertion)
  // ---------------------------------------------------------------------------

  /** Replacing the aggregate of a stored k-mer changes no structure: roots, subgraphs, encoding and connectivity. */
  lemma SupportReplaced(k: KmerLength, adj: Kmer -> seq<Kmer>, g: Graph, x: Kmer, n: Support)
    requires Structured(k, adj, g) && x in g.kmers
    ensures Structured(k, adj, g.(kmers := g.kmers[x := Node(n, g.kmers[x].subgraph)]))
  {
    var g' := g.(kmers := g.kmers[x := Node(n, g.kmers[x].subgraph)]);
    assert g'.kmers.Keys == g.kmers.Keys;
    forall y | y in g'.kmers ensures g'.kmers[y].subgraph == g.kmers[y].subgraph {
    }
    assert NodesAttached(g');
    forall y | y in g'.kmers
      ensures y in Reach(adj, g'.kmers.Keys, g'.summaries[RootOf(g', y)].anyKmer)
    {
      assert RootOf(g', y) == RootOf(g, y);
    }
  }

  /** Replacing the aggregate of a stored k-mer leaves every other node within its subgraph's bounds. */
  lemma SupportReplacedBounds(g: Graph, x: Kmer, n: Support)
    requires RootsWellFormed(g) && NodesAttached(g) && BoundedExcept(g, None) && x in g.kmers
    ensures BoundedExcept(g.(kmers := g.kmers[x := Node(n, g.kmers[x].subgraph)]), Some(x))
  {
    var g' := g.(kmers := g.kmers[x := Node(n, g.kmers[x].subgraph)]);
    forall y | y in g'.kmers && y != x
      ensures NodeWithin(g'.summaries[RootOf(g', y)].interval, g'.kmers[y].support)
    {
      assert g'.kmers[y] == g.kmers[y];
    }
  }

  /** Widening the subgraph of the pending k-mer so that it covers the node restores full consistency. */
  lemma SummaryWidened(k: KmerLength, adj: Kmer -> seq<Kmer>, g: Graph, x: Kmer, n: Support)
    requires Structured(k, adj, g) && BoundedExcept(g, Some(x)) && Partitioned(adj, g) && x in g.kmers
    requires NodeWithin(AddNode(g.summaries[RootOf(g, x)], n).interval, g.kmers[x].support)
    ensures var s := RootOf(g, x);
            Consistent(k, adj, g.(summaries := g.summaries[s := AddNode(g.summaries[s], n)]))
  {
    var s := RootOf(g, x);
    var g' := g.(summaries := g.summaries[s := AddNode(g.summaries[s], n)]);
    assert g'.summaries.Keys == g.summaries.Keys;
    PartitionKept(adj, g, g');
    forall y | y in g'.kmers
      ensures y in Reach(adj, g'.kmers.Keys, g'.summaries[RootOf(g', y)].anyKmer)
      ensures NodeWithin(g'.summaries[RootOf(g', y)].interval, g'.kmers[y].support)
    {
      if y != x && RootOf(g, y) == s {
        ContainsTransitive(g'.summaries[s].interval, g.summaries[s].interval, g.kmers[y].support.referenceRange);
        ContainsTransitive(g'.summaries[s].interval, g.summaries[s].interval, g.kmers[y].support.mateRange);
      }
    }
  }

  /**
   * A change that keeps the stored k-mers, their subgraphs, the arena and every
   * representative k-mer keeps the partition into components.
   */
  lemma PartitionKept(adj: Kmer -> seq<Kmer>, g: Graph, g': Graph)
    requires RootsWellFormed(g) && NodesAttached(g) && Partitioned(adj, g)
    requires g'.kmers.Keys == g.kmers.Keys && forall x | x in g.kmers :: g'.kmers[x].subgraph == g.kmers[x].subgraph
    requires g'.root == g.root && g'.subgraphs == g.subgraphs && g'.nextId == g.nextId
    requires g'.summaries.Keys == g.summaries.Keys
    requires forall t | t in g.summaries :: g'.summaries[t].anyKmer == g.summaries[t].anyKmer
    ensures RootsWellFormed(g') && NodesAttached(g') && Partitioned(adj, g')
  {
    forall x | x in g'.kmers ensures RootOf(g', x) == RootOf(g, x) {
    }
  }

  /** A re-observed k-mer's merged aggregate lies within its subgraph widened by the new observation. */
  lemma MergedWithinWidened(s: Summary, existing: Support, n: Support)
    requires NodeWithin(s.interval, existing)
    ensures NodeWithin(AddNode(s, n).interval, MergeSupport(existing, n))
  {
    var w := AddNode(s, n).interval;
    ContainsTransitive(w, s.interval, existing.referenceRange);
    ContainsTransitive(w, s.interval, existing.mateRange);
  }

  // ---------------------------------------------------------------------------
  // Attaching a new k-mer (onKmerAdded)
  // ---------------------------------------------------------------------------

  /**
   * An attached neighbour's subgraph and the new k-mer reach the same k-mers once
   * the new k-mer is stored.
   */
  lemma NeighbourJoins(k: KmerLength, adj: Kmer -> seq<Kmer>, g0: Graph, kmer: Kmer, y: Kmer)
    requires Structured(k, adj, g0) && SymmetricOnKmers(adj, k) && IsKmer(k, kmer)
    requires y in adj(kmer) && y in g0.kmers
    ensures var K1 := g0.kmers.Keys + {kmer};
            Reach(adj, K1, g0.summaries[RootOf(g0, y)].anyKmer) == Reach(adj, K1, kmer)
  {
    var K0, K1 := g0.kmers.Keys, g0.kmers.Keys + {kmer};
    var a0 := g0.summaries[RootOf(g0, y)].anyKmer;
    assert y in Reach(adj, K0, a0);
    ReachMonotone(adj, K0, K1, a0);
    assert forall x | x in K1 :: IsKmer(k, x);
    assert Symmetric(adj, K1);
    assert IsKmer(k, y);
    ReachAdjacent(adj, K1, y, kmer);
    ReachTransitive(adj, K1, a0, y);
    ReachSymmetric(adj, K1, a0, kmer);
  }

  /**
   * Part way through the neighbour scan of `kmer`: the roots in `merged` (those of
   * the stored neighbours scanned so far) have been merged into `survivor`, and
   * nothing else has changed. The five parts are stated and proved separately.
   */
  ghost predicate AttachInvariant(adj: Kmer -> seq<Kmer>, kmer: Kmer, g0: Graph, g: Graph,
                                  merged: set<SubgraphId>, survivor: Option<SubgraphId>)
  {
    && AttachFrame(g0, g)
    && AttachProgress(g0, g, merged, survivor)
    && AttachUntouched(g0, g, merged)
    && AttachJoined(adj, kmer, g0, merged)
    && (survivor.Some? ==> AttachSurvivor(adj, kmer, g0, g, merged, survivor.value))
  }

  /** The store is unchanged and new summaries are only ever appended. */
  ghost predicate AttachFrame(g0: Graph, g: Graph)
  {
    && g.kmers == g0.kmers
    && RootsWellFormed(g) && g0.nextId <= g.nextId
    && (forall j | j in g0.root :: j in g.root)
    && (forall j | j in g.root :: j in g0.root || g0.nextId <= j)
  }

  ghost predicate AttachProgress(g0: Graph, g: Graph, merged: set<SubgraphId>, survivor: Option<SubgraphId>)
  {
    && merged <= g0.subgraphs
    && (survivor.None? <==> merged == {})
    && (survivor.None? ==> g == g0)
  }

  /** Summaries of subgraphs not merged are as they were. */
  ghost predicate AttachUntouched(g0: Graph, g: Graph, merged: set<SubgraphId>)
  {
    forall j | j in g0.summaries && j !in merged :: j in g.summaries && g.summaries[j] == g0.summaries[j]
  }

  /** Each merged subgraph reaches what the new k-mer reaches. */
  ghost predicate AttachJoined(adj: Kmer -> seq<Kmer>, kmer: Kmer, g0: Graph, merged: set<SubgraphId>)
  {
    var K1 := g0.kmers.Keys + {kmer};
    forall r | r in merged :: r in g0.summaries && Reach(adj, K1, g0.summaries[r].anyKmer) == Reach(adj, K1, kmer)
  }

  /** The survivor is a root that absorbed exactly the merged subgraphs. */
  ghost predicate AttachSurvivor(adj: Kmer -> seq<Kmer>, kmer: Kmer, g0: Graph, g: Graph,
                                 merged: set<SubgraphId>, s: SubgraphId)
  {
    var K1 := g0.kmers.Keys + {kmer};
    && s in g.root && s in g.summaries && g.root[s] == s && (s in merged || g0.nextId <= s)
    && (var a := g.summaries[s].anyKmer;
        a in g0.kmers && g0.kmers[a].subgraph in g0.root && g0.root[g0.kmers[a].subgraph] in merged)
    && g.subgraphs == g0.subgraphs - merged + {s}
    && (forall j | j in g0.root :: j in g.root && g.root[j] == if g0.root[j] in merged then s else g0.root[j])
    && (forall j | j in g.root && g0.nextId <= j :: g.root[j] == s)
    && (forall r | r in merged :: r in g0.summaries && Contains(g.summaries[s].interval, g0.summaries[r].interval))
    && (forall o :: Covers(o, g0, merged) ==> Contains(o, g.summaries[s].interval))
    && Reach(adj, K1, g.summaries[s].anyKmer) == Reach(adj, K1, kmer)
  }

  lemma AttachStart(adj: Kmer -> seq<Kmer>, kmer: Kmer, g0: Graph)
    requires RootsWellFormed(g0)
    ensures AttachInvariant(adj, kmer, g0, g0, {}, None)
  {
  }

  /** The first stored neighbour found: its subgraph becomes the survivor. */
  lemma AttachFirst(adj: Kmer -> seq<Kmer>, kmer: Kmer, g0: Graph, y: Kmer)
    requires RootsWellFormed(g0) && ActiveAreRoots(g0) && NodesAttached(g0) && AnchorsInside(g0) && y in g0.kmers
    requires var K1 := g0.kmers.Keys + {kmer};
             Reach(adj, K1, g0.summaries[RootOf(g0, y)].anyKmer) == Reach(adj, K1, kmer)
    ensures AttachInvariant(adj, kmer, g0, g0, {RootOf(g0, y)}, Some(RootOf(g0, y)))
  {
    var r0 := RootOf(g0, y);
    assert AttachFrame(g0, g0);
    assert AttachProgress(g0, g0, {r0}, Some(r0));
    assert AttachUntouched(g0, g0, {r0});
    assert AttachJoined(adj, kmer, g0, {r0});
    assert g0.subgraphs == g0.subgraphs - {r0} + {r0};
    assert RootOf(g0, g0.summaries[r0].anyKmer) == r0;
    forall o | Covers(o, g0, {r0}) ensures Contains(o, g0.summaries[r0].interval) {
    }
    assert AttachSurvivor(adj, kmer, g0, g0, {r0}, r0);
  }

  /**
   * During the scan, a stored neighbour's summary resolves to the survivor exactly
   * when its original root was merged already; otherwise it still resolves to that
   * root, which is active and distinct from the survivor.
   */
  lemma NeighbourRootInScan(adj: Kmer -> seq<Kmer>, kmer: Kmer, g0: Graph, g: Graph,
                            merged: set<SubgraphId>, s: SubgraphId, y: Kmer)
    requires RootsWellFormed(g0) && ActiveAreRoots(g0) && NodesAttached(g0) && y in g0.kmers
    requires AttachInvariant(adj, kmer, g0, g, merged, Some(s))
    ensures s in g.subgraphs && s in g.root && g.root[s] == s
    ensures g0.kmers[y].subgraph in g.root
    ensures var r0 := RootOf(g0, y);
            && r0 in g0.subgraphs
            && (g.root[g0.kmers[y].subgraph] == s <==> r0 in merged)
            && (r0 !in merged ==> g.root[g0.kmers[y].subgraph] == r0 && r0 in g.subgraphs && r0 in g.root && g.root[r0] == r0)
  {
    var r0 := RootOf(g0, y);
    assert g0.kmers[y].subgraph in g0.root && r0 in g0.root && r0 < g0.nextId;
  }


  /** A further neighbour in another subgraph: the survivor and that subgraph are merged. */
  lemma AttachMerge(adj: Kmer -> seq<Kmer>, kmer: Kmer, g0: Graph, g: Graph,
                    merged: set<SubgraphId>, s: SubgraphId, r0: SubgraphId, newg: SubgraphId)
    requires RootsWellFormed(g0) && ActiveAreRoots(g0) && NodesAttached(g0) && AnchorsInside(g0)
    requires r0 in g0.subgraphs && r0 !in merged
    requires var K1 := g0.kmers.Keys + {kmer};
             Reach(adj, K1, g0.summaries[r0].anyKmer) == Reach(adj, K1, kmer)
    requires AttachInvariant(adj, kmer, g0, g, merged, Some(s)) && s != r0
    requires newg == s || newg == r0 || newg == g.nextId
    ensures var g' := Merged(g, s, r0, newg).(subgraphs := g.subgraphs - {s, r0} + {newg});
            AttachInvariant(adj, kmer, g0, g', merged + {r0}, Some(newg))
  {
    MergeFrame(g0, g, s, r0, newg, merged);
    MergeBookkeeping(adj, kmer, g0, g, merged, s, r0, newg);
    MergeSurvivorRoots(adj, kmer, g0, g, merged, s, r0, newg);
    MergeSurvivorBounds(adj, kmer, g0, g, merged, s, r0, newg);
    MergeSurvivorAnchor(adj, kmer, g0, g, merged, s, r0, newg);
  }

  lemma MergeBookkeeping(adj: Kmer -> seq<Kmer>, kmer: Kmer, g0: Graph, g: Graph,
                         merged: set<SubgraphId>, s: SubgraphId, r0: SubgraphId, newg: SubgraphId)
    requires RootsWellFormed(g0) && r0 in g0.subgraphs && r0 in g0.summaries && r0 !in merged && s != r0
    requires var K1 := g0.kmers.Keys + {kmer};
             Reach(adj, K1, g0.summaries[r0].anyKmer) == Reach(adj, K1, kmer)
    requires AttachProgress(g0, g, merged, Some(s)) && AttachUntouched(g0, g, merged) && AttachJoined(adj, kmer, g0, merged)
    requires s in g.summaries && r0 in g.summaries && (s in merged || g0.nextId <= s)
    requires newg == s || newg == r0 || newg == g.nextId
    requires g0.nextId <= g.nextId
    ensures var g' := Merged(g, s, r0, newg).(subgraphs := g.subgraphs - {s, r0} + {newg});
            && AttachProgress(g0, g', merged + {r0}, Some(newg))
            && AttachUntouched(g0, g', merged + {r0})
            && AttachJoined(adj, kmer, g0, merged + {r0})
  {
  }

  lemma MergeFrame(g0: Graph, g: Graph, s: SubgraphId, r0: SubgraphId, newg: SubgraphId, merged: set<SubgraphId>)
    requires AttachFrame(g0, g) && s in g.root && g.root[s] == s && r0 in g0.root && g0.root[r0] == r0
    requires (forall j | j in g0.root :: g.root[j] == if g0.root[j] in merged then s else g0.root[j]) && r0 !in merged
    requires newg == s || newg == r0 || newg == g.nextId
    ensures AttachFrame(g0, Merged(g, s, r0, newg).(subgraphs := g.subgraphs - {s, r0} + {newg}))
  {
    var g' := Merged(g, s, r0, newg);
    assert g'.summaries.Keys == g'.root.Keys;
    forall i | i in g'.root
      ensures i < g'.nextId && g'.root[i] in g'.root && g'.root[g'.root[i]] == g'.root[i]
    {
      if !(i == newg || g.root[i] == s || g.root[i] == r0) {
        var t := g.root[i];
        assert g'.root[i] == t && t != newg && g.root[t] == t;
      }
    }
  }

  lemma MergeSurvivorRoots(adj: Kmer -> seq<Kmer>, kmer: Kmer, g0: Graph, g: Graph,
                           merged: set<SubgraphId>, s: SubgraphId, r0: SubgraphId, newg: SubgraphId)
    requires RootsWellFormed(g0) && ActiveAreRoots(g0) && r0 in g0.subgraphs && r0 !in merged && s != r0
    requires AttachFrame(g0, g) && AttachProgress(g0, g, merged, Some(s)) && AttachSurvivor(adj, kmer, g0, g, merged, s)
    requires newg == s || newg == r0 || newg == g.nextId
    ensures var g' := Merged(g, s, r0, newg).(subgraphs := g.subgraphs - {s, r0} + {newg});
            var m' := merged + {r0};
            && newg in g'.root && newg in g'.summaries && g'.root[newg] == newg && (newg in m' || g0.nextId <= newg)
            && g'.subgraphs == g0.subgraphs - m' + {newg}
            && (forall j | j in g0.root :: j in g'.root && g'.root[j] == if g0.root[j] in m' then newg else g0.root[j])
            && (forall j | j in g'.root && g0.nextId <= j :: g'.root[j] == newg)
  {
    assert g.root[r0] == r0;
    MergeActiveSet(g0.subgraphs, g.subgraphs, merged, s, r0, newg, g0.nextId);
    MergedRootMap(g0, g, merged, s, r0, newg);
  }

  /** The root map after one merge, relative to the original one. */
  lemma MergedRootMap(g0: Graph, g: Graph, merged: set<SubgraphId>, s: SubgraphId, r0: SubgraphId, newg: SubgraphId)
    requires RootsWellFormed(g0) && ActiveAreRoots(g0) && merged <= g0.subgraphs
    requires r0 in g0.root && g0.root[r0] == r0 && r0 !in merged && s != r0
    requires RootsWellFormed(g) && g0.nextId <= g.nextId
    requires s in g.root && r0 in g.root && g.root[r0] == r0
    requires s in merged || g0.nextId <= s
    requires forall j | j in g0.root :: j in g.root && g.root[j] == if g0.root[j] in merged then s else g0.root[j]
    requires forall j | j in g.root && g0.nextId <= j :: g.root[j] == s
    requires newg == s || newg == r0 || newg == g.nextId
    ensures var g' := Merged(g, s, r0, newg);
            var m' := merged + {r0};
            && newg in g'.root && newg in g'.summaries && g'.root[newg] == newg && (newg in m' || g0.nextId <= newg)
            && (forall j | j in g0.root :: j in g'.root && g'.root[j] == if g0.root[j] in m' then newg else g0.root[j])
            && (forall j | j in g'.root && g0.nextId <= j :: g'.root[j] == newg)
  {
    var g' := Merged(g, s, r0, newg);
    forall j | j in g0.root
      ensures g'.root[j] == if g0.root[j] in merged + {r0} then newg else g0.root[j]
    {
      assert g0.root[j] < g0.nextId;
    }
  }

  /** The active-set bookkeeping of one merge, in set algebra. */
  lemma MergeActiveSet(s0: set<SubgraphId>, current: set<SubgraphId>, merged: set<SubgraphId>,
                       s: SubgraphId, r0: SubgraphId, newg: SubgraphId, bound: SubgraphId)
    requires current == s0 - merged + {s} && r0 in s0 && r0 !in merged && s != r0
    requires s in merged || (bound <= s && forall j | j in s0 :: j < bound)
    ensures current - {s, r0} + {newg} == s0 - (merged + {r0}) + {newg}
  {
  }

  lemma MergeSurvivorBounds(adj: Kmer -> seq<Kmer>, kmer: Kmer, g0: Graph, g: Graph,
                            merged: set<SubgraphId>, s: SubgraphId, r0: SubgraphId, newg: SubgraphId)
    requires RootsWellFormed(g0) && r0 in g0.summaries && r0 !in merged && s != r0
    requires var K1 := g0.kmers.Keys + {kmer};
             Reach(adj, K1, g0.summaries[r0].anyKmer) == Reach(adj, K1, kmer)
    requires AttachFrame(g0, g) && AttachUntouched(g0, g, merged) && AttachSurvivor(adj, kmer, g0, g, merged, s)
    requires newg == s || newg == r0 || newg == g.nextId
    ensures var g' := Merged(g, s, r0, newg).(subgraphs := g.subgraphs - {s, r0} + {newg});
            var K1 := g0.kmers.Keys + {kmer};
            && (forall r | r in merged + {r0} :: r in g0.summaries && Contains(g'.summaries[newg].interval, g0.summaries[r].interval))
            && (forall o :: Covers(o, g0, merged + {r0}) ==> Contains(o, g'.summaries[newg].interval))
            && Reach(adj, K1, g'.summaries[newg].anyKmer) == Reach(adj, K1, kmer)
  {
    var g' := Merged(g, s, r0, newg).(subgraphs := g.subgraphs - {s, r0} + {newg});
    var w := g'.summaries[newg].interval;
    assert w == Union(g.summaries[s].interval, g.summaries[r0].interval);
    assert g.summaries[r0] == g0.summaries[r0];
    forall r | r in merged ensures Contains(w, g0.summaries[r].interval) {
      ContainsTransitive(w, g.summaries[s].interval, g0.summaries[r].interval);
    }
    forall o | Covers(o, g0, merged + {r0}) ensures Contains(o, w) {
      assert Covers(o, g0, merged);
      assert Contains(o, g.summaries[s].interval) && Contains(o, g.summaries[r0].interval);
    }
  }

  /** The survivor of a merge is represented by a k-mer of one of the merged subgraphs. */
  lemma MergeSurvivorAnchor(adj: Kmer -> seq<Kmer>, kmer: Kmer, g0: Graph, g: Graph,
                            merged: set<SubgraphId>, s: SubgraphId, r0: SubgraphId, newg: SubgraphId)
    requires RootsWellFormed(g0) && NodesAttached(g0) && AnchorsInside(g0) && r0 in g0.subgraphs && r0 !in merged
    requires AttachUntouched(g0, g, merged) && AttachSurvivor(adj, kmer, g0, g, merged, s) && s != r0
    requires newg == s || newg == r0 || newg == g.nextId
    ensures var g' := Merged(g, s, r0, newg);
            var a := g'.summaries[newg].anyKmer;
            a in g0.kmers && g0.kmers[a].subgraph in g0.root && g0.root[g0.kmers[a].subgraph] in merged + {r0}
  {
    assert g.summaries[r0] == g0.summaries[r0];
    assert RootOf(g0, g0.summaries[r0].anyKmer) == r0;
  }

  /** The state with `kmer` stored, attached to summary `s`. */
  ghost function WithNode(g: Graph, kmer: Kmer, n: Support, s: SubgraphId): Graph
  {
    g.(kmers := g.kmers[kmer := Node(n, s)])
  }

  /** The state with a fresh singleton subgraph for `kmer`, before the k-mer is stored. */
  ghost function WithFreshSubgraph(g: Graph, kmer: Kmer): Graph
  {
    var s := g.nextId;
    Graph(g.kmers, g.subgraphs + {s}, g.summaries[s := NewSummary(kmer)], g.root[s := s], s + 1)
  }

  /** Storing the new k-mer in the survivor ends the attachment. */
  lemma AttachComplete(k: KmerLength, adj: Kmer -> seq<Kmer>, kmer: Kmer, g0: Graph, g: Graph,
                       merged: set<SubgraphId>, s: SubgraphId, n: Support)
    requires Structured(k, adj, g0) && BoundedExcept(g0, None) && IsKmer(k, kmer) && kmer !in g0.kmers
    requires AttachInvariant(adj, kmer, g0, g, merged, Some(s))
    ensures var g' := WithNode(g, kmer, n, s);
            && Structured(k, adj, g') && BoundedExcept(g', Some(kmer))
            && RootOf(g', kmer) == s
            && (forall x | x in g0.kmers :: RootOf(g', x) == if RootOf(g0, x) in merged then s else RootOf(g0, x))
  {
    CompleteRoots(adj, kmer, g0, g, merged, s, n);
    CompleteConnected(k, adj, kmer, g0, g, merged, s, n);
    CompleteBounded(k, adj, kmer, g0, g, merged, s, n);
  }

  lemma CompleteAnchors(kmer: Kmer, g0: Graph, g: Graph, merged: set<SubgraphId>, s: SubgraphId, n: Support)
    requires RootsWellFormed(g0) && NodesAttached(g0) && AnchorsInside(g0) && kmer !in g0.kmers
    requires g.kmers == g0.kmers && AttachUntouched(g0, g, merged) && g.subgraphs == g0.subgraphs - merged + {s}
    requires s in g.summaries && var a := g.summaries[s].anyKmer;
             a in g0.kmers && g0.kmers[a].subgraph in g0.root && g0.root[g0.kmers[a].subgraph] in merged
    requires var g' := WithNode(g, kmer, n, s);
             RootsWellFormed(g') && NodesAttached(g') && RootOf(g', kmer) == s
             && (forall x | x in g0.kmers :: RootOf(g', x) == if RootOf(g0, x) in merged then s else RootOf(g0, x))
    ensures AnchorsInside(WithNode(g, kmer, n, s))
  {
    var g' := WithNode(g, kmer, n, s);
    var a := g.summaries[s].anyKmer;
    assert RootOf(g', a) == s;
    JoinAnchors(g0, g', merged, s);
  }

  /**
   * Storing a new k-mer in subgraph `s`, which absorbed exactly the subgraphs of the
   * k-mer's stored neighbours, leaves no adjacency between two subgraphs.
   */
  lemma JoinSeparated(k: KmerLength, adj: Kmer -> seq<Kmer>, kmer: Kmer, g0: Graph, g': Graph,
                      merged: set<SubgraphId>, s: SubgraphId)
    requires RootsWellFormed(g0) && NodesAttached(g0) && KmersEncoded(k, g0) && Separated(adj, g0)
    requires SymmetricOnKmers(adj, k) && IsKmer(k, kmer) && kmer !in g0.kmers
    requires merged == PresentRoots(g0, kmer, adj(kmer))
    requires RootsWellFormed(g') && NodesAttached(g') && g'.kmers.Keys == g0.kmers.Keys + {kmer}
    requires RootOf(g', kmer) == s
    requires forall x | x in g0.kmers :: RootOf(g', x) == if RootOf(g0, x) in merged then s else RootOf(g0, x)
    ensures Separated(adj, g')
  {
    forall x, i | x in g'.kmers && 0 <= i < |adj(x)| && adj(x)[i] in g'.kmers
      ensures RootOf(g', x) == RootOf(g', adj(x)[i])
    {
      var y := adj(x)[i];
      if x == kmer && y != kmer {
        NeighbourMerged(g0, kmer, adj(kmer), y);
      } else if y == kmer && x != kmer {
        assert IsKmer(k, x);
        NeighbourMerged(g0, kmer, adj(kmer), x);
      } else if x != kmer {
        assert RootOf(g0, x) == RootOf(g0, adj(x)[i]);
      }
    }
  }

  /** A stored neighbour's subgraph is among the present roots. */
  lemma NeighbourMerged(g: Graph, kmer: Kmer, ys: seq<Kmer>, y: Kmer)
    requires NodesAttached(g) && y in ys && y != kmer && y in g.kmers
    ensures RootOf(g, y) in PresentRoots(g, kmer, ys)
  {
    var i :| 0 <= i < |ys| && ys[i] == y;
  }

  /**
   * After a new k-mer joins subgraph `s`, every untouched subgraph keeps its
   * representative, and so does `s` when its representative is a member of it.
   */
  lemma JoinAnchors(g0: Graph, g': Graph, merged: set<SubgraphId>, s: SubgraphId)
    requires RootsWellFormed(g0) && NodesAttached(g0) && AnchorsInside(g0)
    requires RootsWellFormed(g') && NodesAttached(g') && g0.kmers.Keys <= g'.kmers.Keys
    requires g'.subgraphs == g0.subgraphs - merged + {s}
    requires forall x | x in g0.kmers :: RootOf(g', x) == if RootOf(g0, x) in merged then s else RootOf(g0, x)
    requires forall t | t in g0.subgraphs && t !in merged :: t in g'.summaries && g'.summaries[t] == g0.summaries[t]
    requires s in g'.summaries && g'.summaries[s].anyKmer in g'.kmers && RootOf(g', g'.summaries[s].anyKmer) == s
    ensures AnchorsInside(g')
  {
    forall t | t in g'.subgraphs && t != s
      ensures t in g'.summaries && g'.summaries[t].anyKmer in g'.kmers && RootOf(g', g'.summaries[t].anyKmer) == t
    {
      assert t in g0.subgraphs && t !in merged;
      assert RootOf(g0, g0.summaries[t].anyKmer) == t;
    }
  }

  lemma CompleteRoots(adj: Kmer -> seq<Kmer>, kmer: Kmer, g0: Graph, g: Graph,
                      merged: set<SubgraphId>, s: SubgraphId, n: Support)
    requires RootsWellFormed(g0) && ActiveAreRoots(g0) && NodesAttached(g0) && kmer !in g0.kmers
    requires AttachFrame(g0, g) && AttachSurvivor(adj, kmer, g0, g, merged, s)
    ensures var g' := WithNode(g, kmer, n, s);
            && RootsWellFormed(g') && ActiveAreRoots(g') && NodesAttached(g')
            && RootOf(g', kmer) == s
            && (forall x | x in g0.kmers :: RootOf(g', x) == if RootOf(g0, x) in merged then s else RootOf(g0, x))
  {
    SurvivorActive(g0, g, merged, s);
    SurvivorAttached(g0, g, kmer, n, merged, s);
  }

  /** After the merges, exactly the untouched roots and the survivor are active, and all are roots. */
  lemma SurvivorActive(g0: Graph, g: Graph, merged: set<SubgraphId>, s: SubgraphId)
    requires ActiveAreRoots(g0)
    requires s in g.root && g.root[s] == s && g.subgraphs == g0.subgraphs - merged + {s}
    requires forall j | j in g0.root :: j in g.root && g.root[j] == if g0.root[j] in merged then s else g0.root[j]
    ensures ActiveAreRoots(g)
  {
    forall t | t in g.subgraphs ensures t in g.root && g.root[t] == t {
      if t != s {
        assert t in g0.subgraphs && t !in merged;
      }
    }
  }

  /** Every stored k-mer, and the new one, hangs off an active root after the merges. */
  lemma SurvivorAttached(g0: Graph, g: Graph, kmer: Kmer, n: Support, merged: set<SubgraphId>, s: SubgraphId)
    requires NodesAttached(g0) && g.kmers == g0.kmers && kmer !in g0.kmers
    requires s in g.root && g.root[s] == s && g.subgraphs == g0.subgraphs - merged + {s}
    requires forall j | j in g0.root :: j in g.root && g.root[j] == if g0.root[j] in merged then s else g0.root[j]
    ensures var g' := WithNode(g, kmer, n, s);
            && NodesAttached(g') && RootOf(g', kmer) == s
            && (forall x | x in g0.kmers :: RootOf(g', x) == if RootOf(g0, x) in merged then s else RootOf(g0, x))
  {
    var g' := WithNode(g, kmer, n, s);
    forall x | x in g'.kmers
      ensures g'.kmers[x].subgraph in g'.root && g'.root[g'.kmers[x].subgraph] in g'.subgraphs
    {
      if x != kmer {
        assert g'.kmers[x] == g0.kmers[x];
      }
    }
  }

  lemma CompleteConnected(k: KmerLength, adj: Kmer -> seq<Kmer>, kmer: Kmer, g0: Graph, g: Graph,
                          merged: set<SubgraphId>, s: SubgraphId, n: Support)
    requires Structured(k, adj, g0) && IsKmer(k, kmer) && kmer !in g0.kmers
    requires AttachFrame(g0, g) && AttachUntouched(g0, g, merged) && AttachJoined(adj, kmer, g0, merged)
    requires AttachSurvivor(adj, kmer, g0, g, merged, s)
    requires var g' := WithNode(g, kmer, n, s);
             RootsWellFormed(g') && NodesAttached(g') && RootOf(g', kmer) == s
             && (forall x | x in g0.kmers :: RootOf(g', x) == if RootOf(g0, x) in merged then s else RootOf(g0, x))
    ensures var g' := WithNode(g, kmer, n, s);
            KmersEncoded(k, g') && NodesConnected(adj, g')
  {
    var K1 := g0.kmers.Keys + {kmer};
    var g' := WithNode(g, kmer, n, s);
    assert g'.kmers.Keys == K1;
    ReachClosed(adj, K1, kmer);
    forall x | x in g'.kmers
      ensures x in Reach(adj, K1, g'.summaries[RootOf(g', x)].anyKmer)
    {
      if x != kmer {
        var r0 := RootOf(g0, x);
        ReachMonotone(adj, g0.kmers.Keys, K1, g0.summaries[r0].anyKmer);
        if r0 !in merged {
          assert g'.summaries[r0] == g0.summaries[r0];
        }
      }
    }
  }

  lemma CompleteBounded(k: KmerLength, adj: Kmer -> seq<Kmer>, kmer: Kmer, g0: Graph, g: Graph,
                        merged: set<SubgraphId>, s: SubgraphId, n: Support)
    requires RootsWellFormed(g0) && NodesAttached(g0) && BoundedExcept(g0, None) && kmer !in g0.kmers
    requires AttachFrame(g0, g) && AttachUntouched(g0, g, merged) && AttachSurvivor(adj, kmer, g0, g, merged, s)
    requires var g' := WithNode(g, kmer, n, s);
             RootsWellFormed(g') && NodesAttached(g') && RootOf(g', kmer) == s
             && (forall x | x in g0.kmers :: RootOf(g', x) == if RootOf(g0, x) in merged then s else RootOf(g0, x))
    ensures BoundedExcept(WithNode(g, kmer, n, s), Some(kmer))
  {
    var g' := WithNode(g, kmer, n, s);
    forall x | x in g'.kmers && x != kmer
      ensures NodeWithin(g'.summaries[RootOf(g', x)].interval, g'.kmers[x].support)
    {
      var r0 := RootOf(g0, x);
      if r0 in merged {
        ContainsTransitive(g.summaries[s].interval, g0.summaries[r0].interval, g0.kmers[x].support.referenceRange);
        ContainsTransitive(g.summaries[s].interval, g0.summaries[r0].interval, g0.kmers[x].support.mateRange);
      } else {
        assert g'.summaries[r0] == g0.summaries[r0];
      }
    }
  }

  /** No stored neighbour: the new k-mer gets a fresh singleton subgraph. */
  lemma AttachFresh(k: KmerLength, adj: Kmer -> seq<Kmer>, kmer: Kmer, g0: Graph, n: Support)
    requires Consistent(k, adj, g0) && SymmetricOnKmers(adj, k) && IsKmer(k, kmer) && kmer !in g0.kmers
    requires PresentRoots(g0, kmer, adj(kmer)) == {}
    ensures var g' := WithNode(WithFreshSubgraph(g0, kmer), kmer, n, g0.nextId);
            && Structured(k, adj, g') && BoundedExcept(g', Some(kmer))
            && RootOf(g', kmer) == g0.nextId
            && (forall x | x in g0.kmers :: RootOf(g', x) == RootOf(g0, x))
  {
    FreshRoots(kmer, g0, n);
    FreshEncoded(k, kmer, g0, n);
    FreshBounded(kmer, g0, n);
    FreshConnected(adj, kmer, g0, n);
  }

  lemma FreshPartitioned(k: KmerLength, adj: Kmer -> seq<Kmer>, kmer: Kmer, g0: Graph, n: Support)
    requires RootsWellFormed(g0) && ActiveAreRoots(g0) && NodesAttached(g0) && KmersEncoded(k, g0) && Partitioned(adj, g0)
    requires SymmetricOnKmers(adj, k) && IsKmer(k, kmer) && kmer !in g0.kmers
    requires PresentRoots(g0, kmer, adj(kmer)) == {}
    requires var g' := WithNode(WithFreshSubgraph(g0, kmer), kmer, n, g0.nextId);
             && RootsWellFormed(g') && NodesAttached(g') && RootOf(g', kmer) == g0.nextId
             && (forall x | x in g0.kmers :: RootOf(g', x) == RootOf(g0, x))
    ensures Partitioned(adj, WithNode(WithFreshSubgraph(g0, kmer), kmer, n, g0.nextId))
  {
    var g' := WithNode(WithFreshSubgraph(g0, kmer), kmer, n, g0.nextId);
    JoinSeparated(k, adj, kmer, g0, g', {}, g0.nextId);
    assert g'.subgraphs == g0.subgraphs - {} + {g0.nextId};
    forall t | t in g0.subgraphs ensures t in g'.summaries && g'.summaries[t] == g0.summaries[t] {
      assert t in g0.root;
    }
    JoinAnchors(g0, g', {}, g0.nextId);
  }

  lemma FreshRoots(kmer: Kmer, g0: Graph, n: Support)
    requires RootsWellFormed(g0) && ActiveAreRoots(g0) && NodesAttached(g0) && kmer !in g0.kmers
    ensures var g' := WithNode(WithFreshSubgraph(g0, kmer), kmer, n, g0.nextId);
            && RootsWellFormed(g') && ActiveAreRoots(g') && NodesAttached(g')
            && RootOf(g', kmer) == g0.nextId
            && (forall x | x in g0.kmers :: RootOf(g', x) == RootOf(g0, x))
  {
  }

  lemma FreshEncoded(k: KmerLength, kmer: Kmer, g0: Graph, n: Support)
    requires KmersEncoded(k, g0) && IsKmer(k, kmer)
    ensures KmersEncoded(k, WithNode(WithFreshSubgraph(g0, kmer), kmer, n, g0.nextId))
  {
  }

  /** The old nodes keep their subgraphs and those keep their bounds; the new k-mer is exempt. */
  lemma FreshBounded(kmer: Kmer, g0: Graph, n: Support)
    requires RootsWellFormed(g0) && NodesAttached(g0) && BoundedExcept(g0, None) && kmer !in g0.kmers
    requires var g' := WithNode(WithFreshSubgraph(g0, kmer), kmer, n, g0.nextId);
             && RootsWellFormed(g') && NodesAttached(g')
             && (forall x | x in g0.kmers :: RootOf(g', x) == RootOf(g0, x))
    ensures BoundedExcept(WithNode(WithFreshSubgraph(g0, kmer), kmer, n, g0.nextId), Some(kmer))
  {
    var g' := WithNode(WithFreshSubgraph(g0, kmer), kmer, n, g0.nextId);
    forall x | x in g'.kmers && x != kmer
      ensures NodeWithin(g'.summaries[RootOf(g', x)].interval, g'.kmers[x].support)
    {
      assert RootOf(g0, x) in g0.root;
    }
  }

  /** The new singleton reaches itself, and every old k-mer is still reached from its subgraph's representative. */
  lemma FreshConnected(adj: Kmer -> seq<Kmer>, kmer: Kmer, g0: Graph, n: Support)
    requires RootsWellFormed(g0) && NodesAttached(g0) && NodesConnected(adj, g0) && kmer !in g0.kmers
    requires var g' := WithNode(WithFreshSubgraph(g0, kmer), kmer, n, g0.nextId);
             && RootsWellFormed(g') && NodesAttached(g') && RootOf(g', kmer) == g0.nextId
             && (forall x | x in g0.kmers :: RootOf(g', x) == RootOf(g0, x))
    ensures NodesConnected(adj, WithNode(WithFreshSubgraph(g0, kmer), kmer, n, g0.nextId))
  {
    var g' := WithNode(WithFreshSubgraph(g0, kmer), kmer, n, g0.nextId);
    var K1 := g0.kmers.Keys + {kmer};
    assert g'.kmers.Keys == K1;
    ReachClosed(adj, K1, kmer);
    forall x | x in g'.kmers
      ensures x in Reach(adj, K1, g'.summaries[RootOf(g', x)].anyKmer)
    {
      if x != kmer {
        assert RootOf(g0, x) in g0.root;
        ReachMonotone(adj, g0.kmers.Keys, K1, g0.summaries[RootOf(g0, x)].anyKmer);
      }
    }
  }

  // ---------------------------------------------------------------------------
  // Eviction (removeBefore)
  // ---------------------------------------------------------------------------

  /** The representative k-mers of the given subgraphs. */
  ghost function Anchors(g: Graph, ids: set<SubgraphId>): set<Kmer>
    requires ids <= g.summaries.Keys
  {
    set s | s in ids :: g.summaries[s].anyKmer
  }

  /** With subgraphs separated, everything a stored k-mer reaches lies in its own subgraph. */
  lemma ReachWithinSubgraph(adj: Kmer -> seq<Kmer>, g: Graph, a: Kmer)
    requires RootsWellFormed(g) && NodesAttached(g) && Separated(adj, g) && a in g.kmers
    ensures forall z | z in Reach(adj, g.kmers.Keys, a) :: z in g.kmers && RootOf(g, z) == RootOf(g, a)
  {
    var c := set z | z in g.kmers && RootOf(g, z) == RootOf(g, a);
    forall x, i | x in c && 0 <= i < |adj(x)| && adj(x)[i] in g.kmers.Keys
      ensures adj(x)[i] in c
    {
    }
    ReachLeast(adj, g.kmers.Keys, a, c);
  }

  /** The k-mers reachable from the representatives of `ids` are exactly the members of those subgraphs. */
  lemma ReachUnionExact(k: KmerLength, adj: Kmer -> seq<Kmer>, g: Graph, ids: set<SubgraphId>)
    requires Structured(k, adj, g) && Partitioned(adj, g) && ids <= g.subgraphs
    ensures forall x | x in g.kmers :: x in ReachUnion(adj, g.kmers.Keys, Anchors(g, ids)) <==> RootOf(g, x) in ids
  {
    var K := g.kmers.Keys;
    forall x | x in g.kmers
      ensures x in ReachUnion(adj, K, Anchors(g, ids)) <==> RootOf(g, x) in ids
    {
      if RootOf(g, x) in ids {
        assert g.summaries[RootOf(g, x)].anyKmer in Anchors(g, ids);
      }
      if x in ReachUnion(adj, K, Anchors(g, ids)) {
        var a :| a in Anchors(g, ids) && x in Reach(adj, K, a);
        var s :| s in ids && g.summaries[s].anyKmer == a;
        ReachWithinSubgraph(adj, g, a);
      }
    }
  }

  /** Evicting whole subgraphs, with every k-mer reachable from them, keeps the state consistent. */
  lemma EvictionKeepsConsistent(k: KmerLength, adj: Kmer -> seq<Kmer>, g: Graph, toRemove: set<SubgraphId>, g': Graph)
    requires Consistent(k, adj, g) && toRemove <= g.subgraphs
    requires g'.kmers.Keys == g.kmers.Keys - ReachUnion(adj, g.kmers.Keys, Anchors(g, toRemove))
    requires forall x | x in g'.kmers :: g'.kmers[x] == g.kmers[x]
    requires g'.subgraphs == g.subgraphs - toRemove
    requires g'.summaries == g.summaries && g'.root == g.root && g'.nextId == g.nextId
    ensures Consistent(k, adj, g')
  {
    EvictionKeepsStructure(k, adj, g, toRemove, g');
    ReachUnionExact(k, adj, g, toRemove);
    EvictionKeepsPartition(adj, g, toRemove, g');
  }

  lemma EvictionKeepsPartition(adj: Kmer -> seq<Kmer>, g: Graph, toRemove: set<SubgraphId>, g': Graph)
    requires RootsWellFormed(g) && ActiveAreRoots(g) && NodesAttached(g) && Partitioned(adj, g) && toRemove <= g.subgraphs
    requires RootsWellFormed(g') && NodesAttached(g')
    requires g'.kmers.Keys == set x | x in g.kmers && RootOf(g, x) !in toRemove
    requires forall x | x in g'.kmers :: g'.kmers[x] == g.kmers[x]
    requires g'.subgraphs == g.subgraphs - toRemove
    requires g'.summaries == g.summaries && g'.root == g.root
    ensures Partitioned(adj, g')
  {
    forall x, i | x in g'.kmers && 0 <= i < |adj(x)| && adj(x)[i] in g'.kmers
      ensures RootOf(g', x) == RootOf(g', adj(x)[i])
    {
      assert RootOf(g, x) == RootOf(g, adj(x)[i]);
    }
    forall t | t in g'.subgraphs
      ensures t in g'.summaries && g'.summaries[t].anyKmer in g'.kmers && RootOf(g', g'.summaries[t].anyKmer) == t
    {
      assert RootOf(g, g.summaries[t].anyKmer) == t;
    }
  }

  lemma EvictionKeepsStructure(k: KmerLength, adj: Kmer -> seq<Kmer>, g: Graph, toRemove: set<SubgraphId>, g': Graph)
    requires Consistent(k, adj, g) && toRemove <= g.subgraphs
    requires g'.kmers.Keys == g.kmers.Keys - ReachUnion(adj, g.kmers.Keys, Anchors(g, toRemove))
    requires forall x | x in g'.kmers :: g'.kmers[x] == g.kmers[x]
    requires g'.subgraphs == g.subgraphs - toRemove
    requires g'.summaries == g.summaries && g'.root == g.root && g'.nextId == g.nextId
    ensures Structured(k, adj, g') && BoundedExcept(g', None)
  {
    var K := g.kmers.Keys;
    var anchors := Anchors(g, toRemove);
    var u := ReachUnion(adj, K, anchors);
    ReachUnionClosed(adj, K, anchors);
    forall x | x in g'.kmers
      ensures RootOf(g, x) !in toRemove
      ensures x in Reach(adj, g'.kmers.Keys, g.summaries[RootOf(g, x)].anyKmer)
    {
      var a := g.summaries[RootOf(g, x)].anyKmer;
      assert x in Reach(adj, K, a) && x !in u;
      assert RootOf(g, x) in toRemove ==> a in anchors;
      ReachAfterRemoval(adj, K, u, a);
    }
  }
}
