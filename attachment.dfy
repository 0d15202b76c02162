/**
 * The attachment of a new k-mer (the neighbour scan of onKmerAdded) as a function
 * of the engine state, and the proof that it keeps the subgraph invariant: the
 * class method is shown to compute exactly this function.
 */
module Attachment {
  import opened Optional
  import opened KmerEncoding
  import opened Intervals
  import opened Reachability
  import opened DeBruijnNode
  import opened SubgraphSummary
  import opened SubgraphInvariant

  /** Which instance a merge of two subgraphs leaves as the root. */
  datatype Survivor = KeepFirst | KeepSecond | NewInstance

  /** The merge policy: which of two roots survives a merge, or whether a new instance does. */
  type MergePolicy = (SubgraphId, SubgraphId) -> Survivor

  /** The id of the survivor of merging `a` and `b`; a new instance takes the next unused id. */
  function SurvivorId(policy: MergePolicy, a: SubgraphId, b: SubgraphId, nextId: SubgraphId): SubgraphId
  {
    match policy(a, b)
    case KeepFirst => a
    case KeepSecond => b
    case NewInstance => nextId
  }


  /** The active set after merging `a` with `b` into `newg`: the one that did not survive leaves, a new instance enters. */
  function MergeActive(subgraphs: set<SubgraphId>, a: SubgraphId, b: SubgraphId, newg: SubgraphId): set<SubgraphId>
  {
    if newg == a then subgraphs - {b}
    else if newg == b then subgraphs - {a}
    else subgraphs - {b} - {a} + {newg}
  }

  /** Each of the three merge outcomes amounts to replacing `s` and `r0` in the active set by the survivor. */
  lemma MergedActiveSet(current: set<SubgraphId>, s: SubgraphId, r0: SubgraphId, newg: SubgraphId)
    requires s in current && r0 in current && s != r0
    ensures MergeActive(current, s, r0, newg) == current - {s, r0} + {newg}
  {
  }

  /** Where the neighbour scan stands: the state so far and the subgraph chosen so far. */
  datatype Scan = Scan(g: Graph, survivor: Option<SubgraphId>)

  /**
   * One neighbour `y` of `kmer` in the scan: ignored when it is `kmer` itself or not
   * stored; otherwise its subgraph is chosen if none is yet, or merged with the
   * chosen one when different. (Roots missing from the arena cannot occur in a
   * consistent state; the scan leaves the state as it is for them.)
   */
  ghost function ScanStep(policy: MergePolicy, kmer: Kmer, sc: Scan, y: Kmer): Scan
  {
    var g := sc.g;
    if y == kmer || y !in g.kmers || g.kmers[y].subgraph !in g.root then sc
    else
      var gadj := g.root[g.kmers[y].subgraph];
      match sc.survivor
      case None => Scan(g, Some(gadj))
      case Some(s) =>
        if s == gadj || s !in g.summaries || gadj !in g.summaries then sc
        else
          var newg := SurvivorId(policy, s, gadj, g.nextId);
          Scan(Merged(g, s, gadj, newg).(subgraphs := MergeActive(g.subgraphs, s, gadj, newg)), Some(newg))
  }

  /** The scan over the neighbours `ys`, in order. */
  ghost function ScanAll(policy: MergePolicy, kmer: Kmer, g0: Graph, ys: seq<Kmer>): Scan
  {
    if ys == [] then Scan(g0, None)
    else ScanStep(policy, kmer, ScanAll(policy, kmer, g0, ys[..|ys| - 1]), ys[|ys| - 1])
  }

  /** The state after `kmer` is stored with aggregate `n` and attached to the subgraph its neighbours lead to. */
  ghost function AttachKmer(policy: MergePolicy, adj: Kmer -> seq<Kmer>, g0: Graph, kmer: Kmer, n: Support): Graph
  {
    var sc := ScanAll(policy, kmer, g0, adj(kmer));
    if sc.survivor.None? then WithNode(WithFreshSubgraph(g0, kmer), kmer, n, g0.nextId)
    else WithNode(sc.g, kmer, n, sc.survivor.value)
  }

  /** The scan keeps the attachment invariant, with the neighbours' roots as the merged set. */
  lemma {:induction false} ScanKeepsInvariant(k: KmerLength, adj: Kmer -> seq<Kmer>, policy: MergePolicy,
                                              kmer: Kmer, g0: Graph, ys: seq<Kmer>)
    requires Structured(k, adj, g0) && AnchorsInside(g0) && SymmetricOnKmers(adj, k) && IsKmer(k, kmer)
    requires forall i | 0 <= i < |ys| :: ys[i] in adj(kmer)
    ensures var sc := ScanAll(policy, kmer, g0, ys);
            AttachInvariant(adj, kmer, g0, sc.g, PresentRoots(g0, kmer, ys), sc.survivor)
  {
    if ys == [] {
      AttachStart(adj, kmer, g0);
    } else {
      var ys' := ys[..|ys| - 1];
      var y := ys[|ys| - 1];
      assert forall i | 0 <= i < |ys'| :: ys'[i] == ys[i];
      ScanKeepsInvariant(k, adj, policy, kmer, g0, ys');
      var sc := ScanAll(policy, kmer, g0, ys');
      var merged := PresentRoots(g0, kmer, ys');
      assert ScanAll(policy, kmer, g0, ys) == ScanStep(policy, kmer, sc, y);
      PresentRootsStep(g0, kmer, ys);
      if y != kmer && y in g0.kmers {
        ScanNeighbour(k, adj, policy, kmer, g0, sc, merged, y);
      } else {
        assert sc.g.kmers == g0.kmers;
        ScanSkip(policy, kmer, sc, y);
      }
    }
  }

  lemma PresentRootsStep(g: Graph, kmer: Kmer, ys: seq<Kmer>)
    requires NodesAttached(g) && ys != []
    ensures var y := ys[|ys| - 1];
            PresentRoots(g, kmer, ys)
            == if y != kmer && y in g.kmers then PresentRoots(g, kmer, ys[..|ys| - 1]) + {RootOf(g, y)}
               else PresentRoots(g, kmer, ys[..|ys| - 1])
  {
  }

  /**
   * Before each scan step the arena is well formed, the store is as it was, every
   * stored k-mer's summary is allocated, and the subgraph chosen so far is a root.
   */
  lemma ScanReady(k: KmerLength, adj: Kmer -> seq<Kmer>, policy: MergePolicy, kmer: Kmer, g0: Graph, n: nat, y: Kmer)
    requires Structured(k, adj, g0) && AnchorsInside(g0) && SymmetricOnKmers(adj, k) && IsKmer(k, kmer) && n <= |adj(kmer)|
    ensures var sc := ScanAll(policy, kmer, g0, adj(kmer)[..n]);
            && RootsWellFormed(sc.g) && sc.g.kmers == g0.kmers
            && (y in g0.kmers ==> g0.kmers[y].subgraph in sc.g.root)
            && (sc.survivor.Some? ==> sc.survivor.value in sc.g.root && sc.g.root[sc.survivor.value] == sc.survivor.value)
  {
    var ys := adj(kmer)[..n];
    ScanKeepsInvariant(k, adj, policy, kmer, g0, ys);
    var sc := ScanAll(policy, kmer, g0, ys);
    if y in g0.kmers {
      assert g0.kmers[y].subgraph in g0.root;
    }
  }

  /** Until a stored neighbour is found the scan leaves the state as it was. */
  lemma {:induction false} ScanBeforeFirst(policy: MergePolicy, kmer: Kmer, g0: Graph, ys: seq<Kmer>)
    ensures ScanAll(policy, kmer, g0, ys).survivor.None? ==> ScanAll(policy, kmer, g0, ys).g == g0
  {
    if ys != [] {
      ScanBeforeFirst(policy, kmer, g0, ys[..|ys| - 1]);
    }
  }

  /** The k-mer itself and absent neighbours are skipped. */
  lemma ScanSkip(policy: MergePolicy, kmer: Kmer, sc: Scan, y: Kmer)
    requires y == kmer || y !in sc.g.kmers
    ensures ScanStep(policy, kmer, sc, y) == sc
  {
  }

  /** The scan step for a stored neighbour keeps the attachment invariant. */
  lemma ScanNeighbour(k: KmerLength, adj: Kmer -> seq<Kmer>, policy: MergePolicy, kmer: Kmer, g0: Graph,
                      sc: Scan, merged: set<SubgraphId>, y: Kmer)
    requires Structured(k, adj, g0) && AnchorsInside(g0) && SymmetricOnKmers(adj, k) && IsKmer(k, kmer)
    requires y in adj(kmer) && y != kmer && y in g0.kmers
    requires AttachInvariant(adj, kmer, g0, sc.g, merged, sc.survivor)
    ensures var sc' := ScanStep(policy, kmer, sc, y);
            AttachInvariant(adj, kmer, g0, sc'.g, merged + {RootOf(g0, y)}, sc'.survivor)
  {
    NeighbourJoins(k, adj, g0, kmer, y);
    if sc.survivor.None? {
      ScanFirst(adj, policy, kmer, g0, sc, merged, y);
    } else {
      NeighbourRootInScan(adj, kmer, g0, sc.g, merged, sc.survivor.value, y);
      if RootOf(g0, y) in merged {
        ScanSame(adj, policy, kmer, g0, sc, merged, y);
      } else {
        ScanMerge(adj, policy, kmer, g0, sc, merged, y);
      }
    }
  }

  lemma ScanFirst(adj: Kmer -> seq<Kmer>, policy: MergePolicy, kmer: Kmer, g0: Graph,
                  sc: Scan, merged: set<SubgraphId>, y: Kmer)
    requires RootsWellFormed(g0) && ActiveAreRoots(g0) && NodesAttached(g0) && AnchorsInside(g0) && y != kmer && y in g0.kmers
    requires var K1 := g0.kmers.Keys + {kmer};
             Reach(adj, K1, g0.summaries[RootOf(g0, y)].anyKmer) == Reach(adj, K1, kmer)
    requires AttachInvariant(adj, kmer, g0, sc.g, merged, sc.survivor) && sc.survivor.None?
    ensures var sc' := ScanStep(policy, kmer, sc, y);
            AttachInvariant(adj, kmer, g0, sc'.g, merged + {RootOf(g0, y)}, sc'.survivor)
  {
    var r0 := RootOf(g0, y);
    assert sc.g == g0 && merged == {};
    assert ScanStep(policy, kmer, sc, y) == Scan(g0, Some(r0));
    AttachFirst(adj, kmer, g0, y);
    assert merged + {r0} == {r0};
  }

  lemma ScanSame(adj: Kmer -> seq<Kmer>, policy: MergePolicy, kmer: Kmer, g0: Graph,
                 sc: Scan, merged: set<SubgraphId>, y: Kmer)
    requires RootsWellFormed(g0) && NodesAttached(g0) && y != kmer && y in g0.kmers
    requires AttachFrame(g0, sc.g) && sc.survivor.Some?
    requires g0.kmers[y].subgraph in sc.g.root && sc.g.root[g0.kmers[y].subgraph] == sc.survivor.value
    requires RootOf(g0, y) in merged
    ensures ScanStep(policy, kmer, sc, y) == sc && merged + {RootOf(g0, y)} == merged
  {
  }

  lemma ScanMerge(adj: Kmer -> seq<Kmer>, policy: MergePolicy, kmer: Kmer, g0: Graph,
                  sc: Scan, merged: set<SubgraphId>, y: Kmer)
    requires RootsWellFormed(g0) && ActiveAreRoots(g0) && NodesAttached(g0) && AnchorsInside(g0) && y != kmer && y in g0.kmers
    requires var K1 := g0.kmers.Keys + {kmer};
             Reach(adj, K1, g0.summaries[RootOf(g0, y)].anyKmer) == Reach(adj, K1, kmer)
    requires AttachInvariant(adj, kmer, g0, sc.g, merged, sc.survivor) && sc.survivor.Some?
    requires var s, r0 := sc.survivor.value, RootOf(g0, y);
             && s in sc.g.subgraphs && s in sc.g.root && sc.g.root[s] == s
             && r0 in g0.subgraphs && r0 !in merged
             && g0.kmers[y].subgraph in sc.g.root && sc.g.root[g0.kmers[y].subgraph] == r0
             && r0 in sc.g.subgraphs && r0 in sc.g.root && sc.g.root[r0] == r0
    ensures var sc' := ScanStep(policy, kmer, sc, y);
            AttachInvariant(adj, kmer, g0, sc'.g, merged + {RootOf(g0, y)}, sc'.survivor)
  {
    var g, s, r0 := sc.g, sc.survivor.value, RootOf(g0, y);
    var newg := SurvivorId(policy, s, r0, g.nextId);
    assert s != r0;
    assert s in g.summaries && r0 in g.summaries;
    assert ScanStep(policy, kmer, sc, y) == Scan(Merged(g, s, r0, newg).(subgraphs := MergeActive(g.subgraphs, s, r0, newg)), Some(newg));
    MergedActiveSet(g.subgraphs, s, r0, newg);
    AttachMerge(adj, kmer, g0, g, merged, s, r0, newg);
  }

  /**
   * Attaching a new k-mer keeps the structure (its own bounds are widened next),
   * stores the k-mer and nothing else, and moves every k-mer whose subgraph was
   * merged into the subgraph the new k-mer joins.
   */
  lemma AttachKmerProperties(k: KmerLength, adj: Kmer -> seq<Kmer>, policy: MergePolicy, g0: Graph, kmer: Kmer, n: Support)
    requires Consistent(k, adj, g0) && SymmetricOnKmers(adj, k) && IsKmer(k, kmer) && kmer !in g0.kmers
    ensures var g := AttachKmer(policy, adj, g0, kmer, n);
            var N := PresentRoots(g0, kmer, adj(kmer));
            && Structured(k, adj, g) && BoundedExcept(g, Some(kmer))
            && g.kmers == g0.kmers[kmer := Node(n, g.kmers[kmer].subgraph)]
            && (forall x | x in g0.kmers :: RootOf(g, x) == if RootOf(g0, x) in N then RootOf(g, kmer) else RootOf(g0, x))
  {
    if ScanAll(policy, kmer, g0, adj(kmer)).survivor.None? {
      AttachKmerFresh(k, adj, policy, g0, kmer, n);
    } else {
      AttachKmerJoined(k, adj, policy, g0, kmer, n);
    }
  }

  /** `AttachKmerProperties` when no neighbour is stored. */
  lemma AttachKmerFresh(k: KmerLength, adj: Kmer -> seq<Kmer>, policy: MergePolicy, g0: Graph, kmer: Kmer, n: Support)
    requires Consistent(k, adj, g0) && SymmetricOnKmers(adj, k) && IsKmer(k, kmer) && kmer !in g0.kmers
    requires ScanAll(policy, kmer, g0, adj(kmer)).survivor.None?
    ensures var g := AttachKmer(policy, adj, g0, kmer, n);
            var N := PresentRoots(g0, kmer, adj(kmer));
            && Structured(k, adj, g) && BoundedExcept(g, Some(kmer))
            && g.kmers == g0.kmers[kmer := Node(n, g.kmers[kmer].subgraph)]
            && (forall x | x in g0.kmers :: RootOf(g, x) == if RootOf(g0, x) in N then RootOf(g, kmer) else RootOf(g0, x))
  {
    var ys := adj(kmer);
    ScanKeepsInvariant(k, adj, policy, kmer, g0, ys);
    assert PresentRoots(g0, kmer, ys) == {};
    AttachFresh(k, adj, kmer, g0, n);
  }

  /** `AttachKmerProperties` when some neighbour is stored. */
  lemma AttachKmerJoined(k: KmerLength, adj: Kmer -> seq<Kmer>, policy: MergePolicy, g0: Graph, kmer: Kmer, n: Support)
    requires Structured(k, adj, g0) && BoundedExcept(g0, None) && AnchorsInside(g0)
    requires SymmetricOnKmers(adj, k) && IsKmer(k, kmer) && kmer !in g0.kmers
    requires ScanAll(policy, kmer, g0, adj(kmer)).survivor.Some?
    ensures var g := AttachKmer(policy, adj, g0, kmer, n);
            var N := PresentRoots(g0, kmer, adj(kmer));
            && Structured(k, adj, g) && BoundedExcept(g, Some(kmer))
            && g.kmers == g0.kmers[kmer := Node(n, g.kmers[kmer].subgraph)]
            && (forall x | x in g0.kmers :: RootOf(g, x) == if RootOf(g0, x) in N then RootOf(g, kmer) else RootOf(g0, x))
  {
    var ys := adj(kmer);
    ScanKeepsInvariant(k, adj, policy, kmer, g0, ys);
    var sc := ScanAll(policy, kmer, g0, ys);
    AttachComplete(k, adj, kmer, g0, sc.g, PresentRoots(g0, kmer, ys), sc.survivor.value, n);
  }

  /**
   * After attaching a new k-mer the subgraphs are still the components of the
   * store: no stored adjacency links two of them, and each holds its representative.
   */
  lemma AttachKmerPartitioned(k: KmerLength, adj: Kmer -> seq<Kmer>, policy: MergePolicy, g0: Graph, kmer: Kmer, n: Support)
    requires Consistent(k, adj, g0) && SymmetricOnKmers(adj, k) && IsKmer(k, kmer) && kmer !in g0.kmers
    ensures var g := AttachKmer(policy, adj, g0, kmer, n);
            RootsWellFormed(g) && NodesAttached(g) && Partitioned(adj, g)
  {
    AttachKmerSeparated(k, adj, policy, g0, kmer, n);
    if ScanAll(policy, kmer, g0, adj(kmer)).survivor.None? {
      AttachFreshAnchors(k, adj, policy, g0, kmer, n);
    } else {
      AttachJoinedAnchors(k, adj, policy, g0, kmer, n);
    }
  }

  /** The store and the subgraph of every k-mer after attaching a new k-mer. */
  lemma AttachKmerRoots(k: KmerLength, adj: Kmer -> seq<Kmer>, policy: MergePolicy, g0: Graph, kmer: Kmer, n: Support)
    requires Consistent(k, adj, g0) && SymmetricOnKmers(adj, k) && IsKmer(k, kmer) && kmer !in g0.kmers
    ensures var g := AttachKmer(policy, adj, g0, kmer, n);
            var N := PresentRoots(g0, kmer, adj(kmer));
            && RootsWellFormed(g) && NodesAttached(g) && g.kmers.Keys == g0.kmers.Keys + {kmer}
            && (forall x | x in g0.kmers :: RootOf(g, x) == if RootOf(g0, x) in N then RootOf(g, kmer) else RootOf(g0, x))
  {
    if ScanAll(policy, kmer, g0, adj(kmer)).survivor.None? {
      AttachFreshRoots(k, adj, policy, g0, kmer, n);
    } else {
      AttachJoinedRoots(k, adj, policy, g0, kmer, n);
    }
  }

  lemma AttachFreshRoots(k: KmerLength, adj: Kmer -> seq<Kmer>, policy: MergePolicy, g0: Graph, kmer: Kmer, n: Support)
    requires Structured(k, adj, g0) && AnchorsInside(g0) && SymmetricOnKmers(adj, k) && IsKmer(k, kmer) && kmer !in g0.kmers
    requires ScanAll(policy, kmer, g0, adj(kmer)).survivor.None?
    ensures var g := AttachKmer(policy, adj, g0, kmer, n);
            var N := PresentRoots(g0, kmer, adj(kmer));
            && RootsWellFormed(g) && NodesAttached(g) && g.kmers.Keys == g0.kmers.Keys + {kmer}
            && (forall x | x in g0.kmers :: RootOf(g, x) == if RootOf(g0, x) in N then RootOf(g, kmer) else RootOf(g0, x))
  {
    var ys := adj(kmer);
    ScanKeepsInvariant(k, adj, policy, kmer, g0, ys);
    assert PresentRoots(g0, kmer, ys) == {};
    FreshRoots(kmer, g0, n);
  }

  lemma AttachJoinedRoots(k: KmerLength, adj: Kmer -> seq<Kmer>, policy: MergePolicy, g0: Graph, kmer: Kmer, n: Support)
    requires Structured(k, adj, g0) && BoundedExcept(g0, None) && AnchorsInside(g0) && SymmetricOnKmers(adj, k) && IsKmer(k, kmer) && kmer !in g0.kmers
    requires ScanAll(policy, kmer, g0, adj(kmer)).survivor.Some?
    ensures var g := AttachKmer(policy, adj, g0, kmer, n);
            var N := PresentRoots(g0, kmer, adj(kmer));
            && RootsWellFormed(g) && NodesAttached(g) && g.kmers.Keys == g0.kmers.Keys + {kmer}
            && (forall x | x in g0.kmers :: RootOf(g, x) == if RootOf(g0, x) in N then RootOf(g, kmer) else RootOf(g0, x))
  {
    AttachKmerJoined(k, adj, policy, g0, kmer, n);
    var g := AttachKmer(policy, adj, g0, kmer, n);
    assert g.kmers.Keys == g0.kmers.Keys + {kmer};
  }

  lemma AttachKmerSeparated(k: KmerLength, adj: Kmer -> seq<Kmer>, policy: MergePolicy, g0: Graph, kmer: Kmer, n: Support)
    requires Consistent(k, adj, g0) && SymmetricOnKmers(adj, k) && IsKmer(k, kmer) && kmer !in g0.kmers
    ensures var g := AttachKmer(policy, adj, g0, kmer, n);
            RootsWellFormed(g) && NodesAttached(g) && Separated(adj, g)
  {
    AttachKmerRoots(k, adj, policy, g0, kmer, n);
    var g := AttachKmer(policy, adj, g0, kmer, n);
    JoinSeparated(k, adj, kmer, g0, g, PresentRoots(g0, kmer, adj(kmer)), RootOf(g, kmer));
  }

  lemma AttachFreshAnchors(k: KmerLength, adj: Kmer -> seq<Kmer>, policy: MergePolicy, g0: Graph, kmer: Kmer, n: Support)
    requires Structured(k, adj, g0) && BoundedExcept(g0, None) && Partitioned(adj, g0)
    requires SymmetricOnKmers(adj, k) && IsKmer(k, kmer) && kmer !in g0.kmers
    requires ScanAll(policy, kmer, g0, adj(kmer)).survivor.None?
    ensures var g := AttachKmer(policy, adj, g0, kmer, n);
            RootsWellFormed(g) && NodesAttached(g) && AnchorsInside(g)
  {
    var ys := adj(kmer);
    ScanKeepsInvariant(k, adj, policy, kmer, g0, ys);
    assert PresentRoots(g0, kmer, ys) == {};
    AttachFresh(k, adj, kmer, g0, n);
    FreshPartitioned(k, adj, kmer, g0, n);
  }

  lemma AttachJoinedAnchors(k: KmerLength, adj: Kmer -> seq<Kmer>, policy: MergePolicy, g0: Graph, kmer: Kmer, n: Support)
    requires Structured(k, adj, g0) && AnchorsInside(g0)
    requires SymmetricOnKmers(adj, k) && IsKmer(k, kmer) && kmer !in g0.kmers
    requires ScanAll(policy, kmer, g0, adj(kmer)).survivor.Some?
    ensures var g := AttachKmer(policy, adj, g0, kmer, n);
            RootsWellFormed(g) && NodesAttached(g) && AnchorsInside(g)
  {
    var ys := adj(kmer);
    ScanKeepsInvariant(k, adj, policy, kmer, g0, ys);
    var sc := ScanAll(policy, kmer, g0, ys);
    var N := PresentRoots(g0, kmer, ys);
    var s := sc.survivor.value;
    CompleteRoots(adj, kmer, g0, sc.g, N, s, n);
    CompleteAnchors(kmer, g0, sc.g, N, s, n);
  }

  /**
   * The subgraphs after attaching a new k-mer: a fresh singleton when no neighbour
   * is stored; otherwise one subgraph replaces those of the stored neighbours, and
   * its interval is exactly the union of theirs (it covers each, and anything
   * covering all of them covers it). Every other subgraph is as it was.
   */
  lemma AttachKmerSubgraphs(k: KmerLength, adj: Kmer -> seq<Kmer>, policy: MergePolicy, g0: Graph, kmer: Kmer, n: Support)
    requires Consistent(k, adj, g0) && SymmetricOnKmers(adj, k) && IsKmer(k, kmer) && kmer !in g0.kmers
    ensures var g := AttachKmer(policy, adj, g0, kmer, n);
            var N := PresentRoots(g0, kmer, adj(kmer));
            && kmer in g.kmers && g.kmers[kmer].subgraph in g.root
            && (N == {} ==> && RootOf(g, kmer) == g0.nextId && RootOf(g, kmer) in g.summaries
                            && g.summaries[RootOf(g, kmer)] == NewSummary(kmer)
                            && g.subgraphs == g0.subgraphs + {RootOf(g, kmer)})
            && (N != {} ==> && RootOf(g, kmer) in g.summaries
                            && (RootOf(g, kmer) in N || g0.nextId <= RootOf(g, kmer))
                            && g.subgraphs == g0.subgraphs - N + {RootOf(g, kmer)}
                            && Covers(g.summaries[RootOf(g, kmer)].interval, g0, N)
                            && forall o :: Covers(o, g0, N) ==> Contains(o, g.summaries[RootOf(g, kmer)].interval))
            && (forall s | s in g0.subgraphs && s !in N :: s in g.summaries && g.summaries[s] == g0.summaries[s])
  {
    var ys := adj(kmer);
    ScanKeepsInvariant(k, adj, policy, kmer, g0, ys);
    var sc := ScanAll(policy, kmer, g0, ys);
    var N := PresentRoots(g0, kmer, ys);
    if sc.survivor.None? {
      assert N == {};
      AttachFreshSummaries(g0, kmer, n);
    } else {
      var g := AttachKmer(policy, adj, g0, kmer, n);
      assert g == WithNode(sc.g, kmer, n, sc.survivor.value);
      assert RootOf(g, kmer) == sc.survivor.value;
    }
  }

  lemma AttachFreshSummaries(g0: Graph, kmer: Kmer, n: Support)
    requires RootsWellFormed(g0) && ActiveAreRoots(g0)
    ensures var g := WithNode(WithFreshSubgraph(g0, kmer), kmer, n, g0.nextId);
            && g0.nextId !in g0.subgraphs
            && g.summaries[g0.nextId] == NewSummary(kmer)
            && (forall s | s in g0.subgraphs :: g.summaries[s] == g0.summaries[s])
  {
    assert g0.nextId !in g0.root;
  }
}
