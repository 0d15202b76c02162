/**
 * The incremental de Bruijn subgraph engine. K-mers are inserted as evidence
 * streams in; every k-mer belongs to a connected subgraph whose bounding
 * interval covers its nodes; subgraphs wholly before the genome cursor are
 * assembled into contigs and resolved to breakend calls, and evicted together
 * with every k-mer reachable from them.
 *
 * Subgraph summaries live in an arena indexed by SubgraphId; `root` is the
 * union-find with every path already compressed (each allocated summary maps to
 * the root it was absorbed into, a root maps to itself). A node records the
 * summary it was attached to; its subgraph is the root of that summary.
 */
module DeBruijnReadGraph {
  import opened Optional
  import opened KmerEncoding
  import opened Intervals
  import opened Reachability
  import opened DeBruijnNode
  import opened SubgraphSummary
  import opened Anchoring
  import opened SubgraphInvariant
  import opened Traversal
  import opened Attachment
  import opened Insertion
  import opened Assembly
  import opened Eviction

  function AdjacencyOf(k: KmerLength): Kmer -> seq<Kmer>
  {
    x => AdjacentStates(k, x)
  }

  lemma EncodingAdjacencySymmetric(k: KmerLength)
    ensures SymmetricOnKmers(AdjacencyOf(k), k)
  {
    forall x, i | IsKmer(k, x) && 0 <= i < |AdjacencyOf(k)(x)| && IsKmer(k, AdjacencyOf(k)(x)[i])
      ensures x in AdjacencyOf(k)(AdjacencyOf(k)(x)[i])
    {
      AdjacencySymmetric(k, x, AdjacencyOf(k)(x)[i]);
    }
  }

  class ReadGraph {
    const k: KmerLength
    const referenceIndex: int
    const direction: Direction
    /** Widest a subgraph may span before it is treated as a runaway region. */
    const safetyWidth: int
    const maxBaseMismatchForCollapse: nat
    const collapseBubblesOnly: bool
    /** The adjacency of the 2-bit k-mer encoding; fixed by the constructor to `AdjacencyOf(k)`. */
    const adjacency: Kmer -> seq<Kmer>
    /** Which instance survives a merge of two subgraphs (the summary merge of the subgraph class). */
    const mergeChoice: MergePolicy
    const assembler: PathGraphAssembler

    var kmers: Store
    /** The active subgraphs: the roots. */
    var subgraphs: set<SubgraphId>
    var summaries: map<SubgraphId, Summary>
    var root: map<SubgraphId, SubgraphId>
    var nextId: SubgraphId

    /** The engine's state as a value. */
    ghost function State(): Graph
      reads this
    {
      Graph(kmers, subgraphs, summaries, root, nextId)
    }

    /** The consistency the engine's sanity check asserts, plus what eviction and assembly rely on. */
    ghost predicate Valid()
      reads this
    {
      Consistent(k, adjacency, State()) && SymmetricOnKmers(adjacency, k) && ContigsInStore(assembler)
    }

    constructor (k: KmerLength, referenceIndex: int, direction: Direction, safetyWidth: int,
                 maxBaseMismatchForCollapse: nat, collapseBubblesOnly: bool,
                 mergeChoice: MergePolicy, assembler: PathGraphAssembler)
      requires ContigsInStore(assembler)
      ensures Valid()
      ensures kmers == map[] && subgraphs == {} && root == map[]
      ensures this.k == k && this.referenceIndex == referenceIndex && this.direction == direction
      ensures this.safetyWidth == safetyWidth && this.maxBaseMismatchForCollapse == maxBaseMismatchForCollapse
      ensures this.collapseBubblesOnly == collapseBubblesOnly
      ensures this.mergeChoice == mergeChoice && this.assembler == assembler
      ensures adjacency == AdjacencyOf(k)
    {
      this.k := k;
      this.referenceIndex := referenceIndex;
      this.direction := direction;
      this.safetyWidth := safetyWidth;
      this.maxBaseMismatchForCollapse := maxBaseMismatchForCollapse;
      this.collapseBubblesOnly := collapseBubblesOnly;
      this.adjacency := AdjacencyOf(k);
      this.mergeChoice := mergeChoice;
      this.assembler := assembler;
      EncodingAdjacencySymmetric(k);
      kmers := map[];
      subgraphs := {};
      summaries := map[];
      root := map[];
      nextId := 0;
    }

    /**
     * Merges two distinct root subgraphs. The survivor is one of the two or a new
     * instance, as the merge policy decides; every summary that resolved to either
     * root now resolves to the survivor, whose interval is the union of both.
     */
    method MergeSubgraphs(a: SubgraphId, b: SubgraphId) returns (s: SubgraphId)
      requires RootsWellFormed(State()) && a in root && b in root && root[a] == a && root[b] == b && a != b
      modifies this`summaries, this`root, this`nextId
      ensures s == SurvivorId(mergeChoice, a, b, old(nextId))
      ensures State() == Merged(old(State()), a, b, s)
    {
      match mergeChoice(a, b) {
        case KeepFirst => s := a;
        case KeepSecond => s := b;
        case NewInstance =>
          s := nextId;
          nextId := nextId + 1;
      }
      summaries := summaries[s := Merge(summaries[a], summaries[b], s != b)];
      root := map i | i in root.Keys + {s} :: if i == s || root[i] == a || root[i] == b then s else root[i];
    }

    /**
     * Attaches a newly stored k-mer to a subgraph: the subgraph of its first stored
     * neighbour, merged with that of every further neighbour in a different one, or
     * a fresh singleton subgraph when no neighbour is stored.
     */
    method OnKmerAdded(kmer: Kmer, support: Support)
      requires Valid() && IsKmer(k, kmer) && kmer !in kmers
      modifies this
      ensures State() == AttachKmer(mergeChoice, adjacency, old(State()), kmer, support)
    {
      ghost var g0 := State();
      var g := ScanNeighbours(kmer);
      if g.None? {
        // nothing next to it: a new subgraph
        ScanBeforeFirst(mergeChoice, kmer, g0, adjacency(kmer));
        var s := nextId;
        nextId := nextId + 1;
        summaries := summaries[s := NewSummary(kmer)];
        root := root[s := s];
        subgraphs := subgraphs + {s};
        kmers := kmers[kmer := Node(support, s)];
        assert State() == WithNode(WithFreshSubgraph(g0, kmer), kmer, support, g0.nextId);
      } else {
        ghost var before := State();
        kmers := kmers[kmer := Node(support, g.value)];
        assert State() == WithNode(before, kmer, support, g.value);
      }
    }

    /** The neighbour scan of the attachment, over the k-mer's adjacent states in order. */
    method ScanNeighbours(kmer: Kmer) returns (g: Option<SubgraphId>)
      requires Valid() && IsKmer(k, kmer) && kmer !in kmers
      modifies this`summaries, this`root, this`nextId, this`subgraphs
      ensures Scan(State(), g) == ScanAll(mergeChoice, kmer, old(State()), adjacency(kmer))
    {
      ghost var g0 := State();
      var adjacent := adjacency(kmer);
      g := None;
      var i := 0;
      while i < |adjacent|
        invariant 0 <= i <= |adjacent|
        invariant Scan(State(), g) == ScanAll(mergeChoice, kmer, g0, adjacent[..i])
      {
        var adjKmer := adjacent[i];
        ScanReady(k, adjacency, mergeChoice, kmer, g0, i, adjKmer);
        assert adjacent[..i + 1][..i] == adjacent[..i];
        // loops back to the k-mer itself are ignored
        if adjKmer != kmer && adjKmer in kmers {
          g := JoinNeighbour(kmer, adjKmer, g);
        } else {
          ScanSkip(mergeChoice, kmer, Scan(State(), g), adjKmer);
        }
        i := i + 1;
      }
      assert adjacent[..|adjacent|] == adjacent;
    }

    /**
     * One stored neighbour of the k-mer being attached: its subgraph becomes the
     * one the k-mer joins, or is merged with the one chosen so far, and the active
     * set loses the merged subgraphs and gains the survivor.
     */
    method JoinNeighbour(kmer: Kmer, adjKmer: Kmer, g: Option<SubgraphId>) returns (g': Option<SubgraphId>)
      requires RootsWellFormed(State()) && adjKmer != kmer && adjKmer in kmers && kmers[adjKmer].subgraph in root
      requires g.Some? ==> g.value in root && root[g.value] == g.value
      modifies this`summaries, this`root, this`nextId, this`subgraphs
      ensures Scan(State(), g') == ScanStep(mergeChoice, kmer, Scan(old(State()), g), adjKmer)
    {
      var gadj := root[kmers[adjKmer].subgraph];
      if g.None? {
        g' := Some(gadj);
      } else if g.value != gadj {
        // this k-mer joins two subgraphs
        ghost var before := State();
        var newg := MergeSubgraphs(g.value, gadj);
        if newg == g.value {
          subgraphs := subgraphs - {gadj};
        } else if newg == gadj {
          subgraphs := subgraphs - {g.value};
        } else {
          subgraphs := subgraphs - {gadj};
          subgraphs := subgraphs - {g.value};
          subgraphs := subgraphs + {newg};
        }
        assert State() == Merged(before, g.value, gadj, newg).(subgraphs := MergeActive(before.subgraphs, g.value, gadj, newg));
        g' := Some(newg);
      } else {
        g' := g;
      }
    }

    /**
     * Stores a k-mer's evidence, merging it into the node already stored for the
     * k-mer if there is one, and widens the subgraph's bounds to cover it.
     */
    method Add(kmer: Kmer, support: Support) returns (result: Node)
      requires Valid() && IsKmer(k, kmer)
      modifies this
      ensures Valid()
      ensures State() == AddKmer(k, mergeChoice, adjacency, old(State()), kmer, support)
      ensures result == kmers[kmer]
    {
      ghost var g0 := State();
      if kmer in kmers {
        var existing := kmers[kmer];
        kmers := kmers[kmer := Node(MergeSupport(existing.support, support), existing.subgraph)];
      } else {
        OnKmerAdded(kmer, support);
      }
      assert State() == Stored(mergeChoice, adjacency, g0, kmer, support);
      StoredStructured(k, mergeChoice, adjacency, g0, kmer, support);
      result := kmers[kmer];
      var s := root[result.subgraph];
      summaries := summaries[s := AddNode(summaries[s], support)];
      assert State() == AddKmer(k, mergeChoice, adjacency, g0, kmer, support);
    }

    /** The simplification the assembler is asked for: bubble collapsing when mismatches are allowed at all. */
    function Request(): CollapseRequest
    {
      if maxBaseMismatchForCollapse > 0 then Collapse(maxBaseMismatchForCollapse, collapseBubblesOnly) else NoCollapse
    }

    /**
     * Assembles every active subgraph that lies wholly before `position` and has not
     * timed out, and returns the calls of its contigs ordered by genomic start.
     * `order` is the order in which the subgraphs were visited.
     */
    method AssembleContigsBefore(position: int) returns (calls: seq<Call>, ghost order: seq<SubgraphId>)
      requires Valid()
      ensures DistinctIds(order) && forall s :: s in order <==> s in subgraphs
      ensures calls == SortByStart(AssembledCalls(kmers, summaries, order, assembler, Request(), position, safetyWidth,
                                                  k, direction, referenceIndex))
      ensures SortedByStart(calls)
      ensures multiset(calls) == multiset(AssembledCalls(kmers, summaries, order, assembler, Request(), position, safetyWidth,
                                                         k, direction, referenceIndex))
      ensures forall v :: WithStart(calls, v) == WithStart(AssembledCalls(kmers, summaries, order, assembler, Request(), position,
                                                                          safetyWidth, k, direction, referenceIndex), v)
    {
      var contigs;
      contigs, order := AssembleEach(position);
      calls := SortByStart(contigs);
      SortByStartCorrect(contigs);
      forall v ensures WithStart(calls, v) == WithStart(contigs, v) {
        SortByStartStable(contigs, v);
      }
    }

    /** The loop of `AssembleContigsBefore`: the calls of each assembled subgraph, in visiting order. */
    method AssembleEach(position: int) returns (contigs: seq<Call>, ghost order: seq<SubgraphId>)
      requires subgraphs <= summaries.Keys && ContigsInStore(assembler)
      ensures DistinctIds(order) && forall s :: s in order <==> s in subgraphs
      ensures contigs == AssembledCalls(kmers, summaries, order, assembler, Request(), position, safetyWidth,
                                        k, direction, referenceIndex)
    {
      contigs := [];
      var pending := subgraphs;
      order := [];
      while pending != {}
        invariant pending <= subgraphs
        invariant DistinctIds(order) && forall s :: s in order <==> s in subgraphs && s !in pending
        invariant contigs == AssembledCalls(kmers, summaries, order, assembler, Request(), position, safetyWidth,
                                            k, direction, referenceIndex)
        decreases |pending|
      {
        var ss :| ss in pending;
        var summary := summaries[ss];
        var timeoutExceeded := ExceedsTimeout(summary, safetyWidth);
        if Before(summary, position) && !timeoutExceeded {
          var found := AssembleSubgraph(summary.anyKmer);
          contigs := contigs + found;
        }
        assert (order + [ss])[..|order|] == order;
        order := order + [ss];
        pending := pending - {ss};
      }
    }

    /** The calls of the contigs the assembler extracts from the subgraph holding `anyKmer`, in contig order. */
    method AssembleSubgraph(anyKmer: Kmer) returns (found: seq<Call>)
      requires ContigsInStore(assembler)
      ensures found == ContigCalls(kmers, assembler(kmers, anyKmer, Request()).contigs, k, direction, referenceIndex)
    {
      var pga := assembler(kmers, anyKmer, Request());
      ghost var rs := Resolutions(kmers, pga.contigs, k, direction, referenceIndex);
      found := [];
      var i := 0;
      while i < |pga.contigs|
        invariant 0 <= i <= |pga.contigs|
        invariant found == Present(rs[..i])
      {
        var variant := ToAssemblyEvidence(pga.contigs[i]);
        assert rs[..i + 1][..i] == rs[..i];
        if variant.Some? {
          found := found + [variant.value];
        }
        i := i + 1;
      }
      assert rs[..|pga.contigs|] == rs;
    }

    /**
     * Evicts every active subgraph that lies wholly before `position` or has timed
     * out, with every k-mer reachable from it; reaches are taken on the store as it
     * stands when each subgraph is visited.
     */
    method RemoveBefore(position: int)
      requires Valid()
      modifies this`kmers, this`subgraphs
      ensures Valid()
      ensures var evicted := Evicted(old(State()), old(subgraphs), position, safetyWidth);
              && subgraphs == old(subgraphs) - evicted
              && kmers.Keys == Survivors(adjacency, old(State()), evicted)
              && kmers.Keys == set x | x in old(kmers) && RootOf(old(State()), x) !in evicted
              && (forall x | x in kmers :: kmers[x] == old(kmers)[x])
      ensures forall s | s in subgraphs :: !Evictable(summaries[s], position, safetyWidth)
    {
      ghost var g0 := State();
      assert g0.subgraphs <= g0.summaries.Keys;
      var toRemove := EvictReaches(position, g0);
      subgraphs := subgraphs - toRemove;
      EvictionKeepsConsistent(k, adjacency, g0, toRemove, State());
      EvictedGone(k, adjacency, g0, toRemove);
    }

    /**
     * The loop of `RemoveBefore`: visits each active subgraph once and drops the
     * k-mers reachable from an evictable one; returns the subgraphs evicted.
     */
    method EvictReaches(position: int, ghost g0: Graph) returns (toRemove: set<SubgraphId>)
      requires g0.subgraphs <= g0.summaries.Keys
      requires kmers == g0.kmers && subgraphs == g0.subgraphs && summaries == g0.summaries
      modifies this`kmers
      ensures toRemove == Evicted(g0, g0.subgraphs, position, safetyWidth)
      ensures kmers.Keys == Survivors(adjacency, g0, toRemove)
      ensures forall x | x in kmers :: kmers[x] == g0.kmers[x]
    {
      toRemove := {};
      var pending := subgraphs;
      while pending != {}
        invariant pending <= g0.subgraphs
        invariant toRemove == Evicted(g0, g0.subgraphs - pending, position, safetyWidth)
        invariant kmers.Keys == Survivors(adjacency, g0, toRemove)
        invariant forall x | x in kmers :: kmers[x] == g0.kmers[x]
        decreases |pending|
      {
        var ss :| ss in pending;
        assert g0.subgraphs - (pending - {ss}) == (g0.subgraphs - pending) + {ss};
        EvictedStep(g0, g0.subgraphs - pending, ss, position, safetyWidth);
        toRemove := EvictIfStale(position, ss, g0, toRemove);
        pending := pending - {ss};
      }
    }

    /** One visit of `EvictReaches`: an evictable subgraph loses the k-mers still reachable from its representative. */
    method EvictIfStale(position: int, ss: SubgraphId, ghost g0: Graph, toRemove: set<SubgraphId>)
        returns (toRemove': set<SubgraphId>)
      requires toRemove <= g0.summaries.Keys && ss in g0.summaries && summaries == g0.summaries
      requires kmers.Keys == Survivors(adjacency, g0, toRemove)
      requires forall x | x in kmers :: kmers[x] == g0.kmers[x]
      modifies this`kmers
      ensures toRemove' == toRemove + (if Evictable(g0.summaries[ss], position, safetyWidth) then {ss} else {})
      ensures kmers.Keys == Survivors(adjacency, g0, toRemove')
      ensures forall x | x in kmers :: kmers[x] == g0.kmers[x]
    {
      var summary := summaries[ss];
      toRemove' := toRemove;
      if Before(summary, position) || ExceedsTimeout(summary, safetyWidth) {
        var reach := ReachableFrom(adjacency, kmers.Keys, summary.anyKmer);
        RemoveKmers(reach);
        EvictOneMore(adjacency, g0, toRemove, ss);
        toRemove' := toRemove + {ss};
      }
    }

    /** Removes the given k-mers from the store, one at a time. */
    method RemoveKmers(doomed: set<Kmer>)
      modifies this`kmers
      ensures kmers.Keys == old(kmers).Keys - doomed
      ensures forall x | x in kmers :: kmers[x] == old(kmers)[x]
    {
      var rest: set<Kmer> := doomed;
      while rest != {}
        invariant rest <= doomed
        invariant kmers.Keys == old(kmers).Keys - (doomed - rest)
        invariant forall x | x in kmers :: kmers[x] == old(kmers)[x]
        decreases |rest|
      {
        ghost var _ := SomeKmer(rest);
        var gone :| gone in rest;
        kmers := kmers - {gone};
        rest := rest - {gone};
      }
    }

    /**
     * The expensive sanity check: every node's subgraph is active and bounds the
     * node's reference and mate positions, and only root subgraphs are active.
     */
    ghost predicate SubgraphsSane()
      reads this
    {
      && (forall x | x in kmers ::
            && kmers[x].subgraph in root && root[kmers[x].subgraph] in subgraphs && root[kmers[x].subgraph] in summaries
            && NodeWithin(summaries[root[kmers[x].subgraph]].interval, kmers[x].support))
      && (forall s | s in subgraphs :: s in root && root[s] == s)
    }

    /** The sanity check with expected bounds: every active subgraph's upper bound lies in [minExpected, maxExpected]. */
    ghost predicate SubgraphsSaneWithin(minExpected: int, maxExpected: int)
      reads this
    {
      && SubgraphsSane()
      && forall s | s in subgraphs :: s in summaries && (summaries[s].interval.Span? ==>
                                        minExpected <= summaries[s].interval.hi <= maxExpected)
    }

    /** A consistent engine passes the sanity check. */
    lemma ValidIsSane()
      requires Valid()
      ensures SubgraphsSane()
    {
    }

    /** After eviction at `position`, every remaining bounded subgraph ends at or after `position`. */
    lemma SaneAfterEviction(position: int, maxExpected: int)
      requires Valid()
      requires forall s | s in subgraphs :: !Evictable(summaries[s], position, safetyWidth)
      requires forall s | s in subgraphs && summaries[s].interval.Span? :: summaries[s].interval.hi <= maxExpected
      ensures SubgraphsSaneWithin(position, maxExpected)
    {
    }

    /** The evidence supporting a path: that of its non-reference k-mers only. */
    method GetSupportingEvidence(path: seq<Kmer>) returns (evidence: set<EvidenceId>)
      requires forall i | 0 <= i < |path| :: path[i] in kmers
      ensures evidence == SupportingEvidence(PathSupport(kmers, path))
    {
      ghost var nodes := PathSupport(kmers, path);
      evidence := {};
      var i := 0;
      while i < |path|
        invariant 0 <= i <= |path|
        invariant evidence == SupportingEvidence(nodes[..i])
      {
        var node := kmers[path[i]].support;
        if !node.isReference {
          evidence := evidence + node.evidence;
        }
        assert nodes[..i + 1][..i] == nodes[..i];
        i := i + 1;
      }
      assert nodes[..|path|] == nodes;
    }

    /** Resolves a contig into a reference-anchored or mate-anchored call, or None when it has no anchor. */
    method ToAssemblyEvidence(contigKmers: seq<Kmer>) returns (call: Option<Call>)
      requires forall i | 0 <= i < |contigKmers| :: contigKmers[i] in kmers
      ensures call == ResolveContig(PathSupport(kmers, contigKmers), contigKmers, k, direction, referenceIndex)
    {
      var refCount, refAnchor := LeadingReferenceRun(contigKmers);
      var mateAnchor := ClosestMateAnchor(contigKmers);
      var evidence := GetSupportingEvidence(contigKmers);
      // with neither anchor the contig is an unanchored fork of the graph and yields no call
      call := AnchoredCall(referenceIndex, direction, contigKmers, k, refCount, refAnchor, mateAnchor, evidence);
    }

    /** The reference anchor: the length of the leading run of reference k-mers and the best position of its last one. */
    method LeadingReferenceRun(contigKmers: seq<Kmer>) returns (refCount: nat, refAnchor: int)
      requires forall i | 0 <= i < |contigKmers| :: contigKmers[i] in kmers
      ensures var nodes := PathSupport(kmers, contigKmers);
              && refCount == LeadingReferenceCount(nodes)
              && refAnchor == (if refCount > 0 then nodes[refCount - 1].bestReferencePosition else 0)
    {
      ghost var nodes := PathSupport(kmers, contigKmers);
      refCount := 0;
      refAnchor := 0;
      while refCount < |contigKmers|
        invariant 0 <= refCount <= |contigKmers|
        invariant forall j | 0 <= j < refCount :: nodes[j].isReference
        invariant refAnchor == (if refCount > 0 then nodes[refCount - 1].bestReferencePosition else 0)
      {
        var node := kmers[contigKmers[refCount]].support;
        if !node.isReference {
          break;
        }
        refCount := refCount + 1;
        refAnchor := node.bestReferencePosition;
      }
      LeadingReferenceCountExact(nodes, refCount);
    }

    /** The breakpoint k-mers: the mate anchor tightened towards the breakend over the non-reference k-mers. */
    method ClosestMateAnchor(contigKmers: seq<Kmer>) returns (mateAnchor: Option<int>)
      requires forall i | 0 <= i < |contigKmers| :: contigKmers[i] in kmers
      ensures mateAnchor == MateAnchorOf(PathSupport(kmers, contigKmers), direction)
    {
      ghost var nodes := PathSupport(kmers, contigKmers);
      mateAnchor := None;
      var i := 0;
      while i < |contigKmers|
        invariant 0 <= i <= |contigKmers|
        invariant mateAnchor == MateAnchorOf(nodes[..i], direction)
      {
        var node := kmers[contigKmers[i]].support;
        assert nodes[..i + 1][..i] == nodes[..i];
        if !node.isReference {
          var mp := MatePosition(node, direction);
          if mateAnchor.None? {
            mateAnchor := mp;
          } else if mp.Some? {
            mateAnchor := Some(if direction == Forward then Max(mp.value, mateAnchor.value) else Min(mp.value, mateAnchor.value));
          }
        }
        i := i + 1;
      }
      assert nodes[..|contigKmers|] == nodes;
    }
  }
}
