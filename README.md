# GRIDSS de Bruijn subgraph engine — a Dafny model

GRIDSS assembles contigs across candidate structural-variant breakpoints.
Evidence arrives in genome order and is added to a de Bruijn graph of k-mers,
one graph per breakend direction and reference sequence. This project models
that graph's incremental engine, `DeBruijnReadGraph`, and the category registry
of `ProcessingContext`.

What the engine keeps:

- **K-mer store.** Every k-mer is mapped to its node: the reference flag, the
  best reference position, and the reference and mate position bounds. Each node
  also holds its supporting evidence and the subgraph summary it was attached to.
- **Subgraphs.** Summaries track connected components. Merging is union-find
  style: a summary absorbed into another resolves to the survivor, called its
  root. The active set holds the roots.
- **Adding a k-mer.** A new k-mer joins the subgraph of its stored neighbours
  and merges every neighbour subgraph it touches. A k-mer with no stored
  neighbour starts a fresh subgraph. Either way, the subgraph's bounding
  interval widens to cover the new observation.
- **Assembling.** When the genome cursor has passed a subgraph, and the
  subgraph is not wider than the safety width, its contigs are assembled.
  Each contig resolves to a breakend call:
  - anchored on the reference by its leading reference k-mers; otherwise
  - anchored on the closest mate position; otherwise
  - no call.
- **Evicting.** Subgraphs before the cursor, or timed out, are evicted together
  with every k-mer reachable from them.

How the model is built:

- **Engine state.** The state is a `Graph` value holding the store, the active
  set, the summary arena, the compressed root map and the next unused summary
  id. The class `DeBruijnReadGraph.ReadGraph` holds these as fields and updates
  them in place.
- **Methods against spec functions.** Each class method is proved equal to a
  function of the old state: `AttachKmer`, `AddKmer`, `ResolveContig`,
  `AssembledCalls`, or `Evicted`/`Survivors`. The lemmas beside those functions
  prove what the source promises.
- **The invariant.** `SubgraphInvariant.Consistent` holds when:
  1. the root map is well formed, and only roots are active;
  2. every stored k-mer's subgraph is active;
  3. every stored k-mer is reachable from its subgraph's representative k-mer;
  4. every node lies within its subgraph's interval;
  5. no stored adjacency links two subgraphs, and every active subgraph's
     representative k-mer is one of its stored members.

  Conditions 3 and 5 together make each active subgraph exactly one connected
  component of the store, so eviction removes whole subgraphs and nothing else.
  The class keeps `Consistent` across `Add` and `RemoveBefore`. The engine's
  sanity check tests part of it: condition 2, condition 4, and that only roots
  are active. The rest of condition 1 (the root map's shape), condition 3 and
  condition 5 are not tested by it.
- **Reachability.** `reachableFrom` is modelled as a breadth-first traversal.
  It is proved to produce `Reachability.Reach`. `Reach` is the least
  adjacency-closed set of present k-mers that contains the start.
- **K-mer adjacency.** It is the 2-bit encoding's eight one-base shifts. It is
  proved symmetric, and connectivity depends on that.

`ProcessingContext` keeps a list of category labels. `registerCategory` is
"index of, or append". The model proves:

- round-trip: looking up the returned index gives the label back;
- idempotence;
- no label is stored twice;
- earlier indices never move.

The metrics record count starts at `Long.MAX_VALUE`.

## Model

| member | source | states |
|---|---|---|
| KmerEncoding.AdjacentStates | src/main/java/au/edu/wehi/idsv/debruijn/subgraph/DeBruijnReadGraph.java:61 | a k-mer has eight adjacent states (four predecessors, then four successors), and each of them is again a valid k-mer of the same length |
| KmerEncoding.AdjacencySymmetric | src/main/java/au/edu/wehi/idsv/debruijn/subgraph/DeBruijnReadGraph.java:61 | if y is adjacent to x, then x is adjacent to y; this is why stored neighbours connect both ways |
| Reachability.ReachClosed | src/main/java/au/edu/wehi/idsv/debruijn/subgraph/DeBruijnReadGraph.java:232 | the reach of a k-mer stays within the store, holds its start when the start is stored, and contains every stored neighbour of each of its members |
| Reachability.ReachLeast | src/main/java/au/edu/wehi/idsv/debruijn/subgraph/DeBruijnReadGraph.java:232 | the reach is contained in every adjacency-closed set that holds the start |
| Reachability.ReachSymmetric | src/main/java/au/edu/wehi/idsv/debruijn/subgraph/DeBruijnReadGraph.java:232 | with symmetric adjacency, a reachable k-mer reaches back, and both reach the same set |
| Reachability.ReachAfterRemoval | src/main/java/au/edu/wehi/idsv/debruijn/subgraph/DeBruijnReadGraph.java:232-233 | removing a closed part of the store cuts exactly that part out of every reach |
| Reachability.ReachUnionStep | src/main/java/au/edu/wehi/idsv/debruijn/subgraph/DeBruijnReadGraph.java:230-236 | removing one more reach, computed on what is left, gives the store minus the union of all the reaches computed on the original store |
| Traversal.ReachableFrom | src/main/java/au/edu/wehi/idsv/debruijn/subgraph/DeBruijnReadGraph.java:232 | the breadth-first traversal returns exactly the reach of its start |
| Intervals.Union | src/main/java/au/edu/wehi/idsv/debruijn/subgraph/DeBruijnReadGraph.java:98 | the result covers both intervals and is covered by every interval that covers both; it is unset only when both are unset |
| DeBruijnNode.MergeSupport | src/main/java/au/edu/wehi/idsv/debruijn/subgraph/DeBruijnReadGraph.java:96 | a re-observed k-mer's bounds are the smallest covering both observations, its evidence is the union of both, and it is a reference k-mer when either observation was |
| SubgraphSummary.AddNode | src/main/java/au/edu/wehi/idsv/debruijn/subgraph/DeBruijnReadGraph.java:98 | widening keeps the representative k-mer and covers the old bounds and the node's reference and mate ranges, and by no more than that |
| SubgraphSummary.Merge | src/main/java/au/edu/wehi/idsv/debruijn/subgraph/DeBruijnReadGraph.java:70 | the merged interval covers both intervals and is the least interval that does; it is empty only when both are; the representative k-mer is one of the two, the one of the summary chosen to keep its own |
| SubgraphSummary.TimeoutSeparatesAssemblyFromEviction | src/main/java/au/edu/wehi/idsv/debruijn/subgraph/DeBruijnReadGraph.java:103-105 | every subgraph assembled at a position is also evicted there; a subgraph is evicted without being assembled exactly when it exceeds the timeout (`ExceedsTimeout`: its anchor width is more than the safety width) |
| SubgraphInvariant.PresentRoots | src/main/java/au/edu/wehi/idsv/debruijn/subgraph/DeBruijnReadGraph.java:61-65 | the subgraphs of a k-mer's stored neighbours (not the k-mer itself) are exactly the active subgraphs reached through one of them |
| SubgraphInvariant.SupportReplaced | src/main/java/au/edu/wehi/idsv/debruijn/subgraph/DeBruijnReadGraph.java:95-96 | replacing a stored node's aggregate keeps the structure: roots, subgraph membership, encoding and connectivity |
| SubgraphInvariant.SupportReplacedBounds | src/main/java/au/edu/wehi/idsv/debruijn/subgraph/DeBruijnReadGraph.java:95-96 | replacing a stored node's aggregate keeps every other node within its subgraph's bounds |
| SubgraphInvariant.ReachWithinSubgraph | src/main/java/au/edu/wehi/idsv/debruijn/subgraph/DeBruijnReadGraph.java:232 | with no adjacency linking two subgraphs, everything a stored k-mer reaches is a stored member of its own subgraph |
| SubgraphInvariant.ReachUnionExact | src/main/java/au/edu/wehi/idsv/debruijn/subgraph/DeBruijnReadGraph.java:228-239 | in a consistent state, a stored k-mer is reachable from the representatives of a set of active subgraphs exactly when its own subgraph is one of them |
| SubgraphInvariant.EvictionKeepsConsistent | src/main/java/au/edu/wehi/idsv/debruijn/subgraph/DeBruijnReadGraph.java:228-239 | dropping whole active subgraphs, with every k-mer reachable from them, leaves a consistent state, including the separation of the remaining subgraphs |
| Attachment.MergedActiveSet | src/main/java/au/edu/wehi/idsv/debruijn/subgraph/DeBruijnReadGraph.java:70-79 | each of the three merge outcomes replaces the two merged subgraphs in the active set by the survivor |
| Attachment.ScanKeepsInvariant | src/main/java/au/edu/wehi/idsv/debruijn/subgraph/DeBruijnReadGraph.java:61-83 | through each step of the neighbour scan: the store is unchanged; the neighbours' subgraphs seen so far are merged into the chosen one; every k-mer stays reachable from its subgraph's representative |
| Attachment.AttachKmerProperties | src/main/java/au/edu/wehi/idsv/debruijn/subgraph/DeBruijnReadGraph.java:57-90 | see the notes below the table |
| Attachment.AttachKmerSubgraphs | src/main/java/au/edu/wehi/idsv/debruijn/subgraph/DeBruijnReadGraph.java:57-90 | see the notes below the table |
| Attachment.AttachKmerPartitioned | src/main/java/au/edu/wehi/idsv/debruijn/subgraph/DeBruijnReadGraph.java:57-90 | after attaching a new k-mer, no stored adjacency links two subgraphs and every active subgraph still holds its representative k-mer |
| Insertion.AddKmer | src/main/java/au/edu/wehi/idsv/debruijn/subgraph/DeBruijnReadGraph.java:95-101 | the state after `add` is consistent again, and the store's k-mers are the old ones plus the added k-mer |
| Insertion.AddStoresNode | src/main/java/au/edu/wehi/idsv/debruijn/subgraph/DeBruijnReadGraph.java:95-98 | the stored aggregate is the merge with the existing node (or the new one); no other node changes; the k-mer's subgraph bounds cover the observation |
| Insertion.AddExisting | src/main/java/au/edu/wehi/idsv/debruijn/subgraph/DeBruijnReadGraph.java:95-98 | re-adding a stored k-mer keeps its subgraph and the active set; only that subgraph's summary is widened |
| Insertion.AddNewRoots | src/main/java/au/edu/wehi/idsv/debruijn/subgraph/DeBruijnReadGraph.java:57-90 | a new k-mer's neighbour subgraphs all resolve to the k-mer's subgraph afterwards, other k-mers keep theirs, and the active set is updated accordingly (see the notes below the table) |
| Insertion.AddNewBounds | src/main/java/au/edu/wehi/idsv/debruijn/subgraph/DeBruijnReadGraph.java:84-98 | the new k-mer's subgraph interval is the least one covering every subgraph it absorbed and the new observation: it covers each, and every interval covering all of them covers it; a fresh subgraph is bounded by the new observation alone |
| Insertion.AddNewUntouched | src/main/java/au/edu/wehi/idsv/debruijn/subgraph/DeBruijnReadGraph.java:57-90 | active subgraphs the new k-mer does not touch keep their summaries |
| DeBruijnReadGraph.ReadGraph.MergeSubgraphs | src/main/java/au/edu/wehi/idsv/debruijn/subgraph/DeBruijnReadGraph.java:70 | the survivor is the one the merge policy picks (or a new summary), and everything that resolved to either root now resolves to it |
| DeBruijnReadGraph.ReadGraph.JoinNeighbour | src/main/java/au/edu/wehi/idsv/debruijn/subgraph/DeBruijnReadGraph.java:63-81 | one stored neighbour performs exactly one step of the scan function, including the three active-set updates |
| DeBruijnReadGraph.ReadGraph.ScanNeighbours | src/main/java/au/edu/wehi/idsv/debruijn/subgraph/DeBruijnReadGraph.java:59-83 | the loop over the adjacent states computes the scan function on the old state |
| DeBruijnReadGraph.ReadGraph.OnKmerAdded | src/main/java/au/edu/wehi/idsv/debruijn/subgraph/DeBruijnReadGraph.java:57-90 | the new state is `AttachKmer` of the old state, the attachment whose properties are stated above |
| DeBruijnReadGraph.ReadGraph.constructor | src/main/java/au/edu/wehi/idsv/debruijn/subgraph/DeBruijnReadGraph.java:44-48 | a new engine has an empty store, no subgraphs and an empty root map, is consistent, and keeps the parameters it was given |
| DeBruijnReadGraph.ReadGraph.Add | src/main/java/au/edu/wehi/idsv/debruijn/subgraph/DeBruijnReadGraph.java:95-101 | consistency is kept; the new state is `AddKmer` of the old one; the result is the stored node |
| Eviction.EvictOneMore | src/main/java/au/edu/wehi/idsv/debruijn/subgraph/DeBruijnReadGraph.java:231-235 | evicting one more subgraph, with its reach on what is left, gives the survivors of the larger evicted set |
| Eviction.EvictedStep | src/main/java/au/edu/wehi/idsv/debruijn/subgraph/DeBruijnReadGraph.java:230-236 | visiting one more subgraph adds it to the evicted set (`Evicted`) exactly when it is evictable: its maximum anchor is before the position, or it exceeds the timeout (`ExceedsTimeout`, lines 103-105) |
| Eviction.EvictedGone | src/main/java/au/edu/wehi/idsv/debruijn/subgraph/DeBruijnReadGraph.java:224-239 | every k-mer of an evicted subgraph is removed; every survivor was stored and lies outside the reach of every evicted subgraph; the survivors are exactly the stored k-mers whose subgraph was not evicted |
| DeBruijnReadGraph.ReadGraph.RemoveKmers | src/main/java/au/edu/wehi/idsv/debruijn/subgraph/DeBruijnReadGraph.java:232-234 | the store loses exactly the given k-mers, and every remaining node is unchanged |
| DeBruijnReadGraph.ReadGraph.EvictIfStale | src/main/java/au/edu/wehi/idsv/debruijn/subgraph/DeBruijnReadGraph.java:231-236 | an evictable subgraph is recorded, and its current reach is removed; nothing happens otherwise |
| DeBruijnReadGraph.ReadGraph.EvictReaches | src/main/java/au/edu/wehi/idsv/debruijn/subgraph/DeBruijnReadGraph.java:229-237 | after the pass, the evicted set is exactly the evictable active subgraphs, and the store is exactly the survivors |
| DeBruijnReadGraph.ReadGraph.RemoveBefore | src/main/java/au/edu/wehi/idsv/debruijn/subgraph/DeBruijnReadGraph.java:228-239 | consistency is kept; the active set loses exactly the evicted subgraphs; the store keeps exactly the k-mers whose subgraph was not evicted, with unchanged nodes; no remaining subgraph is evictable |
| Anchoring.LeadingReferenceCount | src/main/java/au/edu/wehi/idsv/debruijn/subgraph/DeBruijnReadGraph.java:259-263 | the count is the length of a run of reference k-mers from the start of the contig, ended by a non-reference one or by the end |
| Anchoring.LeadingReferenceCountExact | src/main/java/au/edu/wehi/idsv/debruijn/subgraph/DeBruijnReadGraph.java:259-263 | any such run is the leading run, so the loop that stops at the first non-reference k-mer computes the count |
| Anchoring.MateAnchorClosest | src/main/java/au/edu/wehi/idsv/debruijn/subgraph/DeBruijnReadGraph.java:266-299 | see the notes below the table |
| Anchoring.SupportingEvidenceExact | src/main/java/au/edu/wehi/idsv/debruijn/subgraph/DeBruijnReadGraph.java:240-253 | a read supports a path exactly when it is evidence of one of the path's non-reference k-mers |
| Anchoring.ResolveContigAnchors | src/main/java/au/edu/wehi/idsv/debruijn/subgraph/DeBruijnReadGraph.java:300-323 | see the notes below the table |
| Anchoring.InsertByStartSorted | src/main/java/au/edu/wehi/idsv/debruijn/subgraph/DeBruijnReadGraph.java:196 | inserting a call into a list sorted by genomic start keeps it sorted |
| Anchoring.InsertByStartPermutes | src/main/java/au/edu/wehi/idsv/debruijn/subgraph/DeBruijnReadGraph.java:196 | inserting adds exactly that call and loses none |
| Anchoring.SortByStartCorrect | src/main/java/au/edu/wehi/idsv/debruijn/subgraph/DeBruijnReadGraph.java:196 | the calls come out sorted by genomic start, as a permutation of the input |
| Anchoring.InsertByStartStable | src/main/java/au/edu/wehi/idsv/debruijn/subgraph/DeBruijnReadGraph.java:196 | inserting a call puts it ahead of the calls with its start and keeps the order of all the others |
| Anchoring.SortByStartStable | src/main/java/au/edu/wehi/idsv/debruijn/subgraph/DeBruijnReadGraph.java:196 | the sort is stable, as the library sort is: for every start, the calls with that start keep their relative order |
| DeBruijnReadGraph.ReadGraph.GetSupportingEvidence | src/main/java/au/edu/wehi/idsv/debruijn/subgraph/DeBruijnReadGraph.java:243-253 | the loop returns the supporting evidence of the path's aggregates |
| DeBruijnReadGraph.ReadGraph.LeadingReferenceRun | src/main/java/au/edu/wehi/idsv/debruijn/subgraph/DeBruijnReadGraph.java:255-263 | returns the leading reference count, and the best reference position of the last reference k-mer of the run |
| DeBruijnReadGraph.ReadGraph.ClosestMateAnchor | src/main/java/au/edu/wehi/idsv/debruijn/subgraph/DeBruijnReadGraph.java:266-299 | the loop computes the closest mate anchor over the contig's aggregates |
| DeBruijnReadGraph.ReadGraph.ToAssemblyEvidence | src/main/java/au/edu/wehi/idsv/debruijn/subgraph/DeBruijnReadGraph.java:254-324 | the call returned is the resolution of the contig's aggregates, whose anchoring is stated above |
| Assembly.PathSupport | src/main/java/au/edu/wehi/idsv/debruijn/subgraph/DeBruijnReadGraph.java:246-250 | the aggregates of a path's k-mers, one per k-mer and in path order |
| Assembly.PresentExact | src/main/java/au/edu/wehi/idsv/debruijn/subgraph/DeBruijnReadGraph.java:185-190 | the calls kept are exactly the contigs' resolutions that are not null |
| Assembly.ContigCallsExact | src/main/java/au/edu/wehi/idsv/debruijn/subgraph/DeBruijnReadGraph.java:185-190 | a call comes from a subgraph's contigs exactly when one of those contigs resolves to it (the per-contig resolutions, `Resolutions`, dropping contigs without a call) |
| Assembly.AssembledCallsExact | src/main/java/au/edu/wehi/idsv/debruijn/subgraph/DeBruijnReadGraph.java:150-195 | a call is assembled exactly when it comes from a contig of a visited subgraph that is before the position and does not exceed the timeout (`ExceedsTimeout`, lines 103-105) |
| Assembly.AssembledCallMember | src/main/java/au/edu/wehi/idsv/debruijn/subgraph/DeBruijnReadGraph.java:150-195 | one call at a time: it is assembled exactly when some visited subgraph in the order is assemblable and that subgraph's contigs yield it |
| Assembly.AssembledOnlyBefore | src/main/java/au/edu/wehi/idsv/debruijn/subgraph/DeBruijnReadGraph.java:163 | every assembled call comes from the contigs of a visited subgraph whose maximum anchor lies before the position |
| DeBruijnReadGraph.ReadGraph.AssembleSubgraph | src/main/java/au/edu/wehi/idsv/debruijn/subgraph/DeBruijnReadGraph.java:164-190 | the calls of one subgraph are its contigs' non-null resolutions, in contig order |
| DeBruijnReadGraph.ReadGraph.AssembleEach | src/main/java/au/edu/wehi/idsv/debruijn/subgraph/DeBruijnReadGraph.java:150-195 | each active subgraph is visited once, and the calls are those of the assemblable subgraphs in visiting order |
| DeBruijnReadGraph.ReadGraph.AssembleContigsBefore | src/main/java/au/edu/wehi/idsv/debruijn/subgraph/DeBruijnReadGraph.java:148-198 | each active subgraph is visited once; the result is the calls of the assemblable subgraphs, sorted by start, a permutation of them, and with equal starts in visiting order |
| DeBruijnReadGraph.ReadGraph.ValidIsSane | src/main/java/au/edu/wehi/idsv/debruijn/subgraph/DeBruijnReadGraph.java:326-346 | a consistent engine passes the sanity check (see the notes below the table) |
| DeBruijnReadGraph.ReadGraph.SaneAfterEviction | src/main/java/au/edu/wehi/idsv/debruijn/subgraph/DeBruijnReadGraph.java:347-354 | after eviction at a position, the bounded sanity check passes, with that position as the expected minimum and the caller's bound as the expected maximum (see "## Left out") |
| ProcessingContext.IndexOf | src/main/java/au/edu/wehi/idsv/ProcessingContext.java:78 | the result is -1 exactly when the label is absent; otherwise it is the label's first index |
| ProcessingContext.RegisterExisting | src/main/java/au/edu/wehi/idsv/ProcessingContext.java:77-83 | a registered label gets its existing (first) index back, and the list does not grow |
| ProcessingContext.RegisterNew | src/main/java/au/edu/wehi/idsv/ProcessingContext.java:79-82 | a new label is appended at the end, and its index is the old size |
| ProcessingContext.RegisterRoundTrip | src/main/java/au/edu/wehi/idsv/ProcessingContext.java:77-94 | the returned index holds the label in the new list, and is its first occurrence there |
| ProcessingContext.RegisterIdempotent | src/main/java/au/edu/wehi/idsv/ProcessingContext.java:77-91 | registering a label twice gives the same index; the list, and so the category count, is as after the first time |
| ProcessingContext.RegisterKeepsIndices | src/main/java/au/edu/wehi/idsv/ProcessingContext.java:78-82 | registering grows the list by at most one, keeps it as a prefix, and keeps every label already present at its index |
| ProcessingContext.RegisterKeepsDistinct | src/main/java/au/edu/wehi/idsv/ProcessingContext.java:78-82 | registering never introduces a duplicate label |
| ProcessingContext.DistinctIndex | src/main/java/au/edu/wehi/idsv/ProcessingContext.java:78 | in a list without duplicates, a label's index is its position |
| ProcessingContext.ProcessingContext.constructor | src/main/java/au/edu/wehi/idsv/ProcessingContext.java:28-29 | a fresh context has no categories, and its metrics record count is `Long.MAX_VALUE` |
| ProcessingContext.ProcessingContext.SetCalculateMetricsRecordCount | src/main/java/au/edu/wehi/idsv/ProcessingContext.java:66-71 | after a set, the getter (`GetCalculateMetricsRecordCount`) returns the value set, and nothing else changes |
| ProcessingContext.ProcessingContext.RegisterCategory | src/main/java/au/edu/wehi/idsv/ProcessingContext.java:77-84 | still no duplicates; the list and the index are those of `Registered` and `RegisteredIndex`; the returned index looks up the label |
| ProcessingContext.ProcessingContext.GetCategoryCount | src/main/java/au/edu/wehi/idsv/ProcessingContext.java:89-91 | in a registry without duplicates, the count is the number of distinct labels registered |
| ProcessingContext.ProcessingContext.GetCategoryLabel | src/main/java/au/edu/wehi/idsv/ProcessingContext.java:92-94 | a label exists exactly for an index below the category count (`None` where the list lookup throws); in a registry without duplicates, the label found is the one whose registration returns that index |
| ProcessingContext.ProcessingContext.LabelRegistersBack | src/main/java/au/edu/wehi/idsv/ProcessingContext.java:77-94 | in a registry without duplicates, the label at an index registers back to that index and leaves the list unchanged |

Notes on the longer contracts:

- **`Attachment.AttachKmerProperties`**: attaching a new k-mer
  - keeps the structure, and stores the k-mer and nothing else;
  - moves every k-mer whose subgraph was merged into the new k-mer's subgraph,
    and leaves every other k-mer in its subgraph.
- **`Attachment.AttachKmerSubgraphs`**: attaching a new k-mer
  - starts a fresh subgraph with the next id when no neighbour is stored;
  - otherwise replaces the merged subgraphs by the survivor, whose interval is
    exactly their union: it covers each, and every interval covering all of
    them covers it;
  - leaves untouched subgraphs as they were.
- **`Insertion.AddNewRoots`**: when no neighbour is stored, the k-mer's subgraph is
  a fresh id added to the active set. Otherwise it is one of the neighbour
  subgraphs or a new id, and it replaces all of them in the active set.
- **`Anchoring.MateAnchorClosest`**: there is a mate anchor exactly when some
  non-reference k-mer has a mate position. The anchor is one of those positions,
  and it is the closest to the breakend: the maximum going forward, the minimum
  going backward.
- **`Anchoring.ResolveContigAnchors`**:
  - a call is reference-anchored exactly when the contig starts with a reference
    k-mer, at the best position of the leading run's last k-mer, with length
    run + k - 1;
  - otherwise it is mate-anchored at the closest mate position;
  - there is no call exactly when there is neither anchor;
  - a call carries the path's supporting evidence.
- **`DeBruijnReadGraph.ReadGraph.ValidIsSane`**: a consistent engine passes the
  sanity check. Every node's subgraph is active and bounds the node's reference
  and mate ranges, and only roots are active.

## Left out

- Logging, the debug export of path graphs, and the debug helpers are left out
  (lines 109-142, 152-162, 166-168, 176-184, 191-193 and 199-223 of
  `DeBruijnReadGraph.java`). They have no effect on the results.
- The safety width is a constructor parameter rather than the product of the
  configured fraction and the evidence source's maximum concordant fragment
  size (`getSafetyWidth`, lines 106-108). The evidence source is outside the
  core.
- The base class of `DeBruijnReadGraph` (the k-mer store, `getKmer`, `remove`,
  `reachableFrom`) is not part of this model:
  - the store is a map;
  - re-adding a k-mer merges aggregates as `DeBruijnNode.MergeSupport` says;
  - `reachableFrom` is the breadth-first search of `Traversal.ReachableFrom`.
- The path-graph assembler (graph building, bubble collapse, contig extraction)
  is not part of this model. It is a parameter of the engine that returns the
  contigs of a subgraph. The engine assumes only that every contig k-mer is in
  the store.
- The collapse step's safety-limit outcome is a flag in the assembler's result.
  Exceeding the limit marks the subgraph as timed out, but the code then still
  extracts and resolves its contigs: the flag only decides visualisation. The
  model does not skip such a subgraph either.
- `SubgraphSummary` is not part of this model. Its bounds are assumed to be the
  union of its nodes' reference and mate ranges, and its representative k-mer
  that of the first k-mer or of a merged summary. Which instance survives a
  merge is a parameter of the engine (the merge policy), so every property
  holds for every choice `SubgraphSummary.merge` could make.
- `getSubgraph()` of a node is taken to return the root of the summary the node
  was attached to. The union-find is modelled with every path already
  compressed.
- A summary whose bounds were never set is never before a position and never
  timed out. An insertion always sets the bounds of the k-mer's subgraph, so
  this only affects nodes that carry no position at all.
- The bounded sanity check compares only Span upper bounds, for the same
  reason.
- The evidence objects are opaque identifiers. The call records the contig, its
  anchor and its supporting evidence. The assembled record's other contents
  (bases, qualities, breakend summary), built by the assembly builder, are not
  part of this model.
- Positions, widths and counts are unbounded integers. Java 32-bit overflow in
  `maxAnchor - minAnchor` and in the loop counters is not modelled.
- In `toAssemblyEvidence`, the branch at lines 278-296 (a non-reference k-mer
  with no mate position, after a mate anchor was found, on a path without
  reference k-mers) changes no result, and the model skips it. Its debug message
  (line 293) reads the k-mer's first supporting evidence eagerly, which would
  throw for a node without evidence. Nodes are only ever built from evidence,
  but the model does not track that a node's evidence is non-empty, so that
  throw is not modelled.
- `DeBruijnReadGraph.ReadGraph.SaneAfterEviction`: the expected maximum is the
  caller's bound on every subgraph's anchors and enters as a precondition; the
  model does not derive it from the evidence added.
- `removeBefore` removes a subgraph's k-mers while it walks them (lines
  232-234: `remove` is called on each k-mer as the lazy traversal yields it).
  `EvictIfStale` computes the whole reach first and then removes it, so the
  interleaving of traversal and removal is not modelled. Both remove the reach
  on the store as it stands when the subgraph is visited. `RemoveBefore` states
  the cumulative result.
- `ScanStep` leaves the state unchanged for a neighbour whose summary is
  missing from the arena. A consistent state never has one.
- `AssembleContigsBefore` and `RemoveBefore` visit the active set in an order
  the model does not fix (Java's hash-set iteration order). Sorting by start
  makes the assembled list independent of it, up to the order of equal starts.
  `AssembleContigsBefore` names the order it used as a ghost output.
- The call's genomic start, the key of the `ByLocationStart` ordering (line
  196), is taken to be its anchor position. `VariantContextDirectedEvidence`
  and the assembly builder that sets the start are not part of this model.
- `DeBruijnNode.MergeSupport` keeps the first reference observation's best
  reference position when both observations are reference ones. The base
  class's node merge, which may choose the best-supported position instead,
  is not part of this model.
- `AdjacentStates` is a concrete 2-bit encoding of k-mers. The engine only
  calls `KmerEncodingHelper.adjacentStates`, which is not part of this model.
  Its four predecessors and four successors are assumed to be the one-base
  shifts of that encoding.
- `ProcessingContext`:
  - the constructor's buffer tracker, `createMetricsFile`, `registerBuffer` and
    the configuration getters are left out; they are I/O, concurrency or
    library wrappers;
  - the `registerCategory(int, String)` overload is not part of this model;
  - `getCategoryLabel` returns `None` where the list lookup would throw;
  - the list's 32-bit size limit is not modelled;
  - labels are strings, so `registerCategory(null)`, which Java accepts and
    stores, is not modelled.
