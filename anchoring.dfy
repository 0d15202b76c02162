/**
 * Resolving an assembled contig (an ordered path of k-mers, given here as the
 * aggregates of its k-mers) into a breakend call: anchored on the reference by
 * its leading reference k-mers, else on the closest mate position, else not at
 * all. Also the supporting evidence of a path and the ordering of the calls.
 */
module Anchoring {
  import opened Optional
  import opened KmerEncoding
  import opened Intervals
  import opened DeBruijnNode

  datatype Direction = Forward | Backward

  datatype Anchor =
    | ReferenceAnchor(position: int, anchorLength: int)
    | MateAnchor(matePosition: int)

  datatype Call = Call(
    referenceIndex: int,
    direction: Direction,
    anchor: Anchor,
    contig: seq<Kmer>,
    evidence: set<EvidenceId>)

  /** The genomic start a call is ordered by. */
  function Start(c: Call): int
  {
    match c.anchor
    case ReferenceAnchor(p, _) => p
    case MateAnchor(p) => p
  }

  /** Length of the maximal run of reference k-mers at the start of the contig. */
  function LeadingReferenceCount(nodes: seq<Support>): (n: nat)
    ensures n <= |nodes|
    ensures forall i | 0 <= i < n :: nodes[i].isReference
    ensures n < |nodes| ==> !nodes[n].isReference
  {
    if nodes == [] || !nodes[0].isReference then 0
    else 1 + LeadingReferenceCount(nodes[1..])
  }

  /** A run of `n` reference k-mers ended by a non-reference one (or the contig's end) is the leading run. */
  lemma {:induction false} LeadingReferenceCountExact(nodes: seq<Support>, n: nat)
    requires n <= |nodes| && (forall i | 0 <= i < n :: nodes[i].isReference) && (n < |nodes| ==> !nodes[n].isReference)
    ensures LeadingReferenceCount(nodes) == n
    decreases n
  {
    if n > 0 {
      LeadingReferenceCountExact(nodes[1..], n - 1);
    }
  }

  /** The mate position of a node nearest the breakend: its maximum going forward, its minimum going backward. */
  function MatePosition(n: Support, direction: Direction): (r: Option<int>)
    ensures r.None? <==> n.mateRange.Unset?
  {
    match n.mateRange
    case Unset => None
    case Span(lo, hi) => Some(if direction == Forward then hi else lo)
  }

  /** `a` is at least as close to the breakend as `b`. */
  predicate AtLeastAsClose(direction: Direction, a: int, b: int)
  {
    if direction == Forward then a >= b else a <= b
  }

  /** A non-reference k-mer with mate evidence: one that can anchor the contig on its mate. */
  predicate MateCandidate(n: Support, direction: Direction)
  {
    !n.isReference && MatePosition(n, direction).Some?
  }

  /** One step of the mate scan: the first value seen is taken as is, later ones only tighten it. */
  function TightenMateAnchor(anchor: Option<int>, mp: Option<int>, direction: Direction): Option<int>
  {
    if anchor.None? then mp
    else if mp.Some? then Some(if direction == Forward then Max(mp.value, anchor.value) else Min(mp.value, anchor.value))
    else anchor
  }

  function Max(a: int, b: int): int { if a >= b then a else b }
  function Min(a: int, b: int): int { if a <= b then a else b }

  /**
   * The scan over the contig's non-reference k-mers, left to right: the closest
   * mate position among those that have one, or None when none has.
   */
  function MateAnchorOf(nodes: seq<Support>, direction: Direction): Option<int>
    decreases |nodes|
  {
    if nodes == [] then None
    else
      var last := nodes[|nodes| - 1];
      var anchor := MateAnchorOf(nodes[..|nodes| - 1], direction);
      if last.isReference then anchor
      else TightenMateAnchor(anchor, MatePosition(last, direction), direction)
  }

  /**
   * The mate scan finds an anchor exactly when some non-reference k-mer has mate
   * evidence, and the anchor it finds is the mate position closest to the breakend.
   */
  lemma {:induction false} MateAnchorClosest(nodes: seq<Support>, direction: Direction)
    ensures var r := MateAnchorOf(nodes, direction);
            && (r.None? <==> forall i | 0 <= i < |nodes| :: !MateCandidate(nodes[i], direction))
            && (r.Some? ==> exists i | 0 <= i < |nodes| :: MateCandidate(nodes[i], direction) && MatePosition(nodes[i], direction) == r)
            && (r.Some? ==> forall i | 0 <= i < |nodes| && MateCandidate(nodes[i], direction) ::
                              AtLeastAsClose(direction, r.value, MatePosition(nodes[i], direction).value))
    decreases |nodes|
  {
    if nodes != [] {
      var init := nodes[..|nodes| - 1];
      MateAnchorClosest(init, direction);
      assert forall i | 0 <= i < |init| :: init[i] == nodes[i];
    }
  }

  /** The evidence of the non-reference k-mers of the path: reference k-mers support no breakpoint. */
  function SupportingEvidence(nodes: seq<Support>): set<EvidenceId>
    decreases |nodes|
  {
    if nodes == [] then {}
    else
      var last := nodes[|nodes| - 1];
      SupportingEvidence(nodes[..|nodes| - 1]) + (if last.isReference then {} else last.evidence)
  }

  /** A read supports the path exactly when it is evidence of one of the path's non-reference k-mers. */
  lemma {:induction false} SupportingEvidenceExact(nodes: seq<Support>)
    ensures forall e :: e in SupportingEvidence(nodes) <==>
                          exists i | 0 <= i < |nodes| :: !nodes[i].isReference && e in nodes[i].evidence
    decreases |nodes|
  {
    if nodes != [] {
      var init := nodes[..|nodes| - 1];
      SupportingEvidenceExact(init);
      assert forall i | 0 <= i < |init| :: init[i] == nodes[i];
    }
  }

  /**
   * The call a contig resolves to. A contig starting with reference k-mers is
   * anchored at the best reference position of the last of them, over that many
   * k-mers' worth of bases; otherwise it is anchored on the closest mate position;
   * otherwise it has no anchor and yields no call.
   */
  function ResolveContig(nodes: seq<Support>, contig: seq<Kmer>, k: KmerLength, direction: Direction, referenceIndex: int): Option<Call>
  {
    var refCount := LeadingReferenceCount(nodes);
    var refAnchor := if refCount > 0 then nodes[refCount - 1].bestReferencePosition else 0;
    AnchoredCall(referenceIndex, direction, contig, k, refCount, refAnchor, MateAnchorOf(nodes, direction), SupportingEvidence(nodes))
  }

  /** The call built from the results of the three scans of a contig. */
  function AnchoredCall(referenceIndex: int, direction: Direction, contig: seq<Kmer>, k: KmerLength,
                        refCount: nat, refAnchor: int, mateAnchor: Option<int>, evidence: set<EvidenceId>): Option<Call>
  {
    if refCount > 0 then
      // anchored on the reference
      Some(Call(referenceIndex, direction, ReferenceAnchor(refAnchor, refCount + k - 1), contig, evidence))
    else if mateAnchor.Some? then
      // an inexact breakend, anchored on the mate
      Some(Call(referenceIndex, direction, MateAnchor(mateAnchor.value), contig, evidence))
    else
      None
  }

  /**
   * A contig is reference-anchored exactly when it starts with a reference k-mer,
   * over its leading reference run; else mate-anchored at the closest mate
   * position; and yields no call exactly when it has neither anchor.
   */
  lemma ResolveContigAnchors(nodes: seq<Support>, contig: seq<Kmer>, k: KmerLength, direction: Direction, referenceIndex: int)
    ensures var r := ResolveContig(nodes, contig, k, direction, referenceIndex);
            && ((r.Some? && r.value.anchor.ReferenceAnchor?) <==> |nodes| > 0 && nodes[0].isReference)
            && (r.Some? && r.value.anchor.ReferenceAnchor? ==>
                  var n := LeadingReferenceCount(nodes);
                  r.value.anchor == ReferenceAnchor(nodes[n - 1].bestReferencePosition, n + k - 1))
            && (r.Some? && r.value.anchor.MateAnchor? ==> MateAnchorOf(nodes, direction) == Some(r.value.anchor.matePosition))
            && (r.None? <==> (|nodes| == 0 || !nodes[0].isReference)
                             && forall i | 0 <= i < |nodes| :: !MateCandidate(nodes[i], direction))
            && (r.Some? ==> r.value.referenceIndex == referenceIndex && r.value.direction == direction
                            && r.value.contig == contig && r.value.evidence == SupportingEvidence(nodes))
  {
    MateAnchorClosest(nodes, direction);
  }

  predicate SortedByStart(s: seq<Call>)
  {
    forall i, j | 0 <= i < j < |s| :: Start(s[i]) <= Start(s[j])
  }

  /** Inserts `c` before the first call that starts after it does not start before. */
  function InsertByStart(c: Call, s: seq<Call>): seq<Call>
  {
    if s == [] then [c]
    else if Start(c) <= Start(s[0]) then [c] + s
    else [s[0]] + InsertByStart(c, s[1..])
  }

  /** Insertion adds exactly the one call. */
  lemma {:induction false} InsertByStartPermutes(c: Call, s: seq<Call>)
    ensures multiset(InsertByStart(c, s)) == multiset(s) + multiset{c}
  {
    if s != [] && Start(c) > Start(s[0]) {
      InsertByStartPermutes(c, s[1..]);
      assert s == [s[0]] + s[1..];
    }
  }

  /** Insertion into a sorted list keeps it sorted. */
  lemma {:induction false} InsertByStartSorted(c: Call, s: seq<Call>)
    requires SortedByStart(s)
    ensures SortedByStart(InsertByStart(c, s))
  {
    if s != [] && Start(c) > Start(s[0]) {
      var rest := InsertByStart(c, s[1..]);
      InsertByStartSorted(c, s[1..]);
      assert Start(s[0]) <= Start(rest[0]);
      var r := [s[0]] + rest;
      forall i, j | 0 <= i < j < |r| ensures Start(r[i]) <= Start(r[j]) {
        if i == 0 && j > 1 {
          assert Start(rest[0]) <= Start(rest[j - 1]);
        }
      }
    }
  }

  /** The calls ordered by genomic start; equal starts keep their order, as a stable sort does. */
  function SortByStart(s: seq<Call>): seq<Call>
  {
    if s == [] then [] else InsertByStart(s[0], SortByStart(s[1..]))
  }

  /** Sorting yields an ordering of the calls by start that is a permutation of them. */
  lemma {:induction false} SortByStartCorrect(s: seq<Call>)
    ensures SortedByStart(SortByStart(s))
    ensures multiset(SortByStart(s)) == multiset(s)
  {
    if s != [] {
      var sorted := SortByStart(s[1..]);
      SortByStartCorrect(s[1..]);
      InsertByStartSorted(s[0], sorted);
      InsertByStartPermutes(s[0], sorted);
      assert s == [s[0]] + s[1..];
    }
  }

  /** The calls of `s` that start at `v`, in their order in `s`. */
  function WithStart(s: seq<Call>, v: int): (r: seq<Call>)
    ensures forall i | 0 <= i < |r| :: Start(r[i]) == v
  {
    if s == [] then []
    else (if Start(s[0]) == v then [s[0]] else []) + WithStart(s[1..], v)
  }

  lemma WithStartCons(c: Call, s: seq<Call>, v: int)
    ensures WithStart([c] + s, v) == (if Start(c) == v then [c] else []) + WithStart(s, v)
  {
    assert ([c] + s)[1..] == s;
  }

  /** Insertion places the new call ahead of every call with its start and keeps the others' order. */
  lemma {:induction false} InsertByStartStable(c: Call, s: seq<Call>, v: int)
    ensures WithStart(InsertByStart(c, s), v) == (if Start(c) == v then [c] else []) + WithStart(s, v)
  {
    if s == [] {
      WithStartCons(c, [], v);
    } else if Start(c) <= Start(s[0]) {
      WithStartCons(c, s, v);
    } else {
      InsertByStartStable(c, s[1..], v);
      WithStartCons(s[0], InsertByStart(c, s[1..]), v);
      WithStartCons(s[0], s[1..], v);
      assert s == [s[0]] + s[1..];
    }
  }

  /** The sort is stable: the calls with any one start keep their relative order. */
  lemma {:induction false} SortByStartStable(s: seq<Call>, v: int)
    ensures WithStart(SortByStart(s), v) == WithStart(s, v)
  {
    if s != [] {
      SortByStartStable(s[1..], v);
      InsertByStartStable(s[0], SortByStart(s[1..]), v);
    }
  }
}
