/**
 * Traversal of the k-mer store: the breadth-first walk that enumerates the
 * k-mers reachable from a start k-mer, proved to produce exactly `Reach`.
 */
module Traversal {
  import opened KmerEncoding
  import opened Reachability

  lemma ProperDifferenceShrinks(keys: set<Kmer>, before: set<Kmer>, after: set<Kmer>)
    requires before <= after <= keys && before != after
    ensures |keys - after| < |keys - before|
  {
    assert after - before != {};
    assert keys - before == (keys - after) + (after - before);
  }

  /** Breadth-first traversal from `start` over adjacency edges whose both ends are in `keys`. */
  method ReachableFrom(adj: Kmer -> seq<Kmer>, keys: set<Kmer>, start: Kmer) returns (r: set<Kmer>)
    ensures r == Reach(adj, keys, start)
  {
    ReachClosed(adj, keys, start);
    if start !in keys {
      return {};
    }
    var visited := {start};
    var frontier := [start];
    while frontier != []
      invariant start in visited && visited <= Reach(adj, keys, start)
      invariant forall i | 0 <= i < |frontier| :: frontier[i] in visited
      invariant forall x, i | x in visited && x !in frontier && 0 <= i < |adj(x)| && adj(x)[i] in keys :: adj(x)[i] in visited
      decreases |keys - visited|, |frontier|
    {
      var x := frontier[0];
      var rest := frontier[1..];
      assert frontier == [x] + rest;
      var visited', frontier' := VisitNeighbours(adj, keys, start, x, visited, rest);
      FrontierInvariantKept(adj, keys, x, rest, visited, visited', frontier');
      if visited' != visited {
        ProperDifferenceShrinks(keys, visited, visited');
      }
      visited, frontier := visited', frontier';
    }
    ReachLeast(adj, keys, start, visited);
    r := visited;
  }

  /** After expanding `x`, every visited k-mer that is no longer queued has all its present neighbours visited. */
  lemma FrontierInvariantKept(adj: Kmer -> seq<Kmer>, keys: set<Kmer>, x: Kmer, rest: seq<Kmer>,
                              visited: set<Kmer>, visited': set<Kmer>, frontier': seq<Kmer>)
    requires forall x', i | x' in visited && x' !in [x] + rest && 0 <= i < |adj(x')| && adj(x')[i] in keys :: adj(x')[i] in visited
    requires visited <= visited'
    requires |rest| <= |frontier'| && frontier'[..|rest|] == rest
    requires forall z | z in visited' && z !in visited :: z in frontier'
    requires forall i | 0 <= i < |adj(x)| && adj(x)[i] in keys :: adj(x)[i] in visited'
    ensures forall x', i | x' in visited' && x' !in frontier' && 0 <= i < |adj(x')| && adj(x')[i] in keys :: adj(x')[i] in visited'
  {
    forall x', i | x' in visited' && x' !in frontier' && 0 <= i < |adj(x')| && adj(x')[i] in keys
      ensures adj(x')[i] in visited'
    {
      if x' != x {
        assert x' in visited && x' !in [x] + rest;
      }
    }
  }

  /** One expansion of the traversal: every unvisited present neighbour of `x` is marked and queued. */
  method VisitNeighbours(adj: Kmer -> seq<Kmer>, keys: set<Kmer>, ghost start: Kmer, x: Kmer,
                         visited: set<Kmer>, frontier: seq<Kmer>)
      returns (visited': set<Kmer>, frontier': seq<Kmer>)
    requires x in visited && visited <= Reach(adj, keys, start)
    requires forall i | 0 <= i < |frontier| :: frontier[i] in visited
    ensures visited <= visited' <= Reach(adj, keys, start)
    ensures forall i | 0 <= i < |frontier'| :: frontier'[i] in visited'
    ensures visited' == visited ==> frontier' == frontier
    ensures |frontier| <= |frontier'| && frontier'[..|frontier|] == frontier
    ensures forall z | z in visited' && z !in visited :: z in frontier'
    ensures forall i | 0 <= i < |adj(x)| && adj(x)[i] in keys :: adj(x)[i] in visited'
  {
    ReachClosed(adj, keys, start);
    var neighbours := adj(x);
    visited', frontier' := visited, frontier;
    var j := 0;
    while j < |neighbours|
      invariant 0 <= j <= |neighbours|
      invariant visited <= visited' <= Reach(adj, keys, start)
      invariant visited' == visited ==> frontier' == frontier
      invariant |frontier| <= |frontier'| && frontier'[..|frontier|] == frontier
      invariant forall z | z in visited' && z !in visited :: z in frontier'
      invariant forall i | 0 <= i < |frontier'| :: frontier'[i] in visited'
      invariant forall i | 0 <= i < j && neighbours[i] in keys :: neighbours[i] in visited'
    {
      var y := neighbours[j];
      if y in keys && y !in visited' {
        visited' := visited' + {y};
        frontier' := frontier' + [y];
      }
      j := j + 1;
    }
  }

}
