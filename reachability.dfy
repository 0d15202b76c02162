/**
 * Reachability in the k-mer store: the k-mers reached from a start k-mer by
 * following adjacency edges whose both ends are present. `Reach` is defined by
 * iterating one expansion step as many times as there are k-mers; the lemmas
 * show it is the least adjacency-closed set holding its start, and derive the
 * facts eviction and component tracking rely on.
 */
module Reachability {
  import opened KmerEncoding

  /** Every present neighbour of a member of `c` is a member of `c`. */
  ghost predicate Closed(adj: Kmer -> seq<Kmer>, keys: set<Kmer>, c: set<Kmer>)
  {
    forall x, i | x in c && 0 <= i < |adj(x)| && adj(x)[i] in keys :: adj(x)[i] in c
  }

  /** Adjacency between present k-mers goes both ways. */
  ghost predicate Symmetric(adj: Kmer -> seq<Kmer>, keys: set<Kmer>)
  {
    forall x, i | x in keys && 0 <= i < |adj(x)| && adj(x)[i] in keys :: x in adj(adj(x)[i])
  }

  /** `s` together with the present neighbours of its members. */
  ghost function Step(adj: Kmer -> seq<Kmer>, keys: set<Kmer>, s: set<Kmer>): set<Kmer>
  {
    s + set y | y in keys && exists x | x in s :: y in adj(x)
  }

  ghost function Closure(adj: Kmer -> seq<Kmer>, keys: set<Kmer>, s: set<Kmer>, fuel: nat): set<Kmer>
    decreases fuel
  {
    if fuel == 0 then s else Closure(adj, keys, Step(adj, keys, s), fuel - 1)
  }

  /** The k-mers reachable from `start` within `keys`; empty when `start` is absent. */
  ghost function Reach(adj: Kmer -> seq<Kmer>, keys: set<Kmer>, start: Kmer): set<Kmer>
  {
    if start in keys then Closure(adj, keys, {start}, |keys|) else {}
  }

  lemma {:induction false} ClosureWithin(adj: Kmer -> seq<Kmer>, keys: set<Kmer>, s: set<Kmer>, fuel: nat)
    requires s <= keys
    ensures s <= Closure(adj, keys, s, fuel) <= keys
    decreases fuel
  {
    if fuel > 0 {
      assert s <= Step(adj, keys, s) <= keys;
      ClosureWithin(adj, keys, Step(adj, keys, s), fuel - 1);
    }
  }

  lemma {:induction false} ClosureOfFixpoint(adj: Kmer -> seq<Kmer>, keys: set<Kmer>, s: set<Kmer>, fuel: nat)
    requires Step(adj, keys, s) == s
    ensures Closure(adj, keys, s, fuel) == s
    decreases fuel
  {
    if fuel > 0 {
      ClosureOfFixpoint(adj, keys, s, fuel - 1);
    }
  }

  lemma StepGrows(adj: Kmer -> seq<Kmer>, keys: set<Kmer>, s: set<Kmer>)
    requires s <= keys
    ensures s <= Step(adj, keys, s) <= keys
    ensures Step(adj, keys, s) == s || |Step(adj, keys, s)| > |s|
  {
    var s' := Step(adj, keys, s);
    if s' != s {
      ProperSubsetCardinality(s, s');
    }
  }

  /** Each step either settles or adds a k-mer, so enough steps to add every missing k-mer settle. */
  lemma {:induction false} ClosureSettles(adj: Kmer -> seq<Kmer>, keys: set<Kmer>, s: set<Kmer>, fuel: nat)
    requires s <= keys && fuel >= |keys| - |s|
    ensures Step(adj, keys, Closure(adj, keys, s, fuel)) == Closure(adj, keys, s, fuel)
    decreases fuel
  {
    var s' := Step(adj, keys, s);
    StepGrows(adj, keys, s);
    if s' == s {
      ClosureOfFixpoint(adj, keys, s, fuel);
    } else {
      SubsetCardinality(s', keys);
      ClosureUnfold(adj, keys, s, fuel);
      ClosureSettles(adj, keys, s', fuel - 1);
    }
  }

  lemma ClosureUnfold(adj: Kmer -> seq<Kmer>, keys: set<Kmer>, s: set<Kmer>, fuel: nat)
    requires fuel > 0
    ensures Closure(adj, keys, s, fuel) == Closure(adj, keys, Step(adj, keys, s), fuel - 1)
  {
  }

  /** Reach holds its start, stays within the store, and is closed under adjacency. */
  lemma ReachClosed(adj: Kmer -> seq<Kmer>, keys: set<Kmer>, start: Kmer)
    ensures Reach(adj, keys, start) <= keys
    ensures start in keys ==> start in Reach(adj, keys, start)
    ensures Closed(adj, keys, Reach(adj, keys, start))
  {
    if start in keys {
      var c := Reach(adj, keys, start);
      ClosureWithin(adj, keys, {start}, |keys|);
      ClosureSettles(adj, keys, {start}, |keys|);
      forall x, i | x in c && 0 <= i < |adj(x)| && adj(x)[i] in keys
        ensures adj(x)[i] in c
      {
        assert adj(x)[i] in Step(adj, keys, c);
      }
    }
  }

  lemma ProperSubsetCardinality(a: set<Kmer>, b: set<Kmer>)
    requires a <= b && a != b
    ensures |a| < |b|
  {
    assert b == a + (b - a);
  }

  lemma SubsetCardinality(a: set<Kmer>, b: set<Kmer>)
    requires a <= b
    ensures |a| <= |b|
  {
    assert b == a + (b - a);
  }

  lemma {:induction false} ClosureLeast(adj: Kmer -> seq<Kmer>, keys: set<Kmer>, s: set<Kmer>, fuel: nat, c: set<Kmer>)
    requires s <= c && Closed(adj, keys, c)
    ensures Closure(adj, keys, s, fuel) <= c
    decreases fuel
  {
    if fuel > 0 {
      forall y | y in Step(adj, keys, s) ensures y in c {
        if y !in s {
          var x :| x in s && y in adj(x);
          var i :| 0 <= i < |adj(x)| && adj(x)[i] == y;
        }
      }
      ClosureLeast(adj, keys, Step(adj, keys, s), fuel - 1, c);
    }
  }

  /** Reach is the least closed set that holds its (present) start. */
  lemma ReachLeast(adj: Kmer -> seq<Kmer>, keys: set<Kmer>, start: Kmer, c: set<Kmer>)
    requires Closed(adj, keys, c) && (start in keys ==> start in c)
    ensures Reach(adj, keys, start) <= c
  {
    if start in keys {
      ClosureLeast(adj, keys, {start}, |keys|, c);
    }
  }

  lemma ReachAdjacent(adj: Kmer -> seq<Kmer>, keys: set<Kmer>, a: Kmer, b: Kmer)
    requires a in keys && b in keys && b in adj(a)
    ensures b in Reach(adj, keys, a)
  {
    ReachClosed(adj, keys, a);
    var i :| 0 <= i < |adj(a)| && adj(a)[i] == b;
  }

  /** Whatever a reachable k-mer reaches is reachable too. */
  lemma ReachTransitive(adj: Kmer -> seq<Kmer>, keys: set<Kmer>, a: Kmer, b: Kmer)
    requires b in Reach(adj, keys, a)
    ensures Reach(adj, keys, b) <= Reach(adj, keys, a)
  {
    ReachClosed(adj, keys, a);
    ReachLeast(adj, keys, b, Reach(adj, keys, a));
  }

  /** When adjacency is symmetric reachability is symmetric, so a reachable k-mer reaches the same set. */
  lemma ReachSymmetric(adj: Kmer -> seq<Kmer>, keys: set<Kmer>, a: Kmer, b: Kmer)
    requires Symmetric(adj, keys) && b in Reach(adj, keys, a)
    ensures a in Reach(adj, keys, b)
    ensures Reach(adj, keys, a) == Reach(adj, keys, b)
  {
    ReachClosed(adj, keys, a);
    var ra := Reach(adj, keys, a);
    var c := set z | z in ra && a in Reach(adj, keys, z);
    forall z, i | z in c && 0 <= i < |adj(z)| && adj(z)[i] in keys
      ensures adj(z)[i] in c
    {
      var w := adj(z)[i];
      assert w in ra;
      ReachAdjacent(adj, keys, w, z);
      ReachTransitive(adj, keys, w, z);
    }
    ReachClosed(adj, keys, a);
    ReachLeast(adj, keys, a, c);
    assert b in c;
    ReachTransitive(adj, keys, a, b);
    ReachTransitive(adj, keys, b, a);
  }

  /** Adding k-mers to the store never makes anything unreachable. */
  lemma ReachMonotone(adj: Kmer -> seq<Kmer>, keys: set<Kmer>, keys': set<Kmer>, a: Kmer)
    requires keys <= keys'
    ensures Reach(adj, keys, a) <= Reach(adj, keys', a)
  {
    var big := Reach(adj, keys', a);
    ReachClosed(adj, keys', a);
    ReachLeast(adj, keys, a, big);
  }

  /** Removing a closed part `u` of the store cuts exactly `u` out of every reach. */
  lemma ReachAfterRemoval(adj: Kmer -> seq<Kmer>, keys: set<Kmer>, u: set<Kmer>, a: Kmer)
    requires u <= keys && Closed(adj, keys, u)
    ensures Reach(adj, keys - u, a) == Reach(adj, keys, a) - u
  {
    var small := Reach(adj, keys - u, a);
    var big := Reach(adj, keys, a);
    ReachClosed(adj, keys, a);
    ReachClosed(adj, keys - u, a);
    // big minus u is closed in the smaller store
    ReachLeast(adj, keys - u, a, big - u);
    // u plus small is closed in the larger store
    forall x, i | x in u + small && 0 <= i < |adj(x)| && adj(x)[i] in keys
      ensures adj(x)[i] in u + small
    {
      var y := adj(x)[i];
      if x in small && y !in u {
        assert y in keys - u;
      }
    }
    ReachLeast(adj, keys, a, u + small);
  }

  /** Everything reachable from some k-mer of `starts`. */
  ghost function ReachUnion(adj: Kmer -> seq<Kmer>, keys: set<Kmer>, starts: set<Kmer>): (r: set<Kmer>)
    ensures r <= keys
  {
    set x | x in keys && exists a | a in starts :: x in Reach(adj, keys, a)
  }

  lemma ReachUnionClosed(adj: Kmer -> seq<Kmer>, keys: set<Kmer>, starts: set<Kmer>)
    ensures Closed(adj, keys, ReachUnion(adj, keys, starts))
  {
    var u := ReachUnion(adj, keys, starts);
    forall x, i | x in u && 0 <= i < |adj(x)| && adj(x)[i] in keys
      ensures adj(x)[i] in u
    {
      var a :| a in starts && x in Reach(adj, keys, a);
      ReachClosed(adj, keys, a);
    }
  }

  lemma ReachUnionMonotone(adj: Kmer -> seq<Kmer>, keys: set<Kmer>, starts: set<Kmer>, more: set<Kmer>)
    requires starts <= more
    ensures ReachUnion(adj, keys, starts) <= ReachUnion(adj, keys, more)
  {
  }

  /**
   * Removing one more start's reach from a store that already lost the reaches of
   * `starts`, computed on what is left, leaves the store minus the reaches of all
   * starts computed on the original store.
   */
  lemma ReachUnionStep(adj: Kmer -> seq<Kmer>, keys: set<Kmer>, starts: set<Kmer>, a: Kmer)
    ensures var rest := keys - ReachUnion(adj, keys, starts);
            rest - Reach(adj, rest, a) == keys - ReachUnion(adj, keys, starts + {a})
  {
    var u := ReachUnion(adj, keys, starts);
    ReachUnionClosed(adj, keys, starts);
    ReachAfterRemoval(adj, keys, u, a);
    var lhs := (keys - u) - Reach(adj, keys - u, a);
    var rhs := keys - ReachUnion(adj, keys, starts + {a});
    forall x | x in lhs ensures x in rhs {
      forall b | b in starts + {a} ensures x !in Reach(adj, keys, b) {
        assert b in starts ==> (x in Reach(adj, keys, b) ==> x in u);
      }
    }
    ReachUnionMonotone(adj, keys, starts, starts + {a});
    ReachUnionMonotone(adj, keys, {a}, starts + {a});
    ReachClosed(adj, keys, a);
    assert Reach(adj, keys, a) <= ReachUnion(adj, keys, {a});
    assert lhs == rhs;
  }
}
