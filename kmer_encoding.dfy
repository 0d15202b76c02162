/**
 * The k-mer encoding the graph relies on: a k-mer of length k is an integer in
 * [0, 4^k), two bits per base, the most recent base in the low bits.
 * Its neighbours are the four k-mers that extend it on the left (drop the last
 * base, prepend one) followed by the four that extend it on the right (drop the
 * first base, append one).
 */
module KmerEncoding {

  type Kmer = int

  /** The k-mer length of a graph; at least one base. */
  type KmerLength = k: nat | k >= 1 witness 1

  function Pow4(n: nat): (r: nat)
    ensures r >= 1
  {
    if n == 0 then 1 else 4 * Pow4(n - 1)
  }

  /** A valid encoding of a k-mer of length k. */
  predicate IsKmer(k: nat, x: Kmer)
  {
    0 <= x < Pow4(k)
  }

  /** Drop the last base (shift right by two bits) and put `base` in front. */
  function PrevState(k: nat, x: Kmer, base: int): Kmer
    requires k >= 1
  {
    x / 4 + base * Pow4(k - 1)
  }

  /** Drop the first base (shift left by two bits, masked to 2k bits) and append `base`. */
  function NextState(k: nat, x: Kmer, base: int): Kmer
    requires k >= 1
  {
    (x % Pow4(k - 1)) * 4 + base
  }

  /** The eight one-base shifts of `x`, the predecessors first. */
  function AdjacentStates(k: nat, x: Kmer): (r: seq<Kmer>)
    requires k >= 1
    ensures |r| == 8
    ensures IsKmer(k, x) ==> forall y | y in r :: IsKmer(k, y)
  {
    var q := Pow4(k - 1);
    assert Pow4(k) == 4 * q;
    [PrevState(k, x, 0), PrevState(k, x, 1), PrevState(k, x, 2), PrevState(k, x, 3),
     NextState(k, x, 0), NextState(k, x, 1), NextState(k, x, 2), NextState(k, x, 3)]
  }

  lemma MulAtLeast(t: int, d: int)
    requires t >= 1 && d > 0
    ensures t * d >= d
  {
    if t > 1 {
      MulAtLeast(t - 1, d);
      assert t * d == (t - 1) * d + d;
    }
  }

  /** Euclidean division by a positive divisor has a unique quotient and remainder. */
  lemma DivModUnique(n: int, d: int, q: int, r: int)
    requires d > 0 && 0 <= r < d && n == q * d + r
    ensures n / d == q && n % d == r
  {
    var q', r' := n / d, n % d;
    assert n == q' * d + r';
    assert (q - q') * d == r' - r;
    if q - q' >= 1 {
      MulAtLeast(q - q', d);
    } else if q' - q >= 1 {
      MulAtLeast(q' - q, d);
    }
  }

  /** A product with a positive factor is positive only when the other factor is. */
  lemma PositiveFactor(t: int, d: int)
    requires d > 0 && t * d > 0
    ensures t >= 1
  {
  }

  /** A number below 4q has a quotient by q in [0, 4). */
  lemma QuotientBelowFour(x: int, q: int)
    requires q > 0 && 0 <= x < 4 * q
    ensures 0 <= x / q < 4
  {
    var c, r := x / q, x % q;
    assert x == c * q + r && 0 <= r < q;
    assert (4 - c) * q == 4 * q - c * q;
    PositiveFactor(4 - c, q);
    assert (c + 1) * q == c * q + q;
    PositiveFactor(c + 1, q);
  }

  /** A successor of x has x as one of its predecessors. */
  lemma SuccessorHasPredecessor(k: nat, x: Kmer, b: int)
    requires k >= 1 && IsKmer(k, x) && 0 <= b < 4
    ensures 0 <= x / Pow4(k - 1) < 4
    ensures PrevState(k, NextState(k, x, b), x / Pow4(k - 1)) == x
  {
    var q := Pow4(k - 1);
    assert Pow4(k) == 4 * q;
    QuotientBelowFour(x, q);
    var r := x % q;
    var y := r * 4 + b;
    assert NextState(k, x, b) == y;
    DivModUnique(y, 4, r, b);
    assert y / 4 == r;
    assert PrevState(k, y, x / q) == r + (x / q) * q;
  }

  /** A predecessor of x has x as one of its successors. */
  lemma PredecessorHasSuccessor(k: nat, x: Kmer, c: int)
    requires k >= 1 && IsKmer(k, x) && 0 <= c < 4
    ensures NextState(k, PrevState(k, x, c), x % 4) == x
  {
    var q := Pow4(k - 1);
    assert Pow4(k) == 4 * q;
    var r := x / 4;
    assert 0 <= r < q;
    DivModUnique(PrevState(k, x, c), q, c, r);
  }

  /** Adjacency is symmetric: if y is a one-base shift of x, then x is a one-base shift of y. */
  lemma AdjacencySymmetric(k: nat, x: Kmer, y: Kmer)
    requires k >= 1 && IsKmer(k, x) && IsKmer(k, y)
    requires y in AdjacentStates(k, x)
    ensures x in AdjacentStates(k, y)
  {
    var adj, back := AdjacentStates(k, x), AdjacentStates(k, y);
    var i :| 0 <= i < 8 && adj[i] == y;
    if i < 4 {
      PredecessorHasSuccessor(k, x, i);
      assert back[4 + x % 4] == x;
    } else {
      SuccessorHasPredecessor(k, x, i - 4);
      assert back[x / Pow4(k - 1)] == x;
    }
  }

  /** A non-empty set of k-mers has a member. */
  lemma SomeKmer(s: set<Kmer>) returns (x: Kmer)
    requires s != {}
    ensures x in s
  {
    if forall y: Kmer :: y !in s {
      assert false;
    }
    x :| x in s;
  }
}
