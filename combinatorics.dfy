/**
 * Counting and enumerating node pairs: the binomial coefficient C(n, 2)
 * that both distributions rely on, the node labels 0..n, and the
 * lexicographic enumeration of the pairs (i, j) with i < j < n.
 */
module Combinatorics {

  /**
   * `num_integer::binomial(n, 2)`: the number of unordered pairs of n items,
   * 0 when n < 2 (`binomial` gives 0 when k > n).  The division is exact.
   */
  function Choose2(n: nat): (r: nat)
    ensures n < 2 ==> r == 0
    ensures 2 * r == n * (n - 1)
  {
    PairsBeforeLength(n, n);
    if n < 2 then 0 else n * (n - 1) / 2
  }

  function Min(a: nat, b: nat): nat
  {
    if a <= b then a else b
  }

  /** The node labels `0..n`, in order. */
  function Range(n: nat): seq<nat>
  {
    seq(n, i => i)
  }

  predicate Distinct<T(==)>(s: seq<T>)
  {
    forall a, b :: 0 <= a < b < |s| ==> s[a] != s[b]
  }

  /** Lexicographic order on pairs of node labels. */
  predicate LexLess(p: (nat, nat), q: (nat, nat))
  {
    p.0 < q.0 || (p.0 == q.0 && p.1 < q.1)
  }

  predicate StrictlyIncreasing(s: seq<(nat, nat)>)
  {
    forall a, b :: 0 <= a < b < |s| ==> LexLess(s[a], s[b])
  }

  /** The pairs (i, lo), (i, lo + 1), ..., (i, hi - 1). */
  function Segment(i: nat, lo: nat, hi: nat): seq<(nat, nat)>
    requires lo <= hi
  {
    seq(hi - lo, k requires 0 <= k < hi - lo => (i, lo + k))
  }

  /** Rows 0..i-1 of the enumeration: every (r, j) with r < i and r < j < n. */
  function PairsBefore(i: nat, n: nat): seq<(nat, nat)>
    requires i <= n
  {
    if i == 0 then [] else PairsBefore(i - 1, n) + Segment(i - 1, i, n)
  }

  /** Every pair (i, j) with i < j < n, row by row: C(n, 2) of them. */
  function Pairs(n: nat): (r: seq<(nat, nat)>)
    ensures |r| == Choose2(n)
  {
    PairsBeforeLength(n, n);
    PairsBefore(n, n)
  }

  lemma SegmentMembers(i: nat, lo: nat, hi: nat, p: (nat, nat))
    requires lo <= hi
    ensures p in Segment(i, lo, hi) <==> p.0 == i && lo <= p.1 < hi
  {
    if p.0 == i && lo <= p.1 < hi {
      assert Segment(i, lo, hi)[p.1 - lo] == p;
    }
  }

  lemma {:induction false} PairsBeforeMembers(i: nat, n: nat, p: (nat, nat))
    requires i <= n
    ensures p in PairsBefore(i, n) <==> p.0 < i && p.0 < p.1 < n
  {
    if i > 0 {
      PairsBeforeMembers(i - 1, n, p);
      SegmentMembers(i - 1, i, n, p);
    }
  }

  lemma {:induction false} PairsBeforeLength(i: nat, n: nat)
    requires i <= n
    ensures 2 * |PairsBefore(i, n)| == i * (2 * n - i - 1)
  {
    if i > 0 {
      PairsBeforeLength(i - 1, n);
      calc {
        2 * |PairsBefore(i, n)|;
        2 * |PairsBefore(i - 1, n)| + 2 * (n - i);
        (i - 1) * (2 * n - i) + 2 * (n - i);
        { assert (i - 1) * (2 * n - i) == i * (2 * n - i) - (2 * n - i); }
        i * (2 * n - i) - (2 * n - i) + 2 * (n - i);
        i * (2 * n - i) - i;
        { assert i * (2 * n - i) - i == i * (2 * n - i - 1); }
        i * (2 * n - i - 1);
      }
    }
  }

  /** Every element of rows 0..i-1 lies in a row below i, and the rows are in lexicographic order. */
  lemma {:induction false} PairsBeforeSorted(i: nat, n: nat)
    requires i <= n
    ensures StrictlyIncreasing(PairsBefore(i, n))
    ensures forall k :: 0 <= k < |PairsBefore(i, n)| ==> PairsBefore(i, n)[k].0 < i
  {
    if i > 0 {
      PairsBeforeSorted(i - 1, n);
      var front, row := PairsBefore(i - 1, n), Segment(i - 1, i, n);
      var s := front + row;
      forall a, b | 0 <= a < b < |s| ensures LexLess(s[a], s[b]) {
        if b < |front| {
          assert s[a] == front[a] && s[b] == front[b];
        } else if a < |front| {
          assert s[a] == front[a] && s[b] == row[b - |front|];
        } else {
          assert s[a] == row[a - |front|] && s[b] == row[b - |front|];
        }
      }
    }
  }

  /** A lower row count gives a prefix of the enumeration. */
  lemma {:induction false} PairsBeforePrefix(i: nat, k: nat, n: nat)
    requires i <= k <= n
    ensures PairsBefore(i, n) <= PairsBefore(k, n)
  {
    if i < k {
      PairsBeforePrefix(i, k - 1, n);
    }
  }

  /** The enumeration contains exactly the pairs (i, j) with i < j < n. */
  lemma PairsMembers(n: nat, p: (nat, nat))
    ensures p in Pairs(n) <==> p.0 < p.1 < n
  {
    PairsBeforeMembers(n, n, p);
  }

  /**
   * After rows 0..i-1 and the first j - i - 1 pairs of row i have been
   * visited, the visited pairs are a prefix of the enumeration.
   */
  lemma RowPrefix(i: nat, j: nat, n: nat)
    requires i < j <= n
    ensures |PairsBefore(i, n)| + (j - i - 1) <= |Pairs(n)|
    ensures Pairs(n)[..|PairsBefore(i, n)| + (j - i - 1)] == PairsBefore(i, n) + Segment(i, i + 1, j)
  {
    PairsBeforePrefix(i + 1, n, n);
    var front, row := PairsBefore(i, n), Segment(i, i + 1, n);
    assert PairsBefore(i + 1, n) == front + row;
    assert row[..j - i - 1] == Segment(i, i + 1, j);
    assert (front + row)[..|front| + (j - i - 1)] == front + row[..j - i - 1];
  }

  /** The enumeration is strictly lexicographic, so no pair appears twice. */
  lemma PairsSorted(n: nat)
    ensures StrictlyIncreasing(Pairs(n))
    ensures Distinct(Pairs(n))
  {
    PairsBeforeSorted(n, n);
  }

  /** With at most one node there is no pair at all. */
  lemma PairsBelowTwo(n: nat)
    requires n <= 1
    ensures Pairs(n) == []
  {
  }
}
