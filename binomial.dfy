/**
 * `BinomialGraphDistribution`: G(n, p), a graph on `nodes` nodes in which
 * each pair i < j becomes an edge when its Bernoulli(p) trial comes out
 * true.  The trial outcomes are an input, one per pair, in the order the
 * sampler draws them.
 */
module Binomial {
  import opened Wrappers
  import opened Combinatorics
  import opened PetGraph

  datatype BinomialGraphError = InvalidProbability(p: real)

  datatype BinomialGraphDistribution = BinomialGraphDistribution(nodes: nat, p: real)

  /** `BinomialGraphDistribution::new`: p must lie in [0, 1]; the error echoes p. */
  function New(nodes: nat, p: real): (r: Result<BinomialGraphDistribution, BinomialGraphError>)
    ensures r.Err? <==> p < 0.0 || p > 1.0
    ensures r.Err? ==> r.error == InvalidProbability(p)
    ensures r.Ok? ==> r.value.nodes == nodes && r.value.p == p
  {
    if p < 0.0 || p > 1.0 then Err(InvalidProbability(p))
    else Ok(BinomialGraphDistribution(nodes, p))
  }

  /** The repository's `test_invalid_p_causes_error`. */
  lemma NewExamples()
    ensures New(4, -0.05) == Err(InvalidProbability(-0.05))
    ensures forall p :: p in [0.0, 0.05, 0.4, 0.77, 0.33, 0.999, 1.0] ==> New(4, p).Ok?
    ensures New(4, 1.01) == Err(InvalidProbability(1.01))
  {
  }

  /** The pairs whose trial came out true, in enumeration order. */
  function Selected(pairs: seq<(nat, nat)>, trials: seq<bool>): seq<(nat, nat)>
    requires |pairs| == |trials|
  {
    if pairs == [] then []
    else
      var last := |pairs| - 1;
      Selected(pairs[..last], trials[..last]) + (if trials[last] then [pairs[last]] else [])
  }

  /** A pair is selected exactly when it is enumerated with a true trial. */
  lemma {:induction false} SelectedMembers(pairs: seq<(nat, nat)>, trials: seq<bool>, e: (nat, nat))
    requires |pairs| == |trials|
    ensures e in Selected(pairs, trials) <==> exists k :: 0 <= k < |pairs| && trials[k] && pairs[k] == e
  {
    if pairs != [] {
      var last := |pairs| - 1;
      SelectedMembers(pairs[..last], trials[..last], e);
      if e in Selected(pairs, trials) && e !in Selected(pairs[..last], trials[..last]) {
        assert trials[last] && pairs[last] == e;
      }
      if exists k :: 0 <= k < |pairs| && trials[k] && pairs[k] == e {
        var k :| 0 <= k < |pairs| && trials[k] && pairs[k] == e;
        if k < last {
          assert pairs[..last][k] == e && trials[..last][k];
        }
      }
    }
  }

  /** At most one edge per pair. */
  lemma {:induction false} SelectedLength(pairs: seq<(nat, nat)>, trials: seq<bool>)
    requires |pairs| == |trials|
    ensures |Selected(pairs, trials)| <= |pairs|
  {
    if pairs != [] {
      SelectedLength(pairs[..|pairs| - 1], trials[..|pairs| - 1]);
    }
  }

  /** Selection keeps the lexicographic order of the enumeration, so no pair repeats. */
  lemma {:induction false} SelectedIncreasing(pairs: seq<(nat, nat)>, trials: seq<bool>)
    requires |pairs| == |trials| && StrictlyIncreasing(pairs)
    ensures StrictlyIncreasing(Selected(pairs, trials))
  {
    if pairs != [] {
      var last := |pairs| - 1;
      var front := Selected(pairs[..last], trials[..last]);
      SelectedIncreasing(pairs[..last], trials[..last]);
      if trials[last] {
        var s := front + [pairs[last]];
        forall a, b | 0 <= a < b < |s| ensures LexLess(s[a], s[b]) {
          if b == |front| {
            SelectedMembers(pairs[..last], trials[..last], s[a]);
            assert s[a] == front[a];
            assert s[a] in front;
            var k :| 0 <= k < last && trials[..last][k] && pairs[..last][k] == s[a];
            assert pairs[k] == s[a];
          } else {
            assert s[a] == front[a] && s[b] == front[b];
          }
        }
      }
    }
  }

  /** All trials false: no edge. */
  lemma {:induction false} SelectedNone(pairs: seq<(nat, nat)>, trials: seq<bool>)
    requires |pairs| == |trials|
    requires forall k :: 0 <= k < |trials| ==> !trials[k]
    ensures Selected(pairs, trials) == []
  {
    if pairs != [] {
      SelectedNone(pairs[..|pairs| - 1], trials[..|pairs| - 1]);
    }
  }

  /** All trials true: every enumerated pair, in order. */
  lemma {:induction false} SelectedAll(pairs: seq<(nat, nat)>, trials: seq<bool>)
    requires |pairs| == |trials|
    requires forall k :: 0 <= k < |trials| ==> trials[k]
    ensures Selected(pairs, trials) == pairs
  {
    if pairs != [] {
      var last := |pairs| - 1;
      SelectedAll(pairs[..last], trials[..last]);
      assert pairs == pairs[..last] + [pairs[last]];
    }
  }

  /** Drawing one more trial extends the selection by at most that pair. */
  lemma SelectedStep(pairs: seq<(nat, nat)>, trials: seq<bool>, t: nat)
    requires t < |pairs| == |trials|
    ensures Selected(pairs[..t + 1], trials[..t + 1])
         == Selected(pairs[..t], trials[..t]) + (if trials[t] then [pairs[t]] else [])
  {
    assert pairs[..t + 1][..t] == pairs[..t] && trials[..t + 1][..t] == trials[..t];
  }

  /**
   * `sample`: `nodes` nodes, then for each index and each later node, in
   * that order, one Bernoulli trial and an edge when it is true.  The trials
   * visit the pairs i < j lexicographically, so the edges are the pairs
   * whose trial is true, in that order.
   */
  method Sample(d: BinomialGraphDistribution, trials: seq<bool>) returns (g: Graph)
    requires |trials| == Choose2(d.nodes)
    ensures g.nodeCount == d.nodes
    ensures g.edges == Selected(Pairs(d.nodes), trials)
  {
    var nodes;
    g, nodes := AddLabelledNodes(d.nodes);
    ghost var pairs := Pairs(d.nodes);
    var n := |nodes|;
    var t := 0;  // the number of trials drawn so far
    var index := 0;
    while index < n
      invariant index <= n
      invariant g.nodeCount == n
      invariant t == |PairsBefore(index, n)| <= |pairs|
      invariant g.edges == Selected(pairs[..t], trials[..t])
    {
      var j := index + 1;
      while j < n
        invariant index + 1 <= j <= n
        invariant t == |PairsBefore(index, n)| + (j - index - 1) <= |pairs|
        invariant g.nodeCount == n
        invariant g.edges == Selected(pairs[..t], trials[..t])
      {
        RowPrefix(index, j + 1, n);
        assert pairs[t] == (index, j) by {
          assert pairs[t] == pairs[..t + 1][t];
        }
        SelectedStep(pairs, trials, t);
        if trials[t] {
          g := AddEdge(g, nodes[index], nodes[j]);
        }
        t, j := t + 1, j + 1;
      }
      RowPrefix(index, n, n);
      assert t == |PairsBefore(index + 1, n)|;
      index := index + 1;
    }
    assert pairs[..t] == pairs && trials[..t] == trials;
  }

  /**
   * Every sample has C(nodes, 2) trials' worth of candidate edges at most,
   * each an (i, j) with i < j < nodes, in strictly increasing order, so no
   * self-loop and no pair twice.
   */
  lemma SampleShape(n: nat, trials: seq<bool>)
    requires |trials| == Choose2(n)
    ensures |Pairs(n)| == |trials|
    ensures |Selected(Pairs(n), trials)| <= Choose2(n)
    ensures forall e :: e in Selected(Pairs(n), trials) ==> e.0 < e.1 < n
    ensures StrictlyIncreasing(Selected(Pairs(n), trials))
    ensures Distinct(Selected(Pairs(n), trials))
  {
    PairsSorted(n);
    SelectedLength(Pairs(n), trials);
    SelectedIncreasing(Pairs(n), trials);
    forall e | e in Selected(Pairs(n), trials) ensures e.0 < e.1 < n {
      SelectedMembers(Pairs(n), trials, e);
      PairsMembers(n, e);
    }
  }

  /** `p = 0` in effect: all-false trials give the empty graph. */
  lemma NoTrueTrialNoEdge(n: nat, trials: seq<bool>)
    requires |trials| == Choose2(n)
    requires forall k :: 0 <= k < |trials| ==> !trials[k]
    ensures Selected(Pairs(n), trials) == []
  {
    SelectedNone(Pairs(n), trials);
  }

  /** `p = 1` in effect: all-true trials give the complete graph, every pair i < j. */
  lemma AllTrueTrialsComplete(n: nat, trials: seq<bool>)
    requires |trials| == Choose2(n)
    requires forall k :: 0 <= k < |trials| ==> trials[k]
    ensures Selected(Pairs(n), trials) == Pairs(n)
    ensures forall p: (nat, nat) :: p.0 < p.1 < n ==> p in Selected(Pairs(n), trials)
  {
    SelectedAll(Pairs(n), trials);
    forall p: (nat, nat) | p.0 < p.1 < n ensures p in Pairs(n) {
      PairsMembers(n, p);
    }
  }

  /** With at most one node there is no trial and no edge. */
  lemma FewNodesNoEdge(n: nat, trials: seq<bool>)
    requires n <= 1 && |trials| == Choose2(n)
    ensures trials == [] && Selected(Pairs(n), trials) == []
  {
    PairsBelowTwo(n);
  }
}
