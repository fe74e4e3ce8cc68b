/**
 * `UniformGraphDistribution`: G(n, M), a graph on `nodes` nodes with
 * exactly `edges` edges chosen from the candidate node pairs.  The random
 * choice (`IteratorRandom::choose_multiple`) is an input: the positions, in
 * the candidate list, of the chosen pairs.
 */
module Uniform {
  import opened Wrappers
  import opened Combinatorics
  import opened PetGraph

  datatype UniformGraphError = TooManyEdges

  datatype UniformGraphDistribution = UniformGraphDistribution(nodes: nat, edges: nat)

  /** `UniformGraphDistribution::new`: at most C(nodes, 2) edges are allowed. */
  function New(nodes: nat, edges: nat): (r: Result<UniformGraphDistribution, UniformGraphError>)
    ensures r.Err? <==> edges > Choose2(nodes)
    ensures r.Err? ==> r.error == TooManyEdges
    ensures r.Ok? ==> r.value.nodes == nodes && r.value.edges == edges
  {
    if edges > Choose2(nodes) then Err(TooManyEdges)
    else Ok(UniformGraphDistribution(nodes, edges))
  }

  /** The repository's `test_invalid_edge_count_causes_error`. */
  lemma NewBoundary()
    ensures New(4, 6) == Ok(UniformGraphDistribution(4, 6))
    ensures New(4, 7) == Err(TooManyEdges)
  {
  }

  /** The pairs (x, y) for y in ys, in order. */
  function Pairing(x: nat, ys: seq<nat>): seq<(nat, nat)>
  {
    if ys == [] then [] else [(x, ys[0])] + Pairing(x, ys[1..])
  }

  /** `xs.iter().cartesian_product(ys.iter())`: every (x, y), x-major. */
  function Product(xs: seq<nat>, ys: seq<nat>): seq<(nat, nat)>
  {
    if xs == [] then [] else Pairing(xs[0], ys) + Product(xs[1..], ys)
  }

  /** `.filter(|(node, other_node)| node != other_node)`. */
  function WithoutSelfLoops(ps: seq<(nat, nat)>): seq<(nat, nat)>
  {
    if ps == [] then []
    else (if ps[0].0 != ps[0].1 then [ps[0]] else []) + WithoutSelfLoops(ps[1..])
  }

  /** The candidate list `sample` chooses from: ordered pairs of distinct nodes. */
  function Candidates(nodes: seq<nat>): seq<(nat, nat)>
  {
    WithoutSelfLoops(Product(nodes, nodes))
  }

  /** What `choose_multiple(rng, amount)` returns positions for: `amount` distinct positions below `size`. */
  predicate IsSelection(chosen: seq<nat>, size: nat, amount: nat)
  {
    && |chosen| == amount
    && Distinct(chosen)
    && forall k :: 0 <= k < |chosen| ==> chosen[k] < size
  }

  /** The candidates at the chosen positions, in the order chosen. */
  function Pick(candidates: seq<(nat, nat)>, chosen: seq<nat>): seq<(nat, nat)>
    requires forall k :: 0 <= k < |chosen| ==> chosen[k] < |candidates|
  {
    seq(|chosen|, k requires 0 <= k < |chosen| => candidates[chosen[k]])
  }

  lemma {:induction false} PairingMembers(x: nat, ys: seq<nat>, p: (nat, nat))
    ensures p in Pairing(x, ys) <==> p.0 == x && p.1 in ys
  {
    if ys != [] {
      PairingMembers(x, ys[1..], p);
      assert ys == [ys[0]] + ys[1..];
    }
  }

  lemma {:induction false} ProductMembers(xs: seq<nat>, ys: seq<nat>, p: (nat, nat))
    ensures p in Product(xs, ys) <==> p.0 in xs && p.1 in ys
  {
    if xs != [] {
      ProductMembers(xs[1..], ys, p);
      PairingMembers(xs[0], ys, p);
      assert xs == [xs[0]] + xs[1..];
    }
  }

  lemma {:induction false} WithoutSelfLoopsMembers(ps: seq<(nat, nat)>, p: (nat, nat))
    ensures p in WithoutSelfLoops(ps) <==> p in ps && p.0 != p.1
  {
    if ps != [] {
      WithoutSelfLoopsMembers(ps[1..], p);
      assert ps == [ps[0]] + ps[1..];
    }
  }

  lemma {:induction false} WithoutSelfLoopsConcat(a: seq<(nat, nat)>, b: seq<(nat, nat)>)
    ensures WithoutSelfLoops(a + b) == WithoutSelfLoops(a) + WithoutSelfLoops(b)
  {
    if a == [] {
      assert a + b == b;
    } else {
      var head := if a[0].0 != a[0].1 then [a[0]] else [];
      calc {
        WithoutSelfLoops(a + b);
        { assert (a + b)[0] == a[0] && (a + b)[1..] == a[1..] + b; }
        head + WithoutSelfLoops(a[1..] + b);
        { WithoutSelfLoopsConcat(a[1..], b); }
        head + (WithoutSelfLoops(a[1..]) + WithoutSelfLoops(b));
        (head + WithoutSelfLoops(a[1..])) + WithoutSelfLoops(b);
      }
    }
  }

  /** Filtering one row drops exactly the loop (x, x), when x is one of the distinct ys. */
  lemma {:induction false} PairingLength(x: nat, ys: seq<nat>)
    requires Distinct(ys)
    ensures |WithoutSelfLoops(Pairing(x, ys))| == if x in ys then |ys| - 1 else |ys|
  {
    if ys != [] {
      PairingLength(x, ys[1..]);
      assert ys == [ys[0]] + ys[1..];
      WithoutSelfLoopsConcat([(x, ys[0])], Pairing(x, ys[1..]));
      assert WithoutSelfLoops([(x, ys[0])]) == if x != ys[0] then [(x, ys[0])] else [];
      if x == ys[0] {
        assert x !in ys[1..] by {
          forall k | 0 <= k < |ys[1..]| ensures ys[1..][k] != x {
            assert ys[1..][k] == ys[k + 1];
          }
        }
      }
    }
  }

  lemma {:induction false} ProductLength(xs: seq<nat>, ys: seq<nat>)
    requires Distinct(ys)
    requires forall k :: 0 <= k < |xs| ==> xs[k] in ys
    ensures |WithoutSelfLoops(Product(xs, ys))| == |xs| * (|ys| - 1)
  {
    if xs != [] {
      ProductLength(xs[1..], ys);
      PairingLength(xs[0], ys);
      WithoutSelfLoopsConcat(Pairing(xs[0], ys), Product(xs[1..], ys));
      assert |xs| * (|ys| - 1) == (|ys| - 1) + (|xs| - 1) * (|ys| - 1);
    }
  }

  /** The candidate list holds exactly the ordered pairs of distinct nodes below n. */
  lemma CandidatesMembers(n: nat, p: (nat, nat))
    ensures p in Candidates(Range(n)) <==> p.0 < n && p.1 < n && p.0 != p.1
  {
    WithoutSelfLoopsMembers(Product(Range(n), Range(n)), p);
    ProductMembers(Range(n), Range(n), p);
    if p.0 < n && p.1 < n {
      assert Range(n)[p.0] == p.0 && Range(n)[p.1] == p.1;
    }
  }

  /** The candidate list has n * (n - 1) elements: twice C(n, 2). */
  lemma CandidatesLength(n: nat)
    ensures |Candidates(Range(n))| == n * (n - 1)
    ensures |Candidates(Range(n))| == 2 * Choose2(n)
  {
    ProductLength(Range(n), Range(n));
    PairsBeforeLength(n, n);
  }

  /**
   * An accepted distribution never asks for more edges than there are
   * candidates, so `choose_multiple` can always return `edges` positions.
   */
  lemma SelectionExists(d: UniformGraphDistribution)
    requires New(d.nodes, d.edges).Ok?
    ensures d.edges <= |Candidates(Range(d.nodes))|
    ensures IsSelection(Range(d.edges), |Candidates(Range(d.nodes))|, d.edges)
  {
    CandidatesLength(d.nodes);
  }

  /** The loop `for (edge_start, edge_end) in chosen_edges { graph.add_edge(..) }`. */
  method InsertChosen(g0: Graph, candidates: seq<(nat, nat)>, chosen: seq<nat>) returns (g: Graph)
    requires forall k :: 0 <= k < |chosen| ==> chosen[k] < |candidates|
    requires forall p :: p in candidates ==> p.0 < g0.nodeCount && p.1 < g0.nodeCount
    ensures g.nodeCount == g0.nodeCount
    ensures g.edges == g0.edges + Pick(candidates, chosen)
  {
    g := g0;
    for k := 0 to |chosen|
      invariant g.nodeCount == g0.nodeCount
      invariant g.edges == g0.edges + Pick(candidates, chosen[..k])
    {
      var (edgeStart, edgeEnd) := candidates[chosen[k]];
      g := AddEdge(g, edgeStart, edgeEnd);
      assert Pick(candidates, chosen[..k + 1]) == Pick(candidates, chosen[..k]) + [candidates[chosen[k]]];
    }
    assert chosen[..|chosen|] == chosen;
  }

  /**
   * `sample`: `nodes` nodes, then one edge per chosen ordered candidate
   * pair.  `choose_multiple(rng, edges)` returns min(edges, candidates)
   * distinct items; for an accepted distribution that is `edges`, so the
   * graph has exactly `nodes` nodes and `edges` edges, none a self-loop,
   * all between nodes of the graph.
   */
  method Sample(d: UniformGraphDistribution, chosen: seq<nat>) returns (g: Graph)
    requires New(d.nodes, d.edges).Ok?
    requires IsSelection(chosen, |Candidates(Range(d.nodes))|, Min(d.edges, |Candidates(Range(d.nodes))|))
    ensures g.nodeCount == d.nodes
    ensures |g.edges| == d.edges
    ensures g.edges == Pick(Candidates(Range(d.nodes)), chosen)
    ensures forall e :: e in g.edges ==> e.0 != e.1 && e.0 < d.nodes && e.1 < d.nodes
  {
    SelectionExists(d);
    var nodes;
    g, nodes := AddLabelledNodes(d.nodes);
    assert nodes == Range(d.nodes);
    var candidates := Candidates(nodes);
    forall p | p in candidates ensures p.0 < d.nodes && p.1 < d.nodes && p.0 != p.1 {
      CandidatesMembers(d.nodes, p);
    }
    g := InsertChosen(g, candidates, chosen);
  }
}

/**
 * The uniform sampler draws from ordered pairs, so both orientations of one
 * node pair are candidates and can both be chosen; the undirected graph then
 * gets two parallel edges between the same nodes.  A corrected sampler
 * draws from the C(n, 2) pairs (i, j) with i < j instead.
 */
module UniformSimple {
  import opened Wrappers
  import opened Combinatorics
  import opened PetGraph
  import opened Uniform

  /** Two edges of an undirected graph join the same two nodes. */
  predicate SameUnorderedPair(p: (nat, nat), q: (nat, nat))
  {
    (p.0 == q.0 && p.1 == q.1) || (p.0 == q.1 && p.1 == q.0)
  }

  predicate NoRepeatedUnorderedPair(es: seq<(nat, nat)>)
  {
    forall a, b :: 0 <= a < b < |es| ==> !SameUnorderedPair(es[a], es[b])
  }

  /**
   * For every n >= 3 the distribution G(n, 2) is accepted, and choosing the
   * candidate positions of (0, 1) and (1, 0) is a legitimate selection for
   * which `sample` joins nodes 0 and 1 twice.
   */
  lemma ReciprocalPairsBothChosen(n: nat)
    requires n >= 3
    ensures New(n, 2) == Ok(UniformGraphDistribution(n, 2))
    ensures exists chosen ::
      && IsSelection(chosen, |Candidates(Range(n))|, 2)
      && Pick(Candidates(Range(n)), chosen) == [(0, 1), (1, 0)]
      && !NoRepeatedUnorderedPair(Pick(Candidates(Range(n)), chosen))
  {
    PairsBeforeLength(n, n);
    assert n * (n - 1) >= 2 * n;
    var candidates := Candidates(Range(n));
    CandidatesMembers(n, (0, 1));
    CandidatesMembers(n, (1, 0));
    var i :| 0 <= i < |candidates| && candidates[i] == (0, 1);
    var j :| 0 <= j < |candidates| && candidates[j] == (1, 0);
    var chosen := [i, j];
    assert Pick(candidates, chosen) == [(0, 1), (1, 0)];
    assert SameUnorderedPair(Pick(candidates, chosen)[0], Pick(candidates, chosen)[1]);
    assert IsSelection(chosen, |candidates|, 2);
  }

  function Elements(s: seq<nat>): set<nat>
  {
    set x | x in s
  }

  lemma {:induction false} SubsetSize(a: set<nat>, b: set<nat>)
    requires a <= b
    ensures |a| <= |b|
  {
    if b != {} {
      var x :| x in b;
      SubsetSize(a - {x}, b - {x});
    }
  }

  lemma SubsetSameSize(a: set<nat>, b: set<nat>)
    requires a <= b && |a| == |b|
    ensures a == b
  {
    assert b == a + (b - a);
    assert a !! (b - a);
    assert |b - a| == 0;
    forall x | x in b ensures x in a {
      assert x !in b - a;
    }
  }

  lemma {:induction false} DistinctSetSize(s: seq<nat>)
    requires Distinct(s)
    ensures |Elements(s)| == |s|
  {
    if s != [] {
      var front, last := s[..|s| - 1], s[|s| - 1];
      DistinctSetSize(front);
      assert s == front + [last];
      assert Elements(s) == Elements(front) + {last};
      assert forall k :: 0 <= k < |front| ==> front[k] != last;
      assert last !in Elements(front);
    }
  }

  /** n distinct positions below n are all the positions below n. */
  lemma FullSelection(chosen: seq<nat>, n: nat)
    requires IsSelection(chosen, n, n)
    ensures forall k :: 0 <= k < n ==> k in chosen
  {
    var range := Range(n);
    DistinctSetSize(chosen);
    DistinctSetSize(range);
    forall x | x in Elements(chosen) ensures x in Elements(range) {
      assert range[x] == x;
    }
    SubsetSameSize(Elements(chosen), Elements(range));
    forall k | 0 <= k < n ensures k in chosen {
      assert range[k] == k;
      assert k in Elements(range);
    }
  }

  /** Distinct positions among the pairs i < j never give two edges on the same nodes. */
  lemma PickPairsSimple(n: nat, chosen: seq<nat>)
    requires IsSelection(chosen, |Pairs(n)|, |chosen|)
    ensures NoRepeatedUnorderedPair(Pick(Pairs(n), chosen))
  {
    var pairs := Pairs(n);
    var es := Pick(pairs, chosen);
    PairsSorted(n);
    forall a, b | 0 <= a < b < |es| ensures !SameUnorderedPair(es[a], es[b]) {
      PairsMembers(n, es[a]);
      PairsMembers(n, es[b]);
      assert pairs[chosen[a]] != pairs[chosen[b]];
    }
  }

  /** Choosing C(n, 2) distinct positions picks every pair i < j: the complete graph. */
  lemma PickPairsComplete(n: nat, chosen: seq<nat>)
    requires IsSelection(chosen, |Pairs(n)|, Choose2(n))
    ensures forall p: (nat, nat) :: p.0 < p.1 < n ==> p in Pick(Pairs(n), chosen)
  {
    var pairs := Pairs(n);
    FullSelection(chosen, |pairs|);
    forall p: (nat, nat) | p.0 < p.1 < n ensures p in Pick(pairs, chosen) {
      PairsMembers(n, p);
      var i :| 0 <= i < |pairs| && pairs[i] == p;
      assert i in chosen;
      var k :| 0 <= k < |chosen| && chosen[k] == i;
      assert Pick(pairs, chosen)[k] == p;
    }
  }

  /** Every accepted distribution admits a selection of its edge count among the C(n, 2) pairs. */
  lemma SimpleSelectionExists(d: UniformGraphDistribution)
    requires New(d.nodes, d.edges).Ok?
    ensures IsSelection(Range(d.edges), |Pairs(d.nodes)|, d.edges)
  {
  }

  /**
   * Corrected `sample`: one edge per chosen pair (i, j) with i < j.  The
   * graph has exactly `edges` edges, no two joining the same nodes, and is
   * complete when `edges` = C(nodes, 2).
   */
  method SampleSimple(d: UniformGraphDistribution, chosen: seq<nat>) returns (g: Graph)
    requires New(d.nodes, d.edges).Ok?
    requires IsSelection(chosen, |Pairs(d.nodes)|, Min(d.edges, |Pairs(d.nodes)|))
    ensures g.nodeCount == d.nodes
    ensures |g.edges| == d.edges
    ensures g.edges == Pick(Pairs(d.nodes), chosen)
    ensures forall e :: e in g.edges ==> e.0 < e.1 < d.nodes
    ensures NoRepeatedUnorderedPair(g.edges)
    ensures d.edges == Choose2(d.nodes) ==> forall p: (nat, nat) :: p.0 < p.1 < d.nodes ==> p in g.edges
  {
    var nodes;
    g, nodes := AddLabelledNodes(d.nodes);
    var pairs := Pairs(d.nodes);
    forall p | p in pairs ensures p.0 < p.1 < d.nodes {
      PairsMembers(d.nodes, p);
    }
    g := InsertChosen(g, pairs, chosen);
    PickPairsSimple(d.nodes, chosen);
    if d.edges == Choose2(d.nodes) {
      PickPairsComplete(d.nodes, chosen);
    }
  }
}
