/**
 * The part of an undirected `petgraph::Graph<usize, (), Undirected>` the two
 * samplers produce and inspect: how many nodes it has and its edge list in
 * insertion order.  Parallel edges are allowed, as in petgraph.
 */
module PetGraph {
  import opened Combinatorics

  datatype Graph = Graph(nodeCount: nat, edges: seq<(nat, nat)>)

  /** `Graph::add_node`: appends a node and returns its index, the old node count. */
  function AddNode(g: Graph): (Graph, nat)
  {
    (Graph(g.nodeCount + 1, g.edges), g.nodeCount)
  }

  /** `Graph::add_edge`: petgraph panics if an endpoint index is out of bounds. */
  function AddEdge(g: Graph, a: nat, b: nat): Graph
    requires a < g.nodeCount && b < g.nodeCount
  {
    Graph(g.nodeCount, g.edges + [(a, b)])
  }

  /**
   * `Vec::from_iter((0..n).map(|i| graph.add_node(i)))` on a fresh graph:
   * the graph gets n nodes, and node label i receives index i.
   */
  method AddLabelledNodes(n: nat) returns (g: Graph, nodes: seq<nat>)
    ensures g.nodeCount == n && g.edges == []
    ensures |nodes| == n && forall i :: 0 <= i < n ==> nodes[i] == i
  {
    g, nodes := Graph(0, []), [];
    for i := 0 to n
      invariant g == Graph(i, []) && nodes == Range(i)
    {
      var (next, index) := AddNode(g);
      g, nodes := next, nodes + [index];
    }
  }
}
