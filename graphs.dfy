/**
 * `DumbGraph`: a directed graph on `usize` node ids, stored as a map from
 * each node to the set of its successors plus an append-only list of the
 * edges that were added.
 */
module Graphs {
  import opened Wrappers

  /** An edge from `source` to `target`; `key` would tell parallel edges apart. */
  datatype DumbEdge = DumbEdge(source: nat, target: nat, key: Option<nat>)

  /** `DumbEdge::new`: an edge without a key. */
  function NewEdge(source: nat, target: nat): (e: DumbEdge)
    ensures e.source == source && e.target == target && e.key == None
  {
    DumbEdge(source, target, None)
  }

  datatype GraphError = MissingNode(node: nat) | InvalidEdge(edge: DumbEdge)

  /** The targets of the edges in `edges` that leave `n`. */
  function Successors(edges: seq<DumbEdge>, n: nat): set<nat>
  {
    if edges == [] then {}
    else
      var last := edges[|edges| - 1];
      Successors(edges[..|edges| - 1], n) + (if last.source == n then {last.target} else {})
  }

  /** A node is a successor of `n` exactly when some edge goes from `n` to it. */
  lemma {:induction false} SuccessorsMembers(edges: seq<DumbEdge>, n: nat, t: nat)
    ensures t in Successors(edges, n) <==>
      exists i :: 0 <= i < |edges| && edges[i].source == n && edges[i].target == t
  {
    if edges != [] {
      var front := edges[..|edges| - 1];
      SuccessorsMembers(front, n, t);
      if exists i :: 0 <= i < |edges| && edges[i].source == n && edges[i].target == t {
        var i :| 0 <= i < |edges| && edges[i].source == n && edges[i].target == t;
        if i < |front| {
          assert front[i] == edges[i];
        }
      }
      if exists i :: 0 <= i < |front| && front[i].source == n && front[i].target == t {
        var i :| 0 <= i < |front| && front[i].source == n && front[i].target == t;
        assert edges[i] == front[i];
      }
    }
  }

  /** Appending an edge adds its target to its source's successors only. */
  lemma SuccessorsAppend(edges: seq<DumbEdge>, edge: DumbEdge, n: nat)
    ensures Successors(edges + [edge], n)
         == Successors(edges, n) + (if edge.source == n then {edge.target} else {})
  {
    assert (edges + [edge])[..|edges|] == edges;
  }

  class DumbGraph {
    var adj: map<nat, set<nat>>
    var edges: seq<DumbEdge>

    /**
     * Each node's adjacency set holds the node itself (seeded by AddNode)
     * and the targets of the edges added from it; every added edge joins
     * two nodes of the graph.
     */
    ghost predicate Valid()
      reads this
    {
      && (forall n :: n in adj ==> adj[n] == {n} + Successors(edges, n))
      && (forall i :: 0 <= i < |edges| ==> edges[i].source in adj && edges[i].target in adj)
    }

    /** `DumbGraph::new`: no nodes, no edges. */
    constructor ()
      ensures Valid() && adj == map[] && edges == []
    {
      adj, edges := map[], [];
    }

    /** `node_iter`, as the set of node ids (the iteration order is unspecified). */
    function Nodes(): (r: set<nat>)
      reads this
      ensures r == adj.Keys
    {
      adj.Keys
    }

    /** `has_node`. */
    function HasNode(node: nat): (r: bool)
      reads this
      ensures r <==> node in Nodes()
    {
      node in adj
    }

    /** `is_valid_edge`: both endpoints are nodes of the graph. */
    function IsValidEdge(edge: DumbEdge): (r: bool)
      reads this
      ensures r <==> edge.source in Nodes() && edge.target in Nodes()
    {
      HasNode(edge.source) && HasNode(edge.target)
    }

    /**
     * `has_edge`: true exactly for a loop on an existing node or for an
     * edge equal in source and target to one that was added.
     */
    function HasEdge(edge: DumbEdge): (r: bool)
      reads this
      ensures Valid() ==> (r <==>
        && edge.source in Nodes() && edge.target in Nodes()
        && (|| edge.target == edge.source
            || exists i :: 0 <= i < |edges| && edges[i].source == edge.source && edges[i].target == edge.target))
    {
      SuccessorsMembers(edges, edge.source, edge.target);
      IsValidEdge(edge) && edge.target in adj[edge.source]
    }

    /** `add_node`: true exactly when the node is new; an existing node changes nothing. */
    method AddNode(node: nat) returns (added: bool)
      requires Valid()
      modifies this
      ensures Valid()
      ensures added <==> node !in old(adj)
      ensures adj == if added then old(adj)[node := {node}] else old(adj)
      ensures edges == old(edges)
      ensures HasNode(node)
    {
      if node in adj {
        var adjSet := adj[node];
        added := node !in adjSet;
        adj := adj[node := adjSet + {node}];
      } else {
        forall t ensures t !in Successors(edges, node) {
          SuccessorsMembers(edges, node, t);
        }
        adj := adj[node := {node}];
        added := true;
      }
    }

    /**
     * `add_edge`: an edge with a missing endpoint is refused and nothing
     * changes; otherwise the target joins the source's adjacency set, the
     * edge is appended even when it is a duplicate, and the result tells
     * whether the target was new to that set.
     */
    method AddEdge(edge: DumbEdge) returns (r: Result<bool, GraphError>)
      requires Valid()
      modifies this
      ensures Valid()
      ensures !old(IsValidEdge(edge)) ==>
        r == Err(InvalidEdge(edge)) && adj == old(adj) && edges == old(edges)
      ensures old(IsValidEdge(edge)) ==>
        && r == Ok(!old(HasEdge(edge)))
        && adj == old(adj)[edge.source := old(adj)[edge.source] + {edge.target}]
        && edges == old(edges) + [edge]
        && Nodes() == old(Nodes())
        && HasEdge(edge)
    {
      if !IsValidEdge(edge) {
        return Err(InvalidEdge(edge));
      }
      var targets := adj[edge.source];
      var edgeWasInserted := edge.target !in targets;
      adj := adj[edge.source := targets + {edge.target}];
      forall n ensures Successors(old(edges) + [edge], n)
                       == Successors(old(edges), n) + (if edge.source == n then {edge.target} else {}) {
        SuccessorsAppend(old(edges), edge, n);
      }
      edges := edges + [edge];
      r := Ok(edgeWasInserted);
    }

    /** `is_directed`: a DumbGraph is always directed. */
    function IsDirected(): (r: bool)
      ensures r
    {
      true
    }

    /** `is_undirected`, the negation of `is_directed`: a DumbGraph is never undirected. */
    function IsUndirected(): (r: bool)
      ensures r == !IsDirected()
      ensures !r
    {
      !IsDirected()
    }

    /** Every node has a loop to itself. */
    lemma NodesHaveLoops(n: nat)
      requires Valid() && n in Nodes()
      ensures HasEdge(NewEdge(n, n))
    {
    }

    /** Every successor in the adjacency map is itself a node. */
    lemma SuccessorsAreNodes(n: nat, t: nat)
      requires Valid() && n in adj && t in adj[n]
      ensures t in Nodes()
    {
      if t != n {
        SuccessorsMembers(edges, n, t);
      }
    }
  }

  /** The repository's `test_dumb_graph` scenario. */
  method TestDumbGraph() returns (nodes: set<nat>, edges: seq<DumbEdge>)
    ensures |nodes| == 2 && nodes == {3, 7}
    ensures edges == [NewEdge(3, 7)]
  {
    var g := new DumbGraph();
    var _ := g.AddNode(3);
    var _ := g.AddNode(7);
    ghost var keys := g.adj.Keys;
    assert keys == {3, 7};
    var _ := g.AddEdge(NewEdge(3, 7));
    nodes, edges := g.Nodes(), g.edges;
    assert nodes == keys;
  }

  /**
   * Adding the same edge twice: the second call reports that nothing was
   * new, yet the edge list holds the edge twice.
   */
  method DuplicateEdgeScenario() returns (first: Result<bool, GraphError>, second: Result<bool, GraphError>, edges: seq<DumbEdge>)
    ensures first == Ok(true) && second == Ok(false)
    ensures edges == [NewEdge(3, 7), NewEdge(3, 7)]
  {
    var g := new DumbGraph();
    var _ := g.AddNode(3);
    var _ := g.AddNode(7);
    first := g.AddEdge(NewEdge(3, 7));
    second := g.AddEdge(NewEdge(3, 7));
    edges := g.edges;
  }

  /** An edge to a node never added is refused, and the graph keeps no edge. */
  method MissingEndpointScenario() returns (r: Result<bool, GraphError>, edges: seq<DumbEdge>)
    ensures r == Err(InvalidEdge(NewEdge(3, 7)))
    ensures edges == []
  {
    var g := new DumbGraph();
    var _ := g.AddNode(3);
    r := g.AddEdge(NewEdge(3, 7));
    edges := g.edges;
  }
}
