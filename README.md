# random_graphs in Dafny

This project models the core of `random_graphs`, a Rust crate that draws
random graphs from two classic models:

- the binomial (Erdős–Rényi) model G(n, p), which adds each pair of nodes as
  an edge independently with probability p;
- the uniform model G(n, M), which places exactly M edges among the candidate
  node pairs.

The model also covers the crate's small directed `DumbGraph` store behind
its `GraphLike` interface.

Modules:

- `Graphs` models `src/lib.rs`. It defines `DumbEdge`, `GraphError` and
  the class `DumbGraph`. The class has two fields: an adjacency map
  `map<nat, set<nat>>` and an append-only `seq<DumbEdge>`. Its invariant
  `Valid()` says two things. First, every node's adjacency set is the node
  itself plus the targets of the edges added from it. Second, every added
  edge joins two nodes of the graph.
- `PetGraph` models the part of `petgraph::Graph` the samplers use. The
  graph is a record of the node count and the edge list in insertion order,
  and parallel edges are allowed.
- `Combinatorics` holds C(n, 2), the node labels `0..n` and the
  lexicographic enumeration `Pairs(n)` of the pairs i < j < n.
- `Uniform` models `src/distributions/uniform.rs`. It covers the
  constructor's guard and the candidate list of ordered pairs. It also
  covers `sample`, with `choose_multiple` replaced by an input: the chosen
  positions in the candidate list.
- `UniformSimple` records a defect of the uniform sampler, listed under
  Findings, and gives the corrected sampler.
- `Binomial` models `src/distributions/binomial.rs`. It covers the
  constructor's guard and `sample`'s nested loop. Each Bernoulli draw is
  replaced by an input sequence of outcomes, one per pair, in the order the
  draws happen.

Behaviours of the code worth knowing, which the model keeps:

- `GraphLike::add_edge` reports through its `bool` whether the edge was new
  (src/lib.rs:26-27). Yet `DumbGraph::add_edge` appends every valid edge to
  the edge list, a duplicate included, so `edge_iter` yields it twice
  (src/lib.rs:120-123).
- `add_node` puts every node into its own adjacency set (src/lib.rs:102-105),
  so `has_edge(n, n)` holds for every node `n`.
- The uniform sampler bounds the edge count by C(N, 2), the number of
  unordered pairs "in a graph on N" nodes (src/distributions/uniform.rs:40-41),
  and it produces an `Undirected` graph. Yet it chooses among ordered pairs
  and never removes reverse duplicates (see Findings).

## Model

| member | source | states |
|---|---|---|
| `Graphs.NewEdge` | src/lib.rs:54-62 | The edge has the given source and target and no key |
| `Graphs.SuccessorsMembers` | src/lib.rs:115-124 | A node is a successor of `n` exactly when some added edge goes from `n` to it |
| `Graphs.SuccessorsAppend` | src/lib.rs:120-121 | Appending an edge adds its target to the successors of its source and of no other node |
| `Graphs.DumbGraph.constructor` | src/lib.rs:85-90 | A new graph has no nodes and no edges, and satisfies the invariant |
| `Graphs.DumbGraph.Nodes` | src/lib.rs:134-136 | The nodes `node_iter` yields are exactly the keys of the adjacency map, taken as a set |
| `Graphs.DumbGraph.HasNode` | src/lib.rs:111-113 | True exactly for ids added as nodes |
| `Graphs.DumbGraph.IsValidEdge` | src/lib.rs:92-94 | True exactly when both endpoints are nodes of the graph |
| `Graphs.DumbGraph.HasEdge` | src/lib.rs:126-128 | Under the invariant: true exactly when both endpoints exist and the edge is either a loop on a node or matches an added edge in source and target |
| `Graphs.DumbGraph.AddNode` | src/lib.rs:98-109 | Returns true exactly for a new id, which then maps to `{id}`. An existing id returns false, and the map and edge list stay unchanged. The invariant is kept |
| `Graphs.DumbGraph.AddEdge` | src/lib.rs:115-124 | A missing endpoint gives `Err(InvalidEdge(edge))` with nothing changed. Otherwise it returns whether the edge was absent. Only the source's set gains the target, and the edge list grows by exactly this edge, even for a duplicate. The node set stays the same, `has_edge` holds afterwards, and the invariant is kept |
| `Graphs.DumbGraph.IsDirected` | src/lib.rs:130-132 | A `DumbGraph` is always directed |
| `Graphs.DumbGraph.IsUndirected` | src/lib.rs:36-38 | Undirectedness is the negation of directedness, so a `DumbGraph` is never undirected |
| `Graphs.DumbGraph.NodesHaveLoops` | src/lib.rs:102-105 | Every node of a valid graph has an edge to itself |
| `Graphs.DumbGraph.SuccessorsAreNodes` | src/lib.rs:116-121 | Every successor in the adjacency map is itself a node |
| `Graphs.TestDumbGraph` | src/lib.rs:143-166 | Adding nodes 3 and 7 and then edge (3, 7) gives exactly two nodes, {3, 7}, and the edge list `[(3, 7)]` |
| `Graphs.DuplicateEdgeScenario` | src/lib.rs:115-124 | Adding edge (3, 7) twice returns `Ok(true)` and then `Ok(false)`, and the edge list holds the edge twice |
| `Graphs.MissingEndpointScenario` | src/lib.rs:115-118 | Adding edge (3, 7) when node 7 is missing returns `Err(InvalidEdge((3, 7)))` and adds no edge |
| `PetGraph.AddLabelledNodes` | src/distributions/uniform.rs:54 | Builds a graph with n nodes and no edges, in which node label i gets index i |
| `Combinatorics.Choose2` | src/distributions/uniform.rs:41 | C(n, 2) is 0 for n < 2, as `binomial` gives 0 when k > n. Twice C(n, 2) is exactly n·(n − 1), so the division is exact. `Combinatorics.Pairs` is its partner: the enumerated pairs number exactly C(n, 2) |
| `Combinatorics.Pairs` | src/distributions/binomial.rs:56-57 | The enumeration of pairs i < j < n has exactly C(n, 2) elements |
| `Combinatorics.PairsMembers` | src/distributions/binomial.rs:56-57 | The pairs visited are exactly the (i, j) with i < j < n |
| `Combinatorics.PairsSorted` | src/distributions/binomial.rs:56-57 | The pairs are visited in strictly increasing lexicographic order, so none is visited twice |
| `Combinatorics.RowPrefix` | src/distributions/binomial.rs:56-57 | At any point of the nested loop, the visited pairs are a prefix of the enumeration |
| `Combinatorics.PairsBelowTwo` | src/distributions/binomial.rs:56-57 | With at most one node there are no pairs |
| `Uniform.New` | src/distributions/uniform.rs:39-46 | Gives `Err(TooManyEdges)` exactly when edges > C(nodes, 2), and otherwise keeps both fields unchanged |
| `Uniform.NewBoundary` | src/distributions/uniform.rs:78-85 | `new(4, 6)` is accepted and `new(4, 7)` gives `TooManyEdges` |
| `Uniform.ProductMembers` | src/distributions/uniform.rs:56-58 | The cartesian product holds exactly the pairs whose components come from the two lists |
| `Uniform.WithoutSelfLoopsMembers` | src/distributions/uniform.rs:59-60 | The filter keeps exactly the pairs with distinct components |
| `Uniform.CandidatesMembers` | src/distributions/uniform.rs:56-60 | The candidates are exactly the ordered pairs (i, j) with i, j < nodes and i ≠ j |
| `Uniform.CandidatesLength` | src/distributions/uniform.rs:56-60 | There are nodes·(nodes − 1) candidates, twice C(nodes, 2) |
| `Uniform.SelectionExists` | src/distributions/uniform.rs:41-61 | For an accepted distribution, `edges` distinct candidate positions always exist |
| `Uniform.InsertChosen` | src/distributions/uniform.rs:63-65 | The insertion loop appends the chosen candidates in the order chosen and adds no node |
| `Uniform.Sample` | src/distributions/uniform.rs:50-68 | The distribution is accepted, and `choose_multiple` returns min(`edges`, number of candidates) distinct candidate positions. Then the graph has exactly `nodes` nodes and exactly `edges` edges; the edge count is derived, not assumed. The edges are the chosen candidates, with no self-loop and both endpoints below `nodes` |
| `UniformSimple.ReciprocalPairsBothChosen` | src/distributions/uniform.rs:56-61 | For every n ≥ 3, G(n, 2) is accepted, and a legitimate choice yields edges (0, 1) and (1, 0): two edges on the same nodes |
| `UniformSimple.FullSelection` | src/distributions/uniform.rs:61 | n distinct positions below n cover every position below n |
| `UniformSimple.PickPairsSimple` | src/distributions/uniform.rs:56-61 | Distinct positions among the pairs i < j never give two edges on the same nodes |
| `UniformSimple.PickPairsComplete` | src/distributions/uniform.rs:56-61 | Choosing C(n, 2) distinct positions among the pairs i < j gives the complete graph |
| `UniformSimple.SimpleSelectionExists` | src/distributions/uniform.rs:41-61 | For an accepted distribution, `edges` distinct positions among the C(n, 2) pairs exist |
| `UniformSimple.SampleSimple` | src/distributions/uniform.rs:50-68 | Corrected sampler, for an accepted distribution and min(`edges`, C(nodes, 2)) distinct positions: exactly `nodes` nodes and `edges` edges, every edge (i, j) with i < j < nodes, no two edges on the same nodes, and the complete graph when edges = C(nodes, 2) |
| `Binomial.New` | src/distributions/binomial.rs:36-43 | Gives `Err(InvalidProbability(p))` exactly when p < 0 or p > 1, and otherwise keeps `nodes` and `p` unchanged |
| `Binomial.NewExamples` | src/distributions/binomial.rs:74-87 | Rejects −0.05 and 1.01, echoing p back, and accepts 0.0, 0.05, 0.4, 0.77, 0.33, 0.999 and 1.0 |
| `Binomial.SelectedMembers` | src/distributions/binomial.rs:58-60 | A pair becomes an edge exactly when its trial is true |
| `Binomial.SelectedLength` | src/distributions/binomial.rs:20-21 | There is at most one edge per visited pair |
| `Binomial.SelectedIncreasing` | src/distributions/binomial.rs:56-60 | The edges keep the enumeration's strict lexicographic order |
| `Binomial.SelectedStep` | src/distributions/binomial.rs:58-60 | Each trial extends the edge list by its pair exactly when it is true |
| `Binomial.Sample` | src/distributions/binomial.rs:47-65 | Given C(nodes, 2) trial outcomes, the graph has exactly `nodes` nodes. Its edges are the pairs i < j whose trial is true, in lexicographic order |
| `Binomial.SampleShape` | src/distributions/binomial.rs:51-62 | A sample has at most C(nodes, 2) edges, each (i, j) with i < j < nodes, strictly increasing, with no repeated pair |
| `Binomial.NoTrueTrialNoEdge` | src/distributions/binomial.rs:56-62 | All trials false gives no edges |
| `Binomial.AllTrueTrialsComplete` | src/distributions/binomial.rs:56-62 | All trials true gives every pair i < j, in order |
| `Binomial.FewNodesNoEdge` | src/distributions/binomial.rs:56-57 | With at most one node there are no trials and no edges |

## Left out

- Randomness is not modelled. `rand`'s `Bernoulli`, `IteratorRandom::choose_multiple` and `thread_rng` are foreign. Their outcomes are inputs: a sequence of trial results, and a list of distinct candidate positions. The model therefore says nothing about the independence of the trials or the uniformity of the choice.
- The statistical tests for mean edge count (src/distributions/binomial.rs:91-113) and bucket spread (src/distributions/uniform.rs:88-151) are left out. They are probabilistic and depend on floating-point tolerances.
- `p` is a `real`. The `f64` corner cases, such as NaN passing the range check and then failing the `Bernoulli::new(..).unwrap()` at src/distributions/binomial.rs:54, are not modelled.
- Node ids and counts are `nat`. Neither `usize` overflow in C(nodes, 2) nor petgraph's 32-bit index limit is modelled.
- petgraph's storage, node weights (always equal to the node's index here), `with_capacity` and the `Undirected` marker are replaced by the node count and the edge list.
- The `GraphLike` and `EdgeLike` traits are modelled through their single implementation, `DumbGraph` and `DumbEdge`.
- `node_iter` is modelled as the set of node ids `DumbGraph.Nodes()`, because `HashMap` iteration order is unspecified. `edge_iter` is the `edges` field, and the `Box<dyn Iterator>` wrapping is left out.
- `GraphError::MissingNode` is declared but never produced, as in the code.
- `thiserror` message formatting is left out.
- The random-tree generator is not part of this model.

## Findings

| source | as written | input that shows it | evidently intended | confidence | as-written member | corrected member |
|---|---|---|---|---|---|---|
| src/distributions/uniform.rs:56-61 | The candidates are ordered pairs, so (i, j) and (j, i) are both candidates for the undirected graph | G(3, 2), accepted since 2 ≤ C(3, 2), with the positions of (0, 1) and (1, 0) chosen: the graph gets two edges between nodes 0 and 1 (likewise for every n ≥ 3) | Choose among the C(n, 2) unordered pairs: no repeated pair, and the complete graph when M = C(n, 2). Orienting every edge as (i, j) with i < j, as the corrected member does, is one possible fix. The repository's bucket test (src/distributions/uniform.rs:95-150) counts ordered `[src][tgt]` buckets, so under the i < j fix the lower-triangle buckets stay 0 and the test divides by zero. A fix that keeps that test would also randomise each edge's orientation | medium; not executed | `UniformSimple.ReciprocalPairsBothChosen` | `UniformSimple.SampleSimple` |
