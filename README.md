# UndirectedGraph in Dafny

A model of `UndirectedGraph` from `undirected_graph.py`. It is a small container for an
undirected graph. Its only state is one adjacency dict `_adj: node -> set of neighbours`.
Adding the edge u-v puts v in u's set and u in v's set. Missing endpoints are created on
the way. Removing a node also removes it from its neighbours' sets.

The model has five modules:

- `Adjacency` (adjacency.dfy): the adjacency map `map<N, set<N>>`. The operations are
  pure functions (`AddNode`, `AddEdge`, `RemoveNode`, `RemoveEdge`) that follow the
  Python statements. The lemmas cover the invariant `Valid` (symmetric, and so
  closed, and loop-free), idempotence, undo, and what each operation changes. `KeyError` is the
  `KeyError` case of `Result`.
- `Order` (order.dfy): the key order of a Python dict. `Append` adds a key that is not
  there yet; `Without` is `del`. `nodes()` and `iter(g)` yield the keys in this order.
- `Counting` (counting.dfy): arcs, degree sums and the handshake lemma. It also holds
  the step lemmas behind `edges()`.
- `Rebuild` (rebuild.dfy): `Sym(A)`, the graph whose edges are the pairs of `A`. This
  module describes what the constructor and `from_dict` build, and the
  `to_dict`/`from_dict` round trip.
- `Graph` (graph.dfy): the class `UndirectedGraph`, with fields `adj` (the dict) and
  `order` (its key order). The mutators change them in place; each mutator is proved
  against the pure function of `Adjacency` or `Order` it implements. Every method keeps
  the class invariant `Valid()`.

Where the code and its docstrings disagree, the model follows the code:

- The `edges()` docstring says each edge is reported as "u ≤ v". The code does
  something else: it reports (u, v) unless (v, u) was reported before, walking the
  nodes in dict order (undirected_graph.py:146-155). `Edges` models the code.
- The class docstring shows `list(g.neighbors(2))` as `[1, 3]`, a list. The order of a
  set is arbitrary, so `Neighbors` returns the set.

## Model

| member | source | states |
|---|---|---|
| Adjacency.AddNode | undirected_graph.py:88-91 | the result's nodes are the old nodes plus `n`; every old entry is kept unchanged; a new node gets an empty neighbour set |
| Adjacency.AddEdge | undirected_graph.py:93-102 | both endpoints become nodes and each is in the other's set; every old adjacency is kept; the only new adjacencies are u-v and v-u |
| Adjacency.RemoveNode | undirected_graph.py:113-119 | the node is gone from the keys and from every remaining set; every other set loses exactly that node |
| Adjacency.RemoveEdge | undirected_graph.py:121-134 | a missing `u`, or `v` not among `u`'s neighbours, raises KeyError and leaves the map as it was |
| Adjacency.AddNodeValid | undirected_graph.py:88-91 | add_node keeps the graph closed, symmetric and loop-free |
| Adjacency.AddNodeIdempotent | undirected_graph.py:88-91 | adding a node twice is the same as adding it once |
| Adjacency.RemoveNodeUndoesAddNode | undirected_graph.py:104-119 | removing a node that was just added to a valid graph restores the graph |
| Adjacency.AddEdgeValid | undirected_graph.py:93-102 | an edge between two distinct nodes keeps the graph closed, symmetric and loop-free |
| Adjacency.AddEdgeIdempotent | undirected_graph.py:93-102 | adding the same edge twice is the same as adding it once |
| Adjacency.AddEdgeCommutes | undirected_graph.py:93-102 | add_edge(u, v) and add_edge(v, u) give the same graph |
| Adjacency.RemoveNodeValid | undirected_graph.py:104-119 | remove_node keeps the graph valid |
| Adjacency.RemoveNodeCount | undirected_graph.py:104-119 | removing a present node lowers the node count by exactly one |
| Adjacency.RemoveNodeDegrees | undirected_graph.py:116-119 | each former neighbour's degree drops by one; every other node's degree is unchanged |
| Adjacency.RemoveEdgeOnValid | undirected_graph.py:121-134 | on a valid graph: success exactly when the edge exists; KeyError changes nothing; the result is valid, has the same nodes, and has lost exactly the edge u-v in both directions |
| Adjacency.RemoveEdgeUndoesAddEdge | undirected_graph.py:121-134 | removing an edge just added between two non-adjacent nodes succeeds and restores the graph |
| Adjacency.AddEdgeUndoesRemoveEdge | undirected_graph.py:121-134 | adding back an edge just removed restores the graph |
| Adjacency.SelfLoopEdgeCannotBeRemoved | undirected_graph.py:99-102 | add_edge(1, 1) on an empty graph stores 1 as its own neighbour; remove_edge(1, 1) then raises KeyError after deleting that entry (see Findings) |
| Order.Append | undirected_graph.py:90-91 | storing an absent key puts it last and leaves the other keys in place; storing a present key leaves the order as it was; no repeats are introduced |
| Order.Without | undirected_graph.py:119 | `del` drops exactly the deleted key from the key order, keeps it free of repeats, and shortens it by one |
| Order.WithoutAt | undirected_graph.py:119 | deleting the key at position k of a repeat-free order gives the order with that one position cut out, all other keys in their old relative order |
| Order.DistinctCard | undirected_graph.py:76-78 | a key order without repeats is as long as the set of its keys |
| Counting.Handshake | undirected_graph.py:163-167 | the arcs of a graph number the sum of the degrees of its nodes |
| Counting.HalfArcs | undirected_graph.py:150-155 | in a symmetric graph, a set holding one arc of each edge and never both holds exactly half of the arcs |
| Counting.YieldArc | undirected_graph.py:153-155 | yielding (u, v) when (v, u) is not in `seen` keeps `seen` at one arc per visited edge, and the output without repeats |
| Counting.SkipArc | undirected_graph.py:153 | skipping (u, v) when (v, u) is in `seen` keeps `seen` at one arc per visited edge |
| Counting.AllArcsVisited | undirected_graph.py:144-155 | once every arc has been visited, the output holds only edges of the graph, at least one direction of every edge, never a pair twice or both directions, and half the degree sum |
| Rebuild.SymValid | undirected_graph.py:206-210 | the graph built from pairs that pair no node with itself is closed, symmetric and loop-free |
| Rebuild.SymAddEdge | undirected_graph.py:93-102 | adding the edge u-v to the graph of the pairs `A` gives the graph of `A` plus (u, v) |
| Rebuild.SymArcsWithNeighbour | undirected_graph.py:207-209 | one add_edge of from_dict adds one (node, neighbour) entry to the part of the dict imported so far |
| Rebuild.AddEdges | undirected_graph.py:60-62 | the dict left by add_edge on each pair in turn keeps every old adjacency and holds every pair as an edge in both directions |
| Rebuild.AddEdgesOrder | undirected_graph.py:60-62 | the key order left by that loop extends the old order (old keys stay first, in place), contains every endpoint and nothing else, and stays free of repeats |
| Rebuild.AddEdgesSym | undirected_graph.py:60-62 | adding pairs one at a time gives the graph of all the pairs, so neither their order nor their repetition matters |
| Rebuild.AddEdgesFromEmpty | undirected_graph.py:50-62 | for any pairs, self-loops included, the constructor's dict is the graph of the given pairs, and each pair is an edge in both directions |
| Rebuild.BuildFromPairs | undirected_graph.py:50-62 | when no pair joins a node to itself, the constructor's graph is moreover valid |
| Rebuild.RoundTrip | undirected_graph.py:188-210 | rebuilding from a valid graph's adjacency gives back every edge and nothing else, and loses exactly the isolated nodes |
| Rebuild.RoundTripStable | undirected_graph.py:188-210 | exporting and re-importing a graph that has been re-imported once changes nothing |
| Graph.UndirectedGraph.constructor | undirected_graph.py:50-62 | the new graph is valid; its dict is add_edge applied to each pair in turn; its node order is the order in which the endpoints first appear |
| Graph.UndirectedGraph.Contains | undirected_graph.py:68-70 | `n in g` holds exactly when `n` is among the nodes |
| Graph.UndirectedGraph.Len | undirected_graph.py:76-78 | `len(g)` is the number of nodes listed by `nodes()` |
| Graph.UndirectedGraph.Nodes | undirected_graph.py:140-142 | every node once, and nothing else |
| Graph.UndirectedGraph.Neighbors | undirected_graph.py:157-161 | KeyError exactly for an absent node; otherwise exactly the nodes that list `n` as a neighbour, never `n` itself |
| Graph.UndirectedGraph.Degree | undirected_graph.py:163-167 | KeyError exactly for an absent node; otherwise the size of its neighbour set |
| Graph.UndirectedGraph.AddNode | undirected_graph.py:88-91 | the dict becomes `Adjacency.AddNode` of the old dict; a new node goes last in the node order; the graph stays valid |
| Graph.UndirectedGraph.AddEdge | undirected_graph.py:93-102 | the dict becomes `Adjacency.AddEdge` of the old dict; new endpoints go last in the order, u before v; the graph stays valid |
| Graph.UndirectedGraph.RemoveNode | undirected_graph.py:104-119 | KeyError with nothing changed exactly for an absent node; otherwise the dict becomes `Adjacency.RemoveNode` of the old dict and the node leaves the order; the graph stays valid |
| Graph.UndirectedGraph.RemoveEdge | undirected_graph.py:121-134 | the new dict and the outcome are those of `Adjacency.RemoveEdge`; the order is unchanged; the graph stays valid |
| Graph.UndirectedGraph.Edges | undirected_graph.py:144-155 | every pair yielded is an edge; every edge is yielded in one direction; no pair is yielded twice or in both directions; there are half as many pairs as the degree sum |
| Graph.UndirectedGraph.Copy | undirected_graph.py:173-178 | a fresh valid graph with the same dict and the same node order |
| Graph.UndirectedGraph.Clear | undirected_graph.py:180-182 | no nodes are left, and so no edges |
| Graph.UndirectedGraph.ToDict | undirected_graph.py:188-194 | the keys are exactly the nodes, and each value is that node's neighbour set |
| Graph.UndirectedGraph.FromDict | undirected_graph.py:196-210 | a fresh valid graph whose dict is the graph of all (node, neighbour) entries of `data`, taken in either direction |
| Graph.CopyThenAddEdge | undirected_graph.py:173-178 | adding an edge to a graph after copying it leaves the copy's dict and order as they were |
| Graph.ExportImport | undirected_graph.py:188-210 | `from_dict(g.to_dict())` is valid and equals `g` without its isolated nodes |
| Graph.ExampleGraph | undirected_graph.py:30-32 | add_edge(1, 2) and then add_edge(2, 3) give nodes [1, 2, 3] and the adjacency 1-2, 2-3 |
| Graph.DocExample | undirected_graph.py:30-43 | the class docstring's session: nodes [1, 2, 3]; neighbours of 2 are {1, 3}; degree of 2 is 2; `2 in g`; after remove_node(2), no edges |

## Left out

- `__repr__` (undirected_graph.py:80-82) and the text of KeyError messages (undirected_graph.py:114, 134). These are string formatting only.
- Iterator laziness. `nodes()`, `neighbors()` and `edges()` return their whole result at once. `Neighbors` returns a set because a set's iteration order is arbitrary. The nondeterministic `:|` choice in `Edges` stands for that order.
- The JSON conversion mentioned in the `to_dict` docstring. It is left to the caller.
- The API used by `tests.py` (`construct_edge`, `assign_edge`, `swap`, `empty`, `NodeExistsError` and the others). It is not defined in `undirected_graph.py`, so it is not part of this model.
- Graph.UndirectedGraph.AddEdge: requires `u != v`, and `Valid()` excludes self-loops. The code as written accepts a self-loop. `Adjacency.AddEdge` models that case and Findings shows what follows.
- Graph.UndirectedGraph.constructor: requires that no pair has equal ends, for the same reason as `AddEdge`.
- Graph.UndirectedGraph.FromDict: requires that no node lists itself as a neighbour, for the same reason. The neighbour collections are sets, not arbitrary iterables; a repeated neighbour changes nothing because add_edge is idempotent. The contract states the resulting dict but not the resulting node order. The order depends on the dict's iteration order, which a Dafny `map` does not have.
- Adjacency.RemoveNode: states the code's result only on valid graphs (symmetric, hence closed, and loop-free), which is where the class uses it. On a node that is its own neighbour, the Python loop at undirected_graph.py:117-118 removes an element from the set it is iterating over, which raises midway with the node still a key. On an asymmetric map such as `{1: {2}, 2: set()}`, line 118 raises KeyError. The function returns the loop-free, symmetric answer in both cases; neither failure is modelled.
- Graph.UndirectedGraph.Copy: sets are values in Dafny, so the two graphs cannot share a neighbour set. `Graph.CopyThenAddEdge` states the resulting independence, not the aliasing the source avoids.
- Graph.UndirectedGraph.Edges: does not state the order of the yielded pairs. The source calls it "deterministic but arbitrary".
- Node values are any type with equality. Python hashing is not modelled.

## Findings

| source | as written | input that shows it | evidently intended | confidence | as-written member | corrected member |
|---|---|---|---|---|---|---|
| undirected_graph.py:93-102, 121-134 | `add_edge` does not reject u == v, so a node can become its own neighbour. `remove_edge(u, u)` removes u from its own set with the first `remove`, then the second `remove` raises KeyError, leaving the graph changed | `g.add_edge(1, 1)` then `g.remove_edge(1, 1)`: raises KeyError with `_adj == {1: set()}` | a graph without self-loops, where `remove_edge` of an existing edge succeeds and a KeyError leaves the graph unchanged | not executed | Adjacency.SelfLoopEdgeCannotBeRemoved | Graph.UndirectedGraph.AddEdge |
