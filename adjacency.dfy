/**
 The adjacency map of an undirected graph, `node -> set of neighbours`, and the
 operations of `UndirectedGraph` on it as pure functions. These functions are the
 specifications of the class mutators in module Graph. AddNode, AddEdge and
 RemoveEdge follow the Python code step by step, so applied to a map with a
 self-loop they behave as the code does (see SelfLoopEdgeCannotBeRemoved).
 RemoveNode gives the code's result on valid maps only (symmetric and loop-free);
 elsewhere the Python loop can raise midway.
 */
module Adjacency {

  type Adj<N(==)> = map<N, set<N>>

  /** What a lookup returns: a value, or the `KeyError` the source raises. */
  datatype Result<+T> = Ok(value: T) | KeyError

  /** The map an operation leaves behind together with what it returned or raised. */
  datatype Step<N(==)> = Step(adj: Adj<N>, outcome: Result<()>)

  /** `v` is a neighbour of `u` exactly when `u` is a neighbour of `v`; in particular
      every neighbour is itself a node. */
  ghost predicate Symmetric<N>(m: Adj<N>) {
    forall u, v :: u in m && v in m[u] ==> v in m && u in m[v]
  }

  /** No node is its own neighbour. */
  ghost predicate LoopFree<N>(m: Adj<N>) {
    forall u :: u in m ==> u !in m[u]
  }

  /** The invariant the graph keeps between calls. */
  ghost predicate Valid<N>(m: Adj<N>) {
    Symmetric(m) && LoopFree(m)
  }

  /** add_node: an absent node gets an empty neighbour set; a present one is left alone. */
  function AddNode<N(==)>(m: Adj<N>, n: N): (r: Adj<N>)
    ensures r.Keys == m.Keys + {n}
    ensures forall k :: k in m ==> k in r && r[k] == m[k]
    ensures n !in m ==> r[n] == {}
  {
    if n in m then m else m[n := {}]
  }

  /** add_edge: add both endpoints, then each to the other's neighbour set. */
  function AddEdge<N(==)>(m: Adj<N>, u: N, v: N): (r: Adj<N>)
    ensures r.Keys == m.Keys + {u, v}
    ensures v in r[u] && u in r[v]
    ensures forall x, y :: x in m && y in m[x] ==> x in r && y in r[x]
    ensures forall x, y :: x in r && y in r[x] ==>
      (x in m && y in m[x]) || (x == u && y == v) || (x == v && y == u)
  {
    var m1 := AddNode(AddNode(m, u), v);
    var m2 := m1[u := m1[u] + {v}];
    m2[v := m2[v] + {u}]
  }

  /** remove_node once the node is known to be present: delete it from every
      neighbour's set and drop its own entry. */
  function RemoveNode<N(==)>(m: Adj<N>, n: N): (r: Adj<N>)
    ensures n !in r && r.Keys == m.Keys - {n}
    ensures forall k :: k in r ==> n !in r[k] && r[k] == m[k] - {n}
  {
    map k | k in m && k != n :: m[k] - {n}
  }

  /** remove_edge as written: `adj[u].remove(v)` and then `adj[v].remove(u)`, each of
      which raises KeyError when the key or the element is missing. */
  function RemoveEdge<N(==)>(m: Adj<N>, u: N, v: N): (s: Step<N>)
    ensures u !in m || v !in m[u] ==> s == Step(m, KeyError)
  {
    if u !in m || v !in m[u] then Step(m, KeyError)
    else
      var m1 := m[u := m[u] - {v}];
      if v !in m1 || u !in m1[v] then Step(m1, KeyError)
      else Step(m1[v := m1[v] - {u}], Ok(()))
  }

  lemma AddNodeValid<N>(m: Adj<N>, n: N)
    requires Valid(m)
    ensures Valid(AddNode(m, n))
  {
  }

  /** Adding a node twice is the same as adding it once. */
  lemma AddNodeIdempotent<N>(m: Adj<N>, n: N)
    ensures AddNode(AddNode(m, n), n) == AddNode(m, n)
  {
  }

  /** Removing a node just added restores the graph. */
  lemma RemoveNodeUndoesAddNode<N>(m: Adj<N>, n: N)
    requires Valid(m) && n !in m
    ensures RemoveNode(AddNode(m, n), n) == m
  {
    var r := RemoveNode(AddNode(m, n), n);
    assert r.Keys == m.Keys;
    forall k | k in m
      ensures r[k] == m[k]
    {
      assert n !in m[k];
    }
  }

  /** An edge between distinct nodes keeps the graph valid. */
  lemma AddEdgeValid<N>(m: Adj<N>, u: N, v: N)
    requires Valid(m) && u != v
    ensures Valid(AddEdge(m, u, v))
  {
  }

  lemma AddEdgeIdempotent<N>(m: Adj<N>, u: N, v: N)
    ensures AddEdge(AddEdge(m, u, v), u, v) == AddEdge(m, u, v)
  {
    var once := AddEdge(m, u, v);
    var twice := AddEdge(once, u, v);
    assert twice.Keys == once.Keys;
    forall x | x in once
      ensures twice[x] == once[x]
    {
      forall y
        ensures y in twice[x] <==> y in once[x]
      {
      }
    }
  }

  /** The edge u-v and the edge v-u are one and the same. */
  lemma AddEdgeCommutes<N>(m: Adj<N>, u: N, v: N)
    ensures AddEdge(m, u, v) == AddEdge(m, v, u)
  {
    var uv := AddEdge(m, u, v);
    var vu := AddEdge(m, v, u);
    assert uv.Keys == vu.Keys;
    forall x | x in uv
      ensures uv[x] == vu[x]
    {
      forall y
        ensures y in uv[x] <==> y in vu[x]
      {
      }
    }
  }

  lemma RemoveNodeValid<N>(m: Adj<N>, n: N)
    requires Valid(m)
    ensures Valid(RemoveNode(m, n))
  {
  }

  /** Removing a present node lowers the node count by exactly one. */
  lemma RemoveNodeCount<N>(m: Adj<N>, n: N)
    requires n in m
    ensures |RemoveNode(m, n)| == |m| - 1
  {
    var r := RemoveNode(m, n);
    assert r.Keys == m.Keys - {n};
    assert |r.Keys| == |m.Keys - {n}|;
  }

  /** Each neighbour of a removed node loses exactly that neighbour; every other
      node keeps its degree. */
  lemma RemoveNodeDegrees<N>(m: Adj<N>, n: N, k: N)
    requires Valid(m) && n in m && k in m && k != n
    ensures k in RemoveNode(m, n)
    ensures |RemoveNode(m, n)[k]| == if k in m[n] then |m[k]| - 1 else |m[k]|
  {
    if k in m[n] {
      assert n in m[k];
    } else {
      assert n !in m[k];
      assert m[k] - {n} == m[k];
    }
  }

  /** On a valid graph remove_edge raises KeyError exactly when the edge is missing,
      and then before changing anything; otherwise it removes that edge alone. */
  lemma RemoveEdgeOnValid<N>(m: Adj<N>, u: N, v: N)
    requires Valid(m)
    ensures RemoveEdge(m, u, v).outcome.Ok? <==> u in m && v in m[u]
    ensures RemoveEdge(m, u, v).outcome == KeyError ==> RemoveEdge(m, u, v).adj == m
    ensures var r := RemoveEdge(m, u, v).adj;
      && Valid(r)
      && r.Keys == m.Keys
      && (forall x, y :: x in r && y in r[x] ==> y in m[x])
      && (forall x, y :: x in m && y in m[x] && !(x == u && y == v) && !(x == v && y == u) ==> y in r[x])
      && (u in m && v in m[u] ==> v !in r[u] && u !in r[v])
  {
  }

  /** Removing an edge just added between two nodes that were not adjacent restores the graph. */
  lemma RemoveEdgeUndoesAddEdge<N>(m: Adj<N>, u: N, v: N)
    requires Valid(m) && u in m && v in m && u != v && v !in m[u]
    ensures RemoveEdge(AddEdge(m, u, v), u, v) == Step(m, Ok(()))
  {
    var s := RemoveEdge(AddEdge(m, u, v), u, v);
    assert u !in m[v];
    assert s.adj.Keys == m.Keys;
    forall x | x in m
      ensures s.adj[x] == m[x]
    {
    }
  }

  /** Adding back an edge just removed restores the graph. */
  lemma AddEdgeUndoesRemoveEdge<N>(m: Adj<N>, u: N, v: N)
    requires Valid(m) && u in m && v in m[u]
    ensures AddEdge(RemoveEdge(m, u, v).adj, u, v) == m
  {
    var r := AddEdge(RemoveEdge(m, u, v).adj, u, v);
    assert r.Keys == m.Keys;
    forall x | x in m
      ensures r[x] == m[x]
    {
    }
  }

  /** add_edge does not reject a self-loop: afterwards the edge 1-1 is present, yet
      remove_edge(1, 1) raises KeyError, and only after its first `remove` has
      already deleted 1 from its own neighbour set. */
  lemma SelfLoopEdgeCannotBeRemoved()
    ensures var g := AddEdge(map[], 1, 1);
      && g == map[1 := {1}]
      && 1 in g[1]
      && RemoveEdge(g, 1, 1) == Step(map[1 := {}], KeyError)
  {
    var g := AddEdge(map[], 1, 1);
    assert g.Keys == {1} && g[1] == {1};
    assert g == map[1 := {1}];
    assert g[1 := g[1] - {1}] == map[1 := {}];
  }
}
