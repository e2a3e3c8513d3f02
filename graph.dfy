/**
 `UndirectedGraph`: an undirected graph kept as one mutable adjacency dict,
 `node -> set of neighbours`. The methods change the dict in place; each is
 specified by the pure function of module Adjacency that it implements, and keeps
 the invariant `Valid()`: symmetry, closure, no self-loops, and a key order that
 lists each node once.
 */
module Graph {
  import opened Adjacency
  import opened Order
  import opened Counting
  import opened Rebuild

  class UndirectedGraph<N(==)> {
    /** The adjacency dict. */
    var adj: map<N, set<N>>
    /** The keys of `adj` in the order they were inserted, as the dict yields them. */
    var order: seq<N>

    ghost predicate Valid()
      reads this
    {
      && Adjacency.Valid(adj)
      && Distinct(order)
      && (forall n :: n in order ==> n in adj)
      && (forall n :: n in adj ==> n in order)
    }

    /** `UndirectedGraph(edges)`: an empty graph, then add_edge for each pair in turn
        (no pairs stands for `edges=None`). */
    constructor (edges: seq<(N, N)>)
      requires forall i :: 0 <= i < |edges| ==> edges[i].0 != edges[i].1
      ensures Valid()
      ensures adj == AddEdges(map[], edges)
      ensures order == AddEdgesOrder([], edges)
    {
      adj := map[];
      order := [];
      new;
      var i := 0;
      while i < |edges|
        invariant 0 <= i <= |edges|
        invariant Valid()
        invariant AddEdges(adj, edges[i..]) == AddEdges(map[], edges)
        invariant AddEdgesOrder(order, edges[i..]) == AddEdgesOrder([], edges)
      {
        assert edges[i..][1..] == edges[i + 1..];
        AddEdge(edges[i].0, edges[i].1);
        i := i + 1;
      }
    }

    /** `node in g` */
    function Contains(n: N): (b: bool)
      reads this
      requires Valid()
      ensures b <==> n in Nodes()
    {
      n in adj
    }

    /** `len(g)` */
    function Len(): (r: nat)
      reads this
      requires Valid()
      ensures r == |Nodes()|
    {
      DistinctCard(order);
      assert (set x | x in order) == adj.Keys;
      |adj|
    }

    /** `nodes()` and `iter(g)`: every node once, in insertion order. */
    function Nodes(): (r: seq<N>)
      reads this
      requires Valid()
      ensures Distinct(r)
      ensures forall n :: n in r ==> n in adj
      ensures forall n :: n in adj ==> n in r
    {
      order
    }

    /** `neighbors(node)`, as the set the iterator runs over. */
    function Neighbors(n: N): (r: Result<set<N>>)
      reads this
      requires Valid()
      ensures r.KeyError? <==> n !in Nodes()
      ensures r.Ok? ==> forall m :: m in r.value ==> m in Nodes() && m != n && n in adj[m]
      ensures r.Ok? ==> forall m :: m in adj && n in adj[m] ==> m in r.value
    {
      if n !in adj then KeyError else Ok(adj[n])
    }

    /** `degree(node)` */
    function Degree(n: N): (r: Result<nat>)
      reads this
      requires Valid()
      ensures r.KeyError? <==> n !in Nodes()
      ensures r.Ok? ==> Neighbors(n).Ok? && r.value == |Neighbors(n).value|
    {
      if n !in adj then KeyError else Ok(|adj[n]|)
    }

    /** `add_node(node)`: idempotent. */
    method AddNode(n: N)
      requires Valid()
      modifies this
      ensures Valid()
      ensures adj == Adjacency.AddNode(old(adj), n)
      ensures order == Append(old(order), n)
    {
      if n !in adj {
        adj := adj[n := {}];
        order := order + [n];
      }
    }

    /** `add_edge(u, v)`: idempotent, adds missing endpoints. A self-loop is refused
        by the precondition (the code as written admits it). */
    method AddEdge(u: N, v: N)
      requires Valid() && u != v
      modifies this
      ensures Valid()
      ensures adj == Adjacency.AddEdge(old(adj), u, v)
      ensures order == Append(Append(old(order), u), v)
    {
      AddEdgeValid(adj, u, v);
      AddNode(u);
      AddNode(v);
      adj := adj[u := adj[u] + {v}];
      adj := adj[v := adj[v] + {u}];
    }

    /** `remove_node(node)`: KeyError when absent; otherwise the node leaves every
        neighbour's set, one neighbour at a time, and then the dict. */
    method RemoveNode(n: N) returns (r: Result<()>)
      requires Valid()
      modifies this
      ensures Valid()
      ensures r.Ok? <==> n in old(adj)
      ensures adj == if r.Ok? then Adjacency.RemoveNode(old(adj), n) else old(adj)
      ensures order == if r.Ok? then Without(old(order), n) else old(order)
    {
      if n !in adj {
        return KeyError;
      }
      ghost var before := adj;
      var todo := adj[n];
      while todo != {}
        invariant todo <= before[n]
        invariant adj.Keys == before.Keys && adj[n] == before[n]
        invariant forall k :: k in adj ==> adj[k] == if k in before[n] - todo then before[k] - {n} else before[k]
        invariant order == old(order)
        decreases todo
      {
        var m :| m in todo;
        adj := adj[m := adj[m] - {n}];
        todo := todo - {m};
      }
      adj := adj - {n};
      forall k | k in adj
        ensures adj[k] == before[k] - {n}
      {
        if n in before[k] {
          assert k in before[n];
        }
      }
      assert adj == Adjacency.RemoveNode(before, n);
      RemoveNodeValid(before, n);
      order := Without(order, n);
      r := Ok(());
    }

    /** `remove_edge(u, v)`: KeyError, with nothing changed, when u is absent or v is
        not its neighbour; otherwise the edge goes from both sets. */
    method RemoveEdge(u: N, v: N) returns (r: Result<()>)
      requires Valid()
      modifies this
      ensures Valid()
      ensures Step(adj, r) == Adjacency.RemoveEdge(old(adj), u, v)
      ensures order == old(order)
    {
      RemoveEdgeOnValid(adj, u, v);
      if u !in adj || v !in adj[u] {
        return KeyError;
      }
      adj := adj[u := adj[u] - {v}];
      if v !in adj || u !in adj[v] {
        // Only a self-loop could get here, and Valid() rules those out.
        assert false;
      }
      adj := adj[v := adj[v] - {u}];
      r := Ok(());
    }

    /** `edges()`: walks the nodes in order and each node's neighbours, yielding
        (u, v) unless (v, u) was yielded before. */
    method Edges() returns (es: seq<(N, N)>)
      requires Valid()
      ensures forall i :: 0 <= i < |es| ==> es[i].0 in adj && es[i].1 in adj[es[i].0]
      ensures forall u, v :: u in adj && v in adj[u] ==> (u, v) in es || (v, u) in es
      ensures forall i, j :: 0 <= i < j < |es| ==> es[i] != es[j] && es[i] != Reverse(es[j])
      ensures 2 * |es| == DegreeSum(adj, order)
    {
      es := [];
      var seen: set<(N, N)> := {};
      ghost var done: set<N> := {};
      ghost var visited: set<(N, N)> := {};
      var i := 0;
      while i < |order|
        invariant 0 <= i <= |order|
        invariant done == set k | 0 <= k < i :: order[k]
        invariant Lists(es, seen) && OneArcEach(seen, visited)
        invariant forall x, y :: (x, y) in visited ==> x in done && x in adj && y in adj[x]
        invariant forall x, y :: x in done && x in adj && y in adj[x] ==> (x, y) in visited
      {
        var u := order[i];
        var todo := adj[u];
        while todo != {}
          invariant todo <= adj[u]
          invariant Lists(es, seen) && OneArcEach(seen, visited)
          invariant forall x, y :: (x, y) in visited ==>
            (x in done || (x == u && y !in todo)) && x in adj && y in adj[x]
          invariant forall x, y :: (x in done || (x == u && y !in todo)) && x in adj && y in adj[x] ==>
            (x, y) in visited
          decreases todo
        {
          var v :| v in todo;
          if (v, u) !in seen {
            YieldArc(es, seen, visited, (u, v));
            seen := seen + {(u, v)};
            es := es + [(u, v)];
          } else {
            SkipArc(seen, visited, (u, v));
          }
          visited := visited + {(u, v)};
          todo := todo - {v};
        }
        assert u !in done;
        done := done + {u};
        i := i + 1;
        assert done == set k | 0 <= k < i :: order[k];
      }
      ArcsExactly(adj, visited);
      AllArcsVisited(adj, order, es, seen);
    }

    /** `copy()`: a new graph with the same nodes, order and neighbour sets; sets are
        values here, so the two graphs share nothing that can change. */
    method Copy() returns (g: UndirectedGraph<N>)
      requires Valid()
      ensures fresh(g) && g.Valid()
      ensures g.adj == adj && g.order == order
    {
      g := new UndirectedGraph([]);
      g.adj := map n | n in adj :: adj[n];
      g.order := order;
    }

    /** `clear()` */
    method Clear()
      requires Valid()
      modifies this
      ensures Valid()
      ensures adj == map[] && order == []
    {
      adj := map[];
      order := [];
    }

    /** `to_dict()`: the adjacency as a map value, which later mutations of the
        graph cannot reach. */
    function ToDict(): (d: map<N, set<N>>)
      reads this
      requires Valid()
      ensures d.Keys == set n | n in Nodes()
      ensures forall n :: n in d ==> Neighbors(n) == Ok(d[n])
    {
      map n | n in adj :: adj[n]
    }

    /** `UndirectedGraph.from_dict(data)`: a new graph, then add_edge for each
        (node, neighbour) entry of `data`. */
    static method FromDict(data: map<N, set<N>>) returns (g: UndirectedGraph<N>)
      requires forall n :: n in data ==> n !in data[n]
      ensures fresh(g) && g.Valid()
      ensures g.adj == Sym(Arcs(data))
    {
      g := new UndirectedGraph([]);
      SymEmpty<N>();
      var keys := data.Keys;
      while keys != {}
        invariant keys <= data.Keys
        invariant fresh(g) && g.Valid()
        invariant g.adj == Sym(Arcs(Imported(data, keys)))
        decreases keys
      {
        var node :| node in keys;
        ghost var imported := Imported(data, keys);
        ArcsWithEmptyEntry(imported, node);
        var todo := data[node];
        assert data[node] - todo == {};
        while todo != {}
          invariant todo <= data[node]
          invariant fresh(g) && g.Valid()
          invariant g.adj == Sym(Arcs(imported[node := data[node] - todo]))
          decreases todo
        {
          var nb :| nb in todo;
          SymArcsWithNeighbour(imported, node, data[node] - todo, nb);
          g.AddEdge(node, nb);
          NeighbourImported(data[node], todo, nb);
          todo := todo - {nb};
        }
        assert data[node] - todo == data[node];
        ImportedKey(data, keys, node);
        keys := keys - {node};
      }
      ImportedAll(data);
    }
  }

  /** Changing a graph after copying it leaves the copy as it was: the copy's
      neighbour sets are its own. */
  method CopyThenAddEdge<N(==)>(g: UndirectedGraph<N>, u: N, v: N) returns (c: UndirectedGraph<N>)
    requires g.Valid() && u != v
    modifies g
    ensures fresh(c) && c.Valid() && g.Valid()
    ensures c.adj == old(g.adj) && c.order == old(g.order)
    ensures g.adj == Adjacency.AddEdge(old(g.adj), u, v)
  {
    c := g.Copy();
    g.AddEdge(u, v);
  }

  /** `UndirectedGraph.from_dict(g.to_dict())` keeps every edge of `g` and loses its
      isolated nodes. */
  method ExportImport<N(==)>(g: UndirectedGraph<N>) returns (h: UndirectedGraph<N>)
    requires g.Valid()
    ensures fresh(h) && h.Valid()
    ensures h.adj == NonIsolated(g.adj)
  {
    var d := g.ToDict();
    assert d == g.adj;
    h := UndirectedGraph.FromDict(d);
    RoundTrip(g.adj);
  }

  /** The states the worked example below goes through. */
  lemma ExampleFirstEdge()
    ensures Adjacency.AddEdge(map[], 1, 2) == map[1 := {2}, 2 := {1}]
    ensures Append(Append([], 1), 2) == [1, 2]
  {
    var m := Adjacency.AddEdge(map[], 1, 2);
    assert m.Keys == {1, 2} && m[1] == {2} && m[2] == {1};
  }

  lemma ExampleSecondEdge()
    ensures Adjacency.AddEdge(map[1 := {2}, 2 := {1}], 2, 3) == map[1 := {2}, 2 := {1, 3}, 3 := {2}]
    ensures Append(Append([1, 2], 2), 3) == [1, 2, 3]
  {
    var m := Adjacency.AddEdge(map[1 := {2}, 2 := {1}], 2, 3);
    assert m.Keys == {1, 2, 3} && m[1] == {2} && m[2] == {1, 3} && m[3] == {2};
  }

  lemma ExampleRemoval()
    ensures Adjacency.RemoveNode(map[1 := {2}, 2 := {1, 3}, 3 := {2}], 2) == map[1 := {}, 3 := {}]
    ensures Without([1, 2, 3], 2) == [1, 3]
    ensures DegreeSum(map[1 := {}, 3 := {}], [1, 3]) == 0
  {
    var m := Adjacency.RemoveNode(map[1 := {2}, 2 := {1, 3}, 3 := {2}], 2);
    assert m.Keys == {1, 3} && m[1] == {} && m[3] == {};
    assert [1, 2, 3][1..] == [2, 3] && [2, 3][1..] == [3] && [3][1..] == [];
    assert [1, 3][1..] == [3];
  }

  /** The graph of the worked example below: edges 1-2 and 2-3. */
  method ExampleGraph() returns (g: UndirectedGraph<int>)
    ensures fresh(g) && g.Valid()
    ensures g.adj == map[1 := {2}, 2 := {1, 3}, 3 := {2}] && g.order == [1, 2, 3]
  {
    g := new UndirectedGraph<int>([]);
    assert g.adj == map[] && g.order == [];
    ExampleFirstEdge();
    g.AddEdge(1, 2);
    ExampleSecondEdge();
    g.AddEdge(2, 3);
  }

  /** The worked example of the class documentation. */
  method DocExample() returns (nodes: seq<int>, around2: Result<set<int>>, degree2: Result<nat>,
                               has2: bool, left: seq<(int, int)>)
    ensures nodes == [1, 2, 3]
    ensures around2 == Ok({1, 3}) && degree2 == Ok(2) && has2
    ensures left == []
  {
    var g := ExampleGraph();
    nodes := g.Nodes();
    around2 := g.Neighbors(2);
    degree2 := g.Degree(2);
    has2 := g.Contains(2);
    ExampleRemoval();
    var _ := g.RemoveNode(2);
    assert g.adj == map[1 := {}, 3 := {}] && g.order == [1, 3];
    left := g.Edges();
  }
}
