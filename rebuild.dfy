/**
 Building a graph from pairs: the constructor, which adds a sequence of edges, and
 from_dict, which adds an edge per (node, neighbour) entry of a mapping. Both end
 in `Sym(A)`: the graph whose edges are the pairs of `A`, taken in either
 direction, and whose nodes are their endpoints.
 */
module Rebuild {
  import opened Adjacency
  import opened Counting
  import opened Order

  /** The endpoints of the pairs of `A`. */
  ghost function Ends<N>(A: set<(N, N)>): set<N> {
    (set a | a in A :: a.0) + (set a | a in A :: a.1)
  }

  /** The nodes paired with `x` in `A`, in either position. */
  ghost function Around<N>(A: set<(N, N)>, x: N): set<N> {
    (set a | a in A && a.0 == x :: a.1) + (set a | a in A && a.1 == x :: a.0)
  }

  ghost function Sym<N>(A: set<(N, N)>): Adj<N> {
    map x | x in Ends(A) :: Around(A, x)
  }

  /** add_edge applied to each pair in turn. */
  function AddEdges<N(==)>(m: Adj<N>, ps: seq<(N, N)>): (r: Adj<N>)
    ensures forall x, y :: x in m && y in m[x] ==> x in r && y in r[x]
    ensures forall p :: p in ps ==> p.0 in r && p.1 in r && p.1 in r[p.0] && p.0 in r[p.1]
    decreases |ps|
  {
    if ps == [] then m else AddEdges(AddEdge(m, ps[0].0, ps[0].1), ps[1..])
  }

  /** The key order add_edge leaves when applied to each pair in turn. */
  function AddEdgesOrder<N(==)>(s: seq<N>, ps: seq<(N, N)>): (r: seq<N>)
    ensures |s| <= |r| && r[..|s|] == s
    ensures forall p :: p in ps ==> p.0 in r && p.1 in r
    ensures forall x :: x in r ==> x in s || exists p :: p in ps && (x == p.0 || x == p.1)
    ensures Distinct(s) ==> Distinct(r)
    decreases |ps|
  {
    if ps == [] then s else AddEdgesOrder(Append(Append(s, ps[0].0), ps[0].1), ps[1..])
  }

  /** The entries of `data` whose keys are no longer in `keys`. */
  ghost function Imported<N>(data: Adj<N>, keys: set<N>): Adj<N> {
    map k | k in data && k !in keys :: data[k]
  }

  /** The graph without its isolated nodes. */
  ghost function NonIsolated<N>(m: Adj<N>): Adj<N> {
    map k | k in m && m[k] != {} :: m[k]
  }

  lemma SymMember<N>(A: set<(N, N)>, x: N, y: N)
    ensures x in Sym(A) && y in Sym(A)[x] <==> (x, y) in A || (y, x) in A
  {
    if (x, y) in A {
      assert (x, y).0 == x;
      assert x in Ends(A) && y in Around(A, x);
    }
    if (y, x) in A {
      assert (y, x).1 == x;
      assert x in Ends(A) && y in Around(A, x);
    }
  }

  /** `Sym(A)` has no self-loop when `A` pairs no node with itself, and it is
      always symmetric. */
  lemma SymValid<N>(A: set<(N, N)>)
    requires forall a :: a in A ==> a.0 != a.1
    ensures Valid(Sym(A))
  {
    var g := Sym(A);
    forall u, v | u in g && v in g[u]
      ensures v in g && u in g[v]
    {
      SymMember(A, u, v);
      SymMember(A, v, u);
    }
    forall u | u in g
      ensures u !in g[u]
    {
      SymMember(A, u, u);
    }
  }

  /** The nodes of `Sym(A)` with the edge u-v added are those of `Sym` of `A` with
      the pair (u, v). */
  lemma SymAddEdgeKeys<N>(A: set<(N, N)>, u: N, v: N, x: N)
    ensures x in AddEdge(Sym(A), u, v) <==> x in Sym(A + {(u, v)})
  {
    if x in Sym(A) {
      if a :| a in A && a.0 == x {
        SymMember(A, x, a.1);
        SymMember(A + {(u, v)}, x, a.1);
      } else {
        var a :| a in A && a.1 == x;
        SymMember(A, x, a.0);
        SymMember(A + {(u, v)}, x, a.0);
      }
    }
    if x in Sym(A + {(u, v)}) && x != u && x != v {
      if a :| a in A + {(u, v)} && a.0 == x {
        SymMember(A + {(u, v)}, x, a.1);
        SymMember(A, x, a.1);
      } else {
        var a :| a in A + {(u, v)} && a.1 == x;
        SymMember(A + {(u, v)}, x, a.0);
        SymMember(A, x, a.0);
      }
    }
    SymMember(A + {(u, v)}, u, v);
  }

  /** Adding the edge u-v to `Sym(A)` gives `Sym` of `A` with the pair (u, v). */
  lemma SymAddEdge<N>(A: set<(N, N)>, u: N, v: N)
    ensures AddEdge(Sym(A), u, v) == Sym(A + {(u, v)})
  {
    var l := AddEdge(Sym(A), u, v);
    var r := Sym(A + {(u, v)});
    forall x
      ensures x in l <==> x in r
    {
      SymAddEdgeKeys(A, u, v, x);
    }
    forall x | x in l
      ensures l[x] == r[x]
    {
      forall y
        ensures y in l[x] <==> y in r[x]
      {
        SymMember(A, x, y);
        SymMember(A + {(u, v)}, x, y);
      }
    }
  }

  /** One add_edge of from_dict: the neighbour y of x joins the imported part. */
  lemma SymArcsWithNeighbour<N>(t: Adj<N>, x: N, done: set<N>, y: N)
    ensures AddEdge(Sym(Arcs(t[x := done])), x, y) == Sym(Arcs(t[x := done + {y}]))
  {
    ArcsWithNeighbour(t[x := done], x, y);
    assert t[x := done][x := done + {y}] == t[x := done + {y}];
    SymAddEdge(Arcs(t[x := done]), x, y);
  }

  lemma ImportedKey<N>(data: Adj<N>, keys: set<N>, x: N)
    requires x in keys && x in data
    ensures Imported(data, keys)[x := data[x]] == Imported(data, keys - {x})
  {
  }

  lemma ImportedAll<N>(data: Adj<N>)
    ensures Imported(data, {}) == data
  {
  }

  /** Moving `y` out of the neighbours still to import. */
  lemma NeighbourImported<N>(all: set<N>, todo: set<N>, y: N)
    requires todo <= all && y in todo
    ensures all - (todo - {y}) == (all - todo) + {y}
  {
  }

  lemma SymEmpty<N>()
    ensures Sym<N>({}) == map[]
  {
  }

  /** Adding the pairs of `ps` one by one to `Sym(A)` gives `Sym` of all pairs, so
      the order of the pairs and their repetitions do not matter. */
  lemma {:induction false} AddEdgesSym<N>(A: set<(N, N)>, ps: seq<(N, N)>)
    ensures AddEdges(Sym(A), ps) == Sym(A + set p | p in ps)
    decreases |ps|
  {
    if ps == [] {
      assert A + (set p | p in ps) == A;
    } else {
      var p0 := ps[0];
      var B := A + {p0};
      assert (p0.0, p0.1) == p0;
      assert B + (set p | p in ps[1..]) == A + set p | p in ps;
      calc {
        AddEdges(Sym(A), ps);
        AddEdges(AddEdge(Sym(A), p0.0, p0.1), ps[1..]);
        { SymAddEdge(A, p0.0, p0.1); }
        AddEdges(Sym(B), ps[1..]);
        { AddEdgesSym(B, ps[1..]); }
        Sym(B + set p | p in ps[1..]);
      }
    }
  }

  /** The constructor's dict, for any pairs: the given pairs as edges, their
      endpoints as nodes. */
  lemma AddEdgesFromEmpty<N>(ps: seq<(N, N)>)
    ensures AddEdges(map[], ps) == Sym(set p | p in ps)
    ensures forall x, y :: (x, y) in ps ==> y in AddEdges(map[], ps)[x] && x in AddEdges(map[], ps)[y]
  {
    SymEmpty<N>();
    AddEdgesSym({}, ps);
    assert {} + (set p | p in ps) == set p | p in ps;
    forall x, y | (x, y) in ps
      ensures y in AddEdges(map[], ps)[x] && x in AddEdges(map[], ps)[y]
    {
      SymMember((set p | p in ps), x, y);
      SymMember((set p | p in ps), y, x);
    }
  }

  /** The constructor's graph, when no pair joins a node to itself, is also valid. */
  lemma BuildFromPairs<N>(ps: seq<(N, N)>)
    requires forall i :: 0 <= i < |ps| ==> ps[i].0 != ps[i].1
    ensures AddEdges(map[], ps) == Sym(set p | p in ps)
    ensures Valid(AddEdges(map[], ps))
    ensures forall x, y :: (x, y) in ps ==> y in AddEdges(map[], ps)[x] && x in AddEdges(map[], ps)[y]
  {
    AddEdgesFromEmpty(ps);
    SymValid(set p | p in ps);
  }

  /** Exporting a valid graph's arcs and rebuilding from them loses exactly the
      isolated nodes: every edge comes back and nothing else is added. */
  lemma RoundTrip<N>(m: Adj<N>)
    requires Valid(m)
    ensures Sym(Arcs(m)) == NonIsolated(m)
  {
    var r := Sym(Arcs(m));
    var n := NonIsolated(m);
    forall x
      ensures x in r <==> x in n
    {
      if x in r {
        if a :| a in Arcs(m) && a.0 == x {
          ArcsMember(m, a.0, a.1);
        } else {
          var a :| a in Arcs(m) && a.1 == x;
          ArcsMember(m, a.0, a.1);
        }
      }
      if x in n {
        var y :| y in m[x];
        ArcsMember(m, x, y);
        SymMember(Arcs(m), x, y);
      }
    }
    forall x | x in r
      ensures r[x] == n[x]
    {
      forall y
        ensures y in r[x] <==> y in n[x]
      {
        SymMember(Arcs(m), x, y);
        ArcsMember(m, x, y);
        ArcsMember(m, y, x);
      }
    }
  }

  /** Re-importing an export of a re-imported graph changes nothing. */
  lemma RoundTripStable<N>(m: Adj<N>)
    requires Valid(m)
    ensures Valid(Sym(Arcs(m)))
    ensures Sym(Arcs(Sym(Arcs(m)))) == Sym(Arcs(m))
  {
    RoundTrip(m);
    var n := NonIsolated(m);
    assert Valid(n);
    RoundTrip(n);
    assert NonIsolated(n) == n;
  }
}
