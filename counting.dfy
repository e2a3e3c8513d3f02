/**
 Counting edges. An undirected edge u-v is stored twice, as the arc (u, v) in the
 neighbour set of u and as the arc (v, u) in that of v; the degree sum counts arcs.
 */
module Counting {
  import opened Adjacency
  import opened Order

  /** Every ordered pair (u, v) with v a neighbour of u. */
  ghost function Arcs<N>(m: Adj<N>): set<(N, N)> {
    set u, v | u in m && v in m[u] :: (u, v)
  }

  function Reverse<N>(a: (N, N)): (N, N) {
    (a.1, a.0)
  }

  ghost function Reversed<N>(s: set<(N, N)>): set<(N, N)> {
    set a | a in s :: Reverse(a)
  }

  /** The arcs leaving `u` towards the nodes of `vs`. */
  ghost function Star<N>(u: N, vs: set<N>): set<(N, N)> {
    set v | v in vs :: (u, v)
  }

  /** The sum of the degrees of the nodes in `ks`. */
  function DegreeSum<N(==)>(m: Adj<N>, ks: seq<N>): nat
    requires forall k :: k in ks ==> k in m
  {
    if ks == [] then 0 else |m[ks[0]]| + DegreeSum(m, ks[1..])
  }

  lemma ArcsMember<N>(m: Adj<N>, x: N, y: N)
    ensures (x, y) in Arcs(m) <==> x in m && y in m[x]
  {
    if x in m && y in m[x] {
      assert (x, y) in Arcs(m);
    }
  }

  lemma {:induction false} ReversedCard<N>(s: set<(N, N)>)
    ensures |Reversed(s)| == |s|
  {
    if s != {} {
      var a :| a in s;
      ReversedCard(s - {a});
      assert Reversed(s) == Reversed(s - {a}) + {Reverse(a)};
    }
  }

  lemma {:induction false} StarCard<N>(u: N, vs: set<N>)
    ensures |Star(u, vs)| == |vs|
  {
    if vs != {} {
      var v :| v in vs;
      StarCard(u, vs - {v});
      assert Star(u, vs) == Star(u, vs - {v}) + {(u, v)};
    }
  }

  /** The arcs leaving the nodes of `ks` number the sum of their degrees. */
  lemma {:induction false} ArcsFromCard<N>(m: Adj<N>, ks: seq<N>)
    requires Distinct(ks)
    requires forall k :: k in ks ==> k in m
    ensures |set u, v | u in ks && v in m[u] :: (u, v)| == DegreeSum(m, ks)
  {
    if ks != [] {
      var k := ks[0];
      var rest := set u, v | u in ks[1..] && v in m[u] :: (u, v);
      ArcsFromCard(m, ks[1..]);
      StarCard(k, m[k]);
      assert k !in ks[1..];
      assert (set u, v | u in ks && v in m[u] :: (u, v)) == Star(k, m[k]) + rest;
      assert Star(k, m[k]) !! rest;
    }
  }

  /** Handshake: the arcs of a graph number the sum of the degrees of its nodes. */
  lemma Handshake<N>(m: Adj<N>, ks: seq<N>)
    requires Distinct(ks)
    requires forall k :: k in ks <==> k in m
    ensures |Arcs(m)| == DegreeSum(m, ks)
  {
    ArcsFromCard(m, ks);
    assert (set u, v | u in ks && v in m[u] :: (u, v)) == Arcs(m);
  }

  /** A set holding one arc of each edge of a symmetric graph, never both, holds
      half of its arcs. */
  lemma HalfArcs<N>(m: Adj<N>, half: set<(N, N)>)
    requires Symmetric(m)
    requires forall a :: a in half ==> a in Arcs(m) && Reverse(a) !in half
    requires forall a :: a in Arcs(m) ==> a in half || Reverse(a) in half
    ensures 2 * |half| == |Arcs(m)|
  {
    ReversedCard(half);
    forall a | a in Reversed(half)
      ensures a in Arcs(m)
    {
      var b :| b in half && a == Reverse(b);
      ArcsMember(m, b.0, b.1);
      ArcsMember(m, a.0, a.1);
    }
    forall a | a in Arcs(m)
      ensures a in half + Reversed(half)
    {
      if a !in half {
        assert a == Reverse(Reverse(a));
      }
    }
    assert Arcs(m) == half + Reversed(half);
    assert half !! Reversed(half);
  }

  /** `seen` holds exactly one arc of each edge among the arcs `visited` so far. */
  ghost predicate OneArcEach<N>(seen: set<(N, N)>, visited: set<(N, N)>) {
    && (forall a :: a in seen ==> a in visited && Reverse(a) !in seen)
    && (forall a :: a in visited ==> a in seen || Reverse(a) in seen)
  }

  /** `es` lists the elements of `seen`, each once. */
  ghost predicate Lists<N>(es: seq<(N, N)>, seen: set<(N, N)>) {
    && (forall a :: a in seen ==> a in es)
    && (forall i :: 0 <= i < |es| ==> es[i] in seen)
    && |seen| == |es|
    && Distinct(es)
  }

  /** Visiting an arc whose reverse has not been yielded yields it. */
  lemma YieldArc<N>(es: seq<(N, N)>, seen: set<(N, N)>, visited: set<(N, N)>, a: (N, N))
    requires Lists(es, seen) && OneArcEach(seen, visited)
    requires a !in visited && Reverse(a) !in seen && a.0 != a.1
    ensures Lists(es + [a], seen + {a})
    ensures OneArcEach(seen + {a}, visited + {a})
  {
    assert a !in seen;
    forall i | 0 <= i < |es|
      ensures es[i] != a
    {
      assert es[i] in seen;
    }
  }

  /** Visiting an arc whose reverse has been yielded yields nothing. */
  lemma SkipArc<N>(seen: set<(N, N)>, visited: set<(N, N)>, a: (N, N))
    requires OneArcEach(seen, visited)
    requires Reverse(a) in seen
    ensures OneArcEach(seen, visited + {a})
  {
  }

  /** Once every arc of a valid graph has been visited, the yielded list holds one
      arc of each edge, never both, and half as many pairs as the degree sum. */
  lemma AllArcsVisited<N>(m: Adj<N>, ks: seq<N>, es: seq<(N, N)>, seen: set<(N, N)>)
    requires Valid(m)
    requires Distinct(ks) && forall k :: k in ks <==> k in m
    requires Lists(es, seen) && OneArcEach(seen, Arcs(m))
    ensures forall i :: 0 <= i < |es| ==> es[i].0 in m && es[i].1 in m[es[i].0]
    ensures forall u, v :: u in m && v in m[u] ==> (u, v) in es || (v, u) in es
    ensures forall i, j :: 0 <= i < j < |es| ==> es[i] != es[j] && es[i] != Reverse(es[j])
    ensures 2 * |es| == DegreeSum(m, ks)
  {
    forall i | 0 <= i < |es|
      ensures es[i].0 in m && es[i].1 in m[es[i].0]
    {
      assert es[i] in seen;
      ArcsMember(m, es[i].0, es[i].1);
    }
    forall u, v | u in m && v in m[u]
      ensures (u, v) in es || (v, u) in es
    {
      ArcsMember(m, u, v);
      assert (u, v) in seen || (v, u) in seen;
    }
    forall i, j | 0 <= i < j < |es|
      ensures es[i] != es[j] && es[i] != Reverse(es[j])
    {
      assert es[i] in seen && es[j] in seen;
    }
    HalfArcs(m, seen);
    Handshake(m, ks);
  }

  /** A set holding exactly the arcs (x, y) with y a neighbour of x is the set of arcs. */
  lemma ArcsExactly<N>(m: Adj<N>, arcs: set<(N, N)>)
    requires forall x, y :: (x, y) in arcs ==> x in m && y in m[x]
    requires forall x, y :: x in m && y in m[x] ==> (x, y) in arcs
    ensures arcs == Arcs(m)
  {
    forall a | a in arcs
      ensures a in Arcs(m)
    {
      ArcsMember(m, a.0, a.1);
    }
    forall a | a in Arcs(m)
      ensures a in arcs
    {
      ArcsMember(m, a.0, a.1);
    }
  }

  /** A node with no neighbours contributes no arcs. */
  lemma ArcsWithEmptyEntry<N>(m: Adj<N>, x: N)
    requires x !in m
    ensures Arcs(m[x := {}]) == Arcs(m)
  {
    forall a | a in Arcs(m[x := {}])
      ensures a in Arcs(m)
    {
      ArcsMember(m[x := {}], a.0, a.1);
      ArcsMember(m, a.0, a.1);
    }
  }

  /** Adding y to the neighbours of x adds exactly the arc (x, y). */
  lemma ArcsWithNeighbour<N>(m: Adj<N>, x: N, y: N)
    requires x in m
    ensures Arcs(m[x := m[x] + {y}]) == Arcs(m) + {(x, y)}
  {
    var m' := m[x := m[x] + {y}];
    forall a | a in Arcs(m')
      ensures a in Arcs(m) + {(x, y)}
    {
      ArcsMember(m', a.0, a.1);
      ArcsMember(m, a.0, a.1);
    }
    forall a | a in Arcs(m) + {(x, y)}
      ensures a in Arcs(m')
    {
      ArcsMember(m', a.0, a.1);
      ArcsMember(m, a.0, a.1);
    }
  }
}
