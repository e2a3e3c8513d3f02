/**
 The order in which a Python dict yields its keys: insertion order, each key once.
 The graph keeps it as a sequence beside the adjacency map.
 */
module Order {

  /** No element occurs twice. */
  predicate Distinct<T(==)>(s: seq<T>) {
    forall i, j :: 0 <= i < j < |s| ==> s[i] != s[j]
  }

  /** `s` with `x` added at the end unless already there (what storing a new key
      does to the key order of a dict). */
  function Append<T(==)>(s: seq<T>, x: T): (r: seq<T>)
    ensures x in s ==> r == s
    ensures x !in s ==> r == s + [x]
    ensures x in r
    ensures forall y :: y in s ==> y in r
    ensures forall y :: y in r ==> y in s || y == x
    ensures Distinct(s) ==> Distinct(r)
    ensures |r| <= |s| + 1
  {
    if x in s then s else s + [x]
  }

  /** `s` with every occurrence of `x` deleted, the other elements kept in order
      (what `del d[x]` does to the key order of a dict). */
  function Without<T(==)>(s: seq<T>, x: T): (r: seq<T>)
    ensures forall y :: y in r ==> y in s && y != x
    ensures forall y :: y in s && y != x ==> y in r
    ensures Distinct(s) ==> Distinct(r)
    ensures Distinct(s) && x in s ==> |r| == |s| - 1
    ensures x !in s ==> r == s
  {
    if s == [] then []
    else if s[0] == x then Without(s[1..], x)
    else
      var rest := Without(s[1..], x);
      assert Distinct(s) ==> s[0] !in rest;
      [s[0]] + rest
  }

  /** Deleting a key that occurs once, at position `k`, closes the gap and keeps
      every other key where it was relative to the rest. */
  lemma {:induction false} WithoutAt<T>(s: seq<T>, x: T, k: nat)
    requires Distinct(s) && k < |s| && s[k] == x
    ensures Without(s, x) == s[..k] + s[k + 1..]
  {
    if k == 0 {
      assert s[1..] == s[k + 1..];
    } else {
      var t := s[1..];
      assert s[0] == s[..k][0];
      assert Distinct(t) && t[k - 1] == x;
      WithoutAt(t, x, k - 1);
      calc {
        Without(s, x);
        [s[0]] + Without(t, x);
        [s[0]] + (t[..k - 1] + t[k..]);
        { assert t[..k - 1] == s[1..k] && t[k..] == s[k + 1..]; }
        [s[0]] + (s[1..k] + s[k + 1..]);
        { assert [s[0]] + s[1..k] == s[..k]; }
        s[..k] + s[k + 1..];
      }
    }
  }

  /** A sequence without repetitions has as many elements as the set of its elements. */
  lemma {:induction false} DistinctCard<T>(s: seq<T>)
    requires Distinct(s)
    ensures |set x | x in s| == |s|
  {
    if s != [] {
      DistinctCard(s[1..]);
      assert (set x | x in s) == {s[0]} + (set x | x in s[1..]);
      assert s[0] !in s[1..];
    }
  }
}
