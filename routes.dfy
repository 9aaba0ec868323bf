/**
  Routes: sequences of city indices, and what it means for a route to visit
  every one of n cities exactly once.
 */
module Routes {

  /** The route 0, 1, ..., n-1, which the program collects before shuffling. */
  function Identity(n: nat): seq<nat>
  {
    seq(n, i => i)
  }

  /** The route visits each of the cities 0..n-1 exactly once and nothing else. */
  ghost predicate IsPermutation(route: seq<nat>, n: nat)
  {
    multiset(route) == multiset(Identity(n))
  }

  /** Every entry of the route indexes a list of n cities. */
  predicate InRange(route: seq<nat>, n: nat)
  {
    forall i | 0 <= i < |route| :: route[i] < n
  }

  /** No city occurs twice in the route. */
  predicate Distinct(route: seq<nat>)
  {
    forall i, j | 0 <= i < j < |route| :: route[i] != route[j]
  }

  lemma {:induction false} IdentityCount(n: nat, x: nat)
    ensures multiset(Identity(n))[x] == if x < n then 1 else 0
  {
    if n == 0 {
      assert Identity(n) == [];
    } else {
      IdentityCount(n - 1, x);
      assert Identity(n) == Identity(n - 1) + [n - 1];
    }
  }

  /** A permutation of 0..n-1 has length n and only indices below n. */
  lemma PermutationBounds(route: seq<nat>, n: nat)
    requires IsPermutation(route, n)
    ensures |route| == n && InRange(route, n)
  {
    assert |multiset(Identity(n))| == |Identity(n)| == n;
    forall i | 0 <= i < |route|
      ensures route[i] < n
    {
      assert route[i] in multiset(route);
      IdentityCount(n, route[i]);
    }
  }

  /** Each city below n occurs exactly once in a permutation of 0..n-1. */
  lemma PermutationCount(route: seq<nat>, n: nat, x: nat)
    requires IsPermutation(route, n)
    ensures multiset(route)[x] == if x < n then 1 else 0
  {
    IdentityCount(n, x);
  }

  /** Any stretch route[start..end] of a permutation holds each of its cities
      once, and only cities below n. */
  lemma SegmentCount(route: seq<nat>, n: nat, start: nat, end: nat, x: nat)
    requires IsPermutation(route, n) && start <= end <= |route|
    ensures multiset(route[start..end])[x] == if x in route[start..end] then 1 else 0
    ensures x in route[start..end] ==> x < n
  {
    assert route == route[..start] + route[start..end] + route[end..];
    PermutationCount(route, n, x);
  }

  /** A city found at two positions occurs at least twice. */
  lemma DuplicateCount(route: seq<nat>, i: nat, j: nat)
    requires i < j < |route|
    ensures route[i] == route[j] ==> multiset(route)[route[i]] >= 2
  {
    assert route == route[..j] + route[j..];
    assert route[i] == route[..j][i] && route[j] == route[j..][0];
  }

  /** The permutation property read as the specification's invariant on a
      route: length n, no omissions beyond n, no duplicates. */
  lemma PermutationIsDistinct(route: seq<nat>, n: nat)
    requires IsPermutation(route, n)
    ensures |route| == n && InRange(route, n) && Distinct(route)
  {
    PermutationBounds(route, n);
    forall i, j | 0 <= i < j < |route|
      ensures route[i] != route[j]
    {
      DuplicateCount(route, i, j);
      PermutationCount(route, n, route[i]);
    }
  }

  /** In a route without duplicates every city occurs at most once. */
  lemma {:induction false} DistinctCount(route: seq<nat>, x: nat)
    requires Distinct(route)
    ensures multiset(route)[x] <= 1
  {
    if route != [] {
      var k := |route| - 1;
      assert route == route[..k] + [route[k]];
      DistinctCount(route[..k], x);
      if x == route[k] {
        assert x !in route[..k];
      }
    }
  }

  /** Conversely, n distinct cities below n make a permutation of 0..n-1:
      nothing can be omitted. */
  lemma DistinctIsPermutation(route: seq<nat>, n: nat)
    requires |route| == n && InRange(route, n) && Distinct(route)
    ensures IsPermutation(route, n)
  {
    var a, b := multiset(route), multiset(Identity(n));
    forall x: nat
      ensures a[x] <= b[x]
    {
      IdentityCount(n, x);
      DistinctCount(route, x);
      if x >= n {
        assert x !in route;
      }
    }
    assert b == a + (b - a);
    assert |b| == n == |a|;
    assert |b - a| == 0;
  }

  /** The route with the cities at positions i and j exchanged (Vec::swap). */
  function Swapped(route: seq<nat>, i: nat, j: nat): (r: seq<nat>)
    requires i < |route| && j < |route|
    ensures |r| == |route| && r[i] == route[j] && r[j] == route[i]
    ensures forall k | 0 <= k < |route| && k != i && k != j :: r[k] == route[k]
  {
    route[i := route[j]][j := route[i]]
  }

  /** Exchanging two positions keeps the cities of the route. */
  lemma SwappedKeepsCities(route: seq<nat>, i: nat, j: nat)
    requires i < |route| && j < |route|
    ensures multiset(Swapped(route, i, j)) == multiset(route)
  {
    if i != j {
      assert multiset(Swapped(route, i, j)) == multiset(route[i := route[j]][j := route[i]]);
    }
  }

  /** Exchanging two positions keeps a permutation a permutation. */
  lemma SwappedIsPermutation(route: seq<nat>, n: nat, i: nat, j: nat)
    requires IsPermutation(route, n) && i < |route| && j < |route|
    ensures IsPermutation(Swapped(route, i, j), n)
  {
    SwappedKeepsCities(route, i, j);
  }

  /** Exchanging a position with itself changes nothing. */
  lemma SwappedSelf(route: seq<nat>, i: nat)
    requires i < |route|
    ensures Swapped(route, i, i) == route
  {
  }
}
