/** Paths and distances in a package graph given by adjacency lists. */
module Graph {
  type Package = string

  type Relation = map<Package, seq<Package>>

  // A package without an entry has no edges.
  function Row(rel: Relation, x: Package): seq<Package> {
    if x in rel then rel[x] else []
  }

  predicate IsPath(rel: Relation, p: seq<Package>) {
    p != [] && forall i :: 0 <= i < |p| - 1 ==> p[i + 1] in Row(rel, p[i])
  }

  predicate PathFromTo(rel: Relation, p: seq<Package>, x: Package, y: Package) {
    IsPath(rel, p) && p[0] == x && p[|p| - 1] == y
  }

  // y is at distance at most n from x.
  ghost predicate Within(rel: Relation, x: Package, y: Package, n: nat) {
    exists p :: PathFromTo(rel, p, x, y) && |p| - 1 <= n
  }

  // y is reached from x by a path with at least one edge.
  ghost predicate Reaches(rel: Relation, x: Package, y: Package) {
    exists p :: PathFromTo(rel, p, x, y) && |p| > 1
  }

  lemma PathAppend(rel: Relation, p: seq<Package>, x: Package, y: Package, z: Package)
    requires PathFromTo(rel, p, x, y) && z in Row(rel, y)
    ensures PathFromTo(rel, p + [z], x, z)
  {
    var q := p + [z];
    forall i | 0 <= i < |q| - 1 ensures q[i + 1] in Row(rel, q[i]) {
      if i < |p| - 1 {
        assert q[i] == p[i] && q[i + 1] == p[i + 1];
      }
    }
  }

  lemma PathInit(rel: Relation, p: seq<Package>)
    requires IsPath(rel, p) && |p| > 1
    ensures PathFromTo(rel, p[..|p| - 1], p[0], p[|p| - 2]) && p[|p| - 1] in Row(rel, p[|p| - 2])
  {
    assert p[|p| - 2 + 1] in Row(rel, p[|p| - 2]);
  }

  lemma WithinZero(rel: Relation, x: Package, y: Package)
    ensures Within(rel, x, y, 0) <==> x == y
  {
    assert PathFromTo(rel, [x], x, x);
  }

  /** One more edge: distance at most n + 1 is distance at most n, or one edge from there. */
  lemma WithinStep(rel: Relation, x: Package, y: Package, n: nat)
    ensures Within(rel, x, y, n + 1) <==>
            Within(rel, x, y, n) || exists z :: Within(rel, x, z, n) && y in Row(rel, z)
  {
    if p :| PathFromTo(rel, p, x, y) && |p| - 1 <= n + 1 {
      if |p| == n + 2 {
        PathInit(rel, p);
        assert Within(rel, x, p[|p| - 2], n);
      }
    }
    if z :| Within(rel, x, z, n) && y in Row(rel, z) {
      var p :| PathFromTo(rel, p, x, z) && |p| - 1 <= n;
      PathAppend(rel, p, x, z, y);
    }
  }

  // The packages within n of x have no edges leading out of them.
  ghost predicate ClosedAt(rel: Relation, x: Package, n: nat) {
    forall z, y :: Within(rel, x, z, n) && y in Row(rel, z) ==> Within(rel, x, y, n)
  }

  lemma {:induction false} ClosedIsFixed(rel: Relation, x: Package, n: nat, m: nat, y: Package)
    requires ClosedAt(rel, x, n) && n <= m
    ensures Within(rel, x, y, m) <==> Within(rel, x, y, n)
    decreases m
  {
    if m > n {
      WithinStep(rel, x, y, m - 1);
      ClosedIsFixed(rel, x, n, m - 1, y);
      forall z ensures Within(rel, x, z, m - 1) <==> Within(rel, x, z, n) {
        ClosedIsFixed(rel, x, n, m - 1, z);
      }
    }
  }

  // A set that holds x's neighbours and is closed under edges holds all x reaches.
  lemma {:induction false} ClosedHoldsReached(rel: Relation, x: Package, s: set<Package>, p: seq<Package>)
    requires IsPath(rel, p) && |p| > 1 && p[0] == x
    requires (forall y :: y in Row(rel, x) ==> y in s) && (forall z, y :: z in s && y in Row(rel, z) ==> y in s)
    ensures p[|p| - 1] in s
    decreases |p|
  {
    PathInit(rel, p);
    if |p| > 2 {
      ClosedHoldsReached(rel, x, s, p[..|p| - 1]);
    }
  }
}
