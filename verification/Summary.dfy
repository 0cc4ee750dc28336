/** The transitive closure of a package (dev/depgraph/summary.go, summaryTraverse). */
module Summary {
  import opened Graph

  function AllTargets(rel: Relation): set<Package> {
    set k, v | k in rel && v in rel[k] :: v
  }

  lemma ReachOneMore(rel: Relation, x: Package, y: Package, z: Package)
    requires Reaches(rel, x, y) && z in Row(rel, y)
    ensures Reaches(rel, x, z)
  {
    var p :| PathFromTo(rel, p, x, y) && |p| > 1;
    PathAppend(rel, p, x, y, z);
  }

  /** The keys are exactly the packages reached by a non-empty path, and a key is marked direct
      exactly when it is a neighbour.  Each round finds some package one edge beyond the map, in
      whatever order the map is walked, and starts over. */
  method SummaryTraverse(pkg: Package, relation: Relation) returns (m: map<Package, bool>)
    ensures forall y :: y in m <==> Reaches(relation, pkg, y)
    ensures forall y :: y in m ==> (m[y] <==> y in Row(relation, pkg))
  {
    m := map[];
    var direct := Row(relation, pkg);
    for i := 0 to |direct|
      invariant forall y :: y in m <==> y in direct[..i]
      invariant forall y :: y in m ==> m[y]
    {
      m := m[direct[i] := true];
    }
    forall y | y in m ensures Reaches(relation, pkg, y) {
      assert PathFromTo(relation, [pkg, y], pkg, y);
    }
    while exists k, v :: k in m && v in Row(relation, k) && v !in m
      invariant forall y :: y in direct ==> y in m
      invariant forall y :: y in m ==> Reaches(relation, pkg, y)
      invariant forall y :: y in m ==> (m[y] <==> y in direct)
      decreases AllTargets(relation) - m.Keys
    {
      var k, v :| k in m && v in Row(relation, k) && v !in m;
      ReachOneMore(relation, pkg, k, v);
      assert v in AllTargets(relation);
      ghost var left := AllTargets(relation) - m.Keys;
      m := m[v := false];
      assert AllTargets(relation) - m.Keys == left - {v};
    }
    forall y | Reaches(relation, pkg, y) ensures y in m {
      var p :| PathFromTo(relation, p, pkg, y) && |p| > 1;
      ClosedHoldsReached(relation, pkg, m.Keys, p);
    }
  }
}
