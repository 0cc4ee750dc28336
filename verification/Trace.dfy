/**
  The depth-bounded traversal around a package (dev/depgraph/trace.go).  Adjacency lists are
  arrays, and a slice is an array with a length, because pruning filters slices in place
  and the root's slice is the caller's own.
 */
module Trace {
  import opened Graph
  import opened Names

  type Adjacency = map<Package, array<Package>>

  datatype Slice = Slice(a: array<Package>, n: nat)

  function Elements(relation: Adjacency, x: Package): seq<Package>
    reads set k | k in relation :: relation[k]
  {
    if x in relation then relation[x][..] else []
  }

  // The relation as a value.
  function Contents(relation: Adjacency): Relation
    reads set k | k in relation :: relation[k]
  {
    map k | k in relation :: relation[k][..]
  }

  ghost predicate Mirrors(relation: Adjacency, rel: Relation)
    reads set k | k in relation :: relation[k]
  {
    rel.Keys == relation.Keys && forall k :: k in relation ==> rel[k] == relation[k][..]
  }

  function Filter(s: seq<Package>, keep: set<Package>): (r: seq<Package>)
    ensures |r| <= |s|
  {
    if s == [] then []
    else Filter(s[..|s| - 1], keep) + if s[|s| - 1] in keep then [s[|s| - 1]] else []
  }

  lemma {:induction false} FilterKeepsAll(s: seq<Package>, keep: set<Package>)
    requires forall x :: x in s ==> x in keep
    ensures Filter(s, keep) == s
  {
    if s != [] {
      FilterKeepsAll(s[..|s| - 1], keep);
    }
  }

  // A list whose first n entries were filtered in place: the kept ones in front, the rest as it was.
  function Overwritten(s: seq<Package>, n: nat, keep: set<Package>): seq<Package>
    requires n <= |s|
  {
    var kept := Filter(s[..n], keep);
    kept + s[|kept|..]
  }

  // One more entry looked at.
  lemma OverwriteNext(s: seq<Package>, n: nat, keep: set<Package>)
    requires n < |s|
    ensures var k := |Filter(s[..n], keep)|;
            && k <= n && Overwritten(s, n, keep)[n] == s[n]
            && (s[n] in keep ==> k + 1 == |Filter(s[..n + 1], keep)|)
            && (s[n] in keep ==> Overwritten(s, n + 1, keep) == Overwritten(s, n, keep)[k := s[n]])
            && (s[n] !in keep ==> k == |Filter(s[..n + 1], keep)|)
            && (s[n] !in keep ==> Overwritten(s, n + 1, keep) == Overwritten(s, n, keep))
  {
    assert s[..n + 1][..n] == s[..n];
  }

  method PruneOne(a: array<Package>, n: nat, keep: map<Package, int>) returns (k: nat)
    requires n <= a.Length
    modifies a
    ensures k == |Filter(old(a[..])[..n], keep.Keys)| && a[..] == Overwritten(old(a[..]), n, keep.Keys)
  {
    ghost var s := a[..];
    k := 0;
    for i := 0 to n
      invariant k == |Filter(s[..i], keep.Keys)| && a[..] == Overwritten(s, i, keep.Keys)
    {
      OverwriteNext(s, i, keep.Keys);
      assert a[i] == a[..][i];
      if a[i] in keep {
        a[k] := a[i];
        k := k + 1;
      }
    }
  }

  ghost predicate Fits(edges: map<Package, Slice>)
  {
    (forall k :: k in edges ==> edges[k].n <= edges[k].a.Length) &&
    (forall j, k :: j in edges && k in edges && j != k ==> edges[j].a != edges[k].a)
  }

  // `p` is the slice `e`, which held `row`, after filtering it in place.
  ghost predicate Pruned(e: Slice, p: Slice, row: seq<Package>, keep: set<Package>)
    reads e.a
  {
    && e.n <= |row| && p == Slice(e.a, |Filter(row[..e.n], keep)|)
    && e.a[..] == Overwritten(row, e.n, keep)
  }

  method PruneSlice(e: Slice, vertices: map<Package, int>) returns (p: Slice)
    requires e.n <= e.a.Length
    modifies e.a
    ensures Pruned(e, p, old(e.a[..]), vertices.Keys)
  {
    var k := PruneOne(e.a, e.n, vertices);
    p := Slice(e.a, k);
  }

  method PruneEdges(edges: map<Package, Slice>, vertices: map<Package, int>) returns (pruned: map<Package, Slice>)
    requires Fits(edges)
    modifies set k | k in edges :: edges[k].a
    ensures pruned.Keys == edges.Keys
    ensures forall k :: k in edges ==> Pruned(edges[k], pruned[k], old(edges[k].a[..]), vertices.Keys)
  {
    pruned := edges;
    var todo := edges.Keys;
    while todo != {}
      invariant todo <= edges.Keys && pruned.Keys == edges.Keys
      invariant forall k :: k in todo ==> edges[k].a[..] == old(edges[k].a[..])
      invariant forall k :: k in edges && k !in todo ==>
        Pruned(edges[k], pruned[k], old(edges[k].a[..]), vertices.Keys)
      decreases todo
    {
      var e :| e in todo;
      assert forall k :: k in edges && k != e ==> edges[k].a != edges[e].a;
      var kept := PruneSlice(edges[e], vertices);
      pruned := pruned[e := kept];
      todo := todo - {e};
    }
  }

  /** ---- The breadth-first loop ---- */

  function Elems(s: seq<Package>): set<Package> {
    set y | y in s
  }

  // Found so far: exactly the packages within d of the root.
  ghost predicate Ball(rel: Relation, root: Package, found: set<Package>, d: nat) {
    forall y :: y in found <==> Within(rel, root, y, d)
  }

  // The frontier holds the edges that leave the ball, and nothing beyond them.
  ghost predicate Boundary(rel: Relation, root: Package, found: set<Package>, frontier: seq<Package>, d: nat) {
    && (forall y :: y in frontier ==> Within(rel, root, y, d + 1))
    && (forall z, y :: z in found && y in Row(rel, z) ==> y in found || y in frontier)
  }

  // The next frontier lists the edges of the packages just found.
  ghost predicate LeadsOn(rel: Relation, added: set<Package>, next: seq<Package>) {
    && (forall y :: y in next ==> exists z :: z in added && y in Row(rel, z))
    && (forall z, y :: z in added && y in Row(rel, z) ==> y in next)
  }

  lemma NextBall(rel: Relation, root: Package, found: set<Package>, frontier: seq<Package>, d: nat)
    requires Ball(rel, root, found, d) && Boundary(rel, root, found, frontier, d)
    ensures Ball(rel, root, found + Elems(frontier), d + 1)
  {
    forall y ensures y in found + Elems(frontier) <==> Within(rel, root, y, d + 1) {
      WithinStep(rel, root, y, d);
    }
  }

  lemma NextBoundary(rel: Relation, root: Package, found: set<Package>, frontier: seq<Package>, next: seq<Package>,
                     d: nat)
    requires Ball(rel, root, found, d) && Boundary(rel, root, found, frontier, d)
    requires LeadsOn(rel, Elems(frontier) - found, next)
    ensures Boundary(rel, root, found + Elems(frontier), next, d + 1)
  {
    NextBall(rel, root, found, frontier, d);
    forall y | y in next ensures Within(rel, root, y, d + 2) {
      WithinStep(rel, root, y, d + 1);
    }
  }

  lemma BallIsClosed(rel: Relation, root: Package, found: set<Package>, d: nat)
    requires Ball(rel, root, found, d) && Boundary(rel, root, found, [], d)
    ensures ClosedAt(rel, root, d)
  {
  }

  // With nothing left on the frontier, or at the bound, the ball is the wanted one.
  lemma LastBall(rel: Relation, root: Package, found: set<Package>, frontier: seq<Package>, d: nat, bound: nat)
    requires Ball(rel, root, found, d) && Boundary(rel, root, found, frontier, d) && d <= bound
    requires d == bound || frontier == []
    ensures Ball(rel, root, found, bound)
  {
    if frontier == [] {
      BallIsClosed(rel, root, found, d);
      forall y ensures y in found <==> Within(rel, root, y, bound) {
        ClosedIsFixed(rel, root, d, bound, y);
      }
    }
  }

  lemma FirstBall(rel: Relation, root: Package)
    ensures Ball(rel, root, {root}, 0) && Boundary(rel, root, {root}, Row(rel, root), 0)
  {
    forall y ensures Within(rel, root, y, 0) <==> y == root {
      WithinZero(rel, root, y);
    }
    forall y | y in Row(rel, root) ensures Within(rel, root, y, 1) {
      WithinStep(rel, root, y, 0);
    }
  }

  // Whole slices with the rows of the relation.
  ghost predicate HoldsRows(edges: map<Package, Slice>, rel: Relation)
    reads set k | k in edges :: edges[k].a
  {
    forall k :: k in edges ==> edges[k].n == edges[k].a.Length && edges[k].a[..] == Row(rel, k)
  }

  function Depth(maxDepth: int): nat {
    if maxDepth > 0 then maxDepth else 0
  }

  // A fresh copy of a row: append to a nil slice.
  method CopyRow(relation: Adjacency, pkg: Package) returns (s: Slice)
    ensures fresh(s.a) && s.n == s.a.Length && s.a[..] == Elements(relation, pkg)
  {
    var row := Elements(relation, pkg);
    var copy := new Package[|row|](j requires 0 <= j < |row| => row[j]);
    assert copy[..] == row;
    s := Slice(copy, |row|);
  }

  // One package of the frontier: skipped when it is there already, else added with a copy of its
  // edges, which also join the next frontier.
  method Visit(relation: Adjacency, ghost rel: Relation, pkg: Package, depth: int,
               packages: map<Package, int>, slices: map<Package, Slice>, pending: seq<Package>)
    returns (packageMap: map<Package, int>, edges: map<Package, Slice>, next: seq<Package>)
    requires Mirrors(relation, rel)
    requires slices.Keys == packages.Keys && Fits(slices) && HoldsRows(slices, rel)
    ensures packageMap.Keys == packages.Keys + {pkg} && edges.Keys == packageMap.Keys
    ensures next == if pkg in packages then pending else pending + Row(rel, pkg)
    ensures Fits(edges) && HoldsRows(edges, rel)
    ensures forall k :: k in edges ==> if k in slices then edges[k] == slices[k] else fresh(edges[k].a)
  {
    packageMap, edges, next := packages, slices, pending;
    if pkg !in packageMap {
      next := next + Elements(relation, pkg);
      var copy := CopyRow(relation, pkg);
      packageMap := packageMap[pkg := depth];
      edges := edges[pkg := copy];
    }
  }

  lemma LeadsOnAdd(rel: Relation, done: set<Package>, pkg: Package, found: set<Package>, next: seq<Package>)
    requires LeadsOn(rel, done - found, next)
    ensures pkg in found + done ==> LeadsOn(rel, done + {pkg} - found, next)
    ensures pkg !in found ==> LeadsOn(rel, done + {pkg} - found, next + Row(rel, pkg))
  {
    if pkg in found + done {
      assert done + {pkg} - found == done - found;
    }
    if pkg !in found {
      assert done + {pkg} - found == done - found + {pkg};
    }
  }

  lemma ElemsNext(frontier: seq<Package>, i: nat)
    requires i < |frontier|
    ensures Elems(frontier[..i + 1]) == Elems(frontier[..i]) + {frontier[i]}
  {
    assert frontier[..i + 1] == frontier[..i] + [frontier[i]];
  }

  // One round on values: the packages found, and the edges of those that were not there before.
  function Scan(rel: Relation, found: set<Package>, frontier: seq<Package>): (set<Package>, seq<Package>) {
    if frontier == [] then (found, [])
    else
      var n := |frontier| - 1;
      var (now, next) := Scan(rel, found, frontier[..n]);
      if frontier[n] in now then (now, next) else (now + {frontier[n]}, next + Row(rel, frontier[n]))
  }

  lemma ScanNext(rel: Relation, found: set<Package>, frontier: seq<Package>, i: nat)
    requires i < |frontier|
    ensures var (now, next) := Scan(rel, found, frontier[..i]);
            Scan(rel, found, frontier[..i + 1]) ==
            (now + {frontier[i]}, if frontier[i] in now then next else next + Row(rel, frontier[i]))
  {
    assert frontier[..i + 1][..i] == frontier[..i];
    var now := Scan(rel, found, frontier[..i]).0;
    assert frontier[i] in now ==> now + {frontier[i]} == now;
  }

  lemma {:induction false} ScanFinds(rel: Relation, found: set<Package>, frontier: seq<Package>)
    ensures var (now, next) := Scan(rel, found, frontier);
            now == found + Elems(frontier) && LeadsOn(rel, Elems(frontier) - found, next)
  {
    if frontier != [] {
      var n := |frontier| - 1;
      ScanFinds(rel, found, frontier[..n]);
      ElemsNext(frontier, n);
      assert frontier[..n + 1] == frontier;
      LeadsOnAdd(rel, Elems(frontier[..n]), frontier[n], found, Scan(rel, found, frontier[..n]).1);
    }
  }

  // One round: visit every package of the frontier that is not there yet.
  method ExpandFrontier(relation: Adjacency, ghost rel: Relation, frontier: seq<Package>, depth: int,
                        packages: map<Package, int>, slices: map<Package, Slice>)
    returns (packageMap: map<Package, int>, edges: map<Package, Slice>, next: seq<Package>)
    requires Mirrors(relation, rel)
    requires slices.Keys == packages.Keys && Fits(slices) && HoldsRows(slices, rel)
    ensures (packageMap.Keys, next) == Scan(rel, packages.Keys, frontier) && edges.Keys == packageMap.Keys
    ensures Fits(edges) && HoldsRows(edges, rel)
    ensures forall k :: k in slices ==> k in edges && edges[k] == slices[k]
    ensures forall k :: k in edges && k !in slices ==> fresh(edges[k].a)
  {
    packageMap, edges, next := packages, slices, [];
    for i := 0 to |frontier|
      invariant (packageMap.Keys, next) == Scan(rel, packages.Keys, frontier[..i]) && edges.Keys == packageMap.Keys
      invariant Fits(edges) && HoldsRows(edges, rel)
      invariant forall k :: k in slices ==> k in edges && edges[k] == slices[k]
      invariant forall k :: k in edges && k !in slices ==> fresh(edges[k].a)
    {
      ScanNext(rel, packages.Keys, frontier, i);
      packageMap, edges, next := Visit(relation, rel, frontier[i], depth, packageMap, edges, next);
    }
    assert frontier[..|frontier|] == frontier;
  }

  // The root keeps the caller's own list, when it has one.
  method RootSlice(root: Package, relation: Adjacency, ghost rel: Relation) returns (s: Slice)
    requires Mirrors(relation, rel)
    ensures s.n == s.a.Length && s.a[..] == Row(rel, root)
    ensures if root in relation then s.a == relation[root] else fresh(s.a)
  {
    if root in relation {
      s := Slice(relation[root], relation[root].Length);
    } else {
      s := CopyRow(relation, root);
    }
  }

  // The ball and its boundary after d rounds.
  ghost predicate Explored(rel: Relation, root: Package, found: set<Package>, frontier: seq<Package>, d: nat) {
    Ball(rel, root, found, d) && Boundary(rel, root, found, frontier, d)
  }

  lemma NextRound(rel: Relation, root: Package, found: set<Package>, frontier: seq<Package>, d: nat)
    requires Explored(rel, root, found, frontier, d)
    ensures var (now, next) := Scan(rel, found, frontier); found <= now && Explored(rel, root, now, next, d + 1)
  {
    ScanFinds(rel, found, frontier);
    NextBall(rel, root, found, frontier, d);
    NextBoundary(rel, root, found, frontier, Scan(rel, found, frontier).1, d);
  }

  method Round(ghost root: Package, relation: Adjacency, ghost rel: Relation, frontier: seq<Package>, depth: nat,
               packages: map<Package, int>, slices: map<Package, Slice>)
    returns (packageMap: map<Package, int>, edges: map<Package, Slice>, next: seq<Package>)
    requires Mirrors(relation, rel) && Explored(rel, root, packages.Keys, frontier, depth)
    requires slices.Keys == packages.Keys && Fits(slices) && HoldsRows(slices, rel)
    ensures Explored(rel, root, packageMap.Keys, next, depth + 1)
    ensures edges.Keys == packageMap.Keys && Fits(edges) && HoldsRows(edges, rel)
    ensures forall k :: k in slices ==> k in edges && edges[k] == slices[k]
    ensures forall k :: k in edges && k !in slices ==> fresh(edges[k].a)
  {
    packageMap, edges, next := ExpandFrontier(relation, rel, frontier, depth, packages, slices);
    NextRound(rel, root, packages.Keys, frontier, depth);
  }

  // All rounds from a first set of packages on.
  method Rounds(ghost root: Package, relation: Adjacency, ghost rel: Relation, first: seq<Package>, maxDepth: int,
                packages: map<Package, int>, slices: map<Package, Slice>)
    returns (packageMap: map<Package, int>, edges: map<Package, Slice>)
    requires Mirrors(relation, rel) && Explored(rel, root, packages.Keys, first, 0)
    requires slices.Keys == packages.Keys && Fits(slices) && HoldsRows(slices, rel)
    ensures Ball(rel, root, packageMap.Keys, Depth(maxDepth))
    ensures edges.Keys == packageMap.Keys && Fits(edges) && HoldsRows(edges, rel)
    ensures forall k :: k in slices ==> k in edges && edges[k] == slices[k]
    ensures forall k :: k in edges && k !in slices ==> fresh(edges[k].a)
  {
    packageMap, edges := packages, slices;
    var frontier, depth := first, 0;
    while depth < maxDepth && |frontier| > 0
      invariant 0 <= depth <= Depth(maxDepth) && Explored(rel, root, packageMap.Keys, frontier, depth)
      invariant edges.Keys == packageMap.Keys && Fits(edges) && HoldsRows(edges, rel)
      invariant forall k :: k in slices ==> k in edges && edges[k] == slices[k]
      invariant forall k :: k in edges && k !in slices ==> fresh(edges[k].a)
    {
      packageMap, edges, frontier := Round(root, relation, rel, frontier, depth, packageMap, edges);
      depth := depth + 1;
    }
    LastBall(rel, root, packageMap.Keys, frontier, depth, Depth(maxDepth));
  }

  method Explore(root: Package, relation: Adjacency, ghost rel: Relation, maxDepth: int)
    returns (packageMap: map<Package, int>, edges: map<Package, Slice>)
    requires Mirrors(relation, rel)
    ensures Ball(rel, root, packageMap.Keys, Depth(maxDepth))
    ensures edges.Keys == packageMap.Keys && Fits(edges) && HoldsRows(edges, rel)
    ensures root in edges && if root in relation then edges[root].a == relation[root] else fresh(edges[root].a)
    ensures forall k :: k in edges && k != root ==> fresh(edges[k].a)
  {
    var frontier := Elements(relation, root);
    packageMap := map[root := 0];
    var rootSlice := RootSlice(root, relation, rel);
    edges := map[root := rootSlice];
    FirstBall(rel, root);
    assert packageMap.Keys == {root};
    packageMap, edges := Rounds(root, relation, rel, frontier, maxDepth, packageMap, edges);
  }

  /** ---- The traversal ---- */

  // All edges from the root to itself come before its other edges.
  predicate SelfEdgesFirst(row: seq<Package>, root: Package) {
    forall i, j :: 0 <= i < j < |row| && row[j] == root ==> row[i] == root
  }

  lemma {:induction false} FilterSplit(a: seq<Package>, b: seq<Package>, keep: set<Package>)
    ensures Filter(a + b, keep) == Filter(a, keep) + Filter(b, keep)
    decreases |b|
  {
    if b == [] {
      assert a + b == a;
    } else {
      var n := |b| - 1;
      assert (a + b)[..|a| + n] == a + b[..n] && (a + b)[|a| + n] == b[n];
      FilterSplit(a, b[..n], keep);
    }
  }

  lemma {:induction false} FilterHolds(s: seq<Package>, keep: set<Package>)
    ensures forall x :: x in Filter(s, keep) <==> x in s && x in keep
  {
    if s != [] {
      FilterHolds(s[..|s| - 1], keep);
      assert s == s[..|s| - 1] + [s[|s| - 1]];
    }
  }

  lemma TailHasNoRoot(head: seq<Package>, tail: seq<Package>, root: Package)
    requires Filter(head + tail, {root}) == head
    ensures root !in tail
  {
    FilterHolds(head + tail, {root});
    FilterSplit(head, tail, {root});
    FilterKeepsAll(head, {root});
    FilterHolds(tail, {root});
  }

  lemma UnchangedMeansFirst(row: seq<Package>, root: Package, f: seq<Package>)
    requires f == Filter(row, {root}) && f + row[|f|..] == row
    ensures SelfEdgesFirst(row, root)
  {
    var tail := row[|f|..];
    TailHasNoRoot(f, tail, root);
    FilterHolds(row, {root});
    forall i, j | 0 <= i < j < |row| && row[j] == root ensures row[i] == root {
      if j < |f| {
        assert f[i] in f && row[i] == (f + tail)[i] == f[i];
      }
    }
  }

  lemma {:induction false} FirstMeansUnchanged(row: seq<Package>, root: Package)
    requires SelfEdgesFirst(row, root)
    ensures var f := Filter(row, {root}); f + row[|f|..] == row
  {
    if row != [] {
      var n := |row| - 1;
      var init := row[..n];
      if row[n] == root {
        FilterKeepsAll(row, {root});
      } else {
        FirstMeansUnchanged(init, root);
        var f := Filter(init, {root});
        assert Filter(row, {root}) == f;
        assert row == init + [row[n]] && row[|f|..] == init[|f|..] + [row[n]];
      }
    }
  }

  lemma NeighboursFound(rel: Relation, root: Package, packages: set<Package>, bound: nat)
    requires Ball(rel, root, packages, bound) && bound >= 1
    ensures forall y :: y in Row(rel, root) ==> y in packages
  {
    forall y | y in Row(rel, root) ensures Within(rel, root, y, bound) {
      assert PathFromTo(rel, [root, y], root, y);
    }
  }

  lemma OnlyRoot(rel: Relation, root: Package, packages: set<Package>)
    requires Ball(rel, root, packages, 0)
    ensures packages == {root}
  {
    forall y ensures y in packages <==> y == root {
      WithinZero(rel, root, y);
    }
  }

  /** What filtering the root's row in place leaves: the row itself from depth 1 on; at depth 0
      exactly when the self edges come first. */
  lemma RootRowAfter(rel: Relation, root: Package, packages: set<Package>, maxDepth: int)
    requires Ball(rel, root, packages, Depth(maxDepth))
    ensures var row := Row(rel, root); var after := Overwritten(row, |row|, packages);
            && (maxDepth >= 1 ==> after == row)
            && (maxDepth <= 0 ==> (after == row <==> SelfEdgesFirst(row, root)))
  {
    var row := Row(rel, root);
    assert row[..|row|] == row;
    var kept := Filter(row, packages);
    if maxDepth >= 1 {
      NeighboursFound(rel, root, packages, maxDepth);
      FilterKeepsAll(row, packages);
    } else {
      OnlyRoot(rel, root, packages);
      if kept + row[|kept|..] == row {
        UnchangedMeansFirst(row, root, kept);
      }
      if SelfEdgesFirst(row, root) {
        FirstMeansUnchanged(row, root);
      }
    }
  }

  /** For instance a -> b, a at depth 0: the caller's list becomes a, a. */
  lemma RootRowOverwritten(row: seq<Package>, root: Package)
    requires row == ["b", "a"] && root == "a"
    ensures Ball(map[root := row], root, {root}, 0)
    ensures Overwritten(row, |row|, {root}) == ["a", "a"] && !SelfEdgesFirst(row, root)
  {
    FirstBall(map[root := row], root);
    assert row[..2] == row && row[..1] == ["b"] && row[..1][..0] == [];
    assert Filter(row[..1], {root}) == Filter([], {root}) + [];
    assert Filter(row, {root}) == ["a"];
    assert row[1..] == ["a"] && row[0] != root && row[1] == root;
  }

  // The traversal in terms of the relation as it was.
  method TraceRows(root: Package, relation: Adjacency, ghost rel: Relation, maxDepth: int)
    returns (packages: seq<Package>, edges: map<Package, Slice>)
    requires Mirrors(relation, rel)
    modifies if root in relation then {relation[root]} else {}
    ensures Ascending(packages) && Ball(rel, root, Elems(packages), Depth(maxDepth)) && edges.Keys == Elems(packages)
    ensures forall k :: k in edges ==>
      edges[k].n <= edges[k].a.Length && edges[k].a[..edges[k].n] == Filter(Row(rel, k), Elems(packages))
    ensures root in relation ==> relation[root][..] == Overwritten(rel[root], |rel[root]|, Elems(packages))
  {
    var packageMap, all := Explore(root, relation, rel, maxDepth);
    packages := Sorted(packageMap.Keys);
    assert Elems(packages) == packageMap.Keys;
    assert forall k :: k in all ==> Row(rel, k)[..all[k].n] == Row(rel, k);
    edges := PruneEdges(all, packageMap);
  }

  /** For every finite graph and every bound: the packages are exactly those within the bound of the
      root, each once and sorted, and the edges are exactly the induced subgraph, in the original
      order.  From depth 1 on the caller's lists are unchanged although the root's list is filtered
      in place; at depth 0 the root's list is unchanged exactly when its self edges come first. */
  method TraceTraverse(root: Package, relation: Adjacency, maxDepth: int)
    returns (packages: seq<Package>, edges: map<Package, Slice>)
    modifies if root in relation then {relation[root]} else {}
    ensures Ascending(packages)
    ensures forall y :: y in packages <==> Within(old(Contents(relation)), root, y, Depth(maxDepth))
    ensures edges.Keys == Elems(packages)
    ensures forall k :: k in edges ==>
      && edges[k].n <= edges[k].a.Length
      && edges[k].a[..edges[k].n] == Filter(Row(old(Contents(relation)), k), Elems(packages))
    ensures maxDepth >= 1 ==> forall k :: k in relation ==> relation[k][..] == old(relation[k][..])
    ensures maxDepth <= 0 && root in relation ==>
      (relation[root][..] == old(relation[root][..]) <==> SelfEdgesFirst(old(relation[root][..]), root))
  {
    ghost var rel := Contents(relation);
    packages, edges := TraceRows(root, relation, rel, maxDepth);
    RootRowAfter(rel, root, Elems(packages), maxDepth);
  }
}
