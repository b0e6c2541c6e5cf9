/** The analyzer of topology.py over a given distance matrix: diagrams,
    the stability check, and pruning of isolated nodes. */
module Topology {
  import opened Connectivity
  import opened FiniteSets
  import opened Kruskal
  import opened MemoryGraph
  import opened Multigraph
  import opened Persistence
  import opened Sorting
  import opened UnionFind
  import opened Wasserstein

  // ---- diagrams and stability ----

  ghost predicate IsDiagrams(d: Matrix, diagrams: seq<Diagram>)
    requires Square(d)
  {
    if |d| < 2 then diagrams == [[]]
    else |diagrams| == 2 && Describes(d, diagrams[0]) && diagrams[1] == []
  }

  lemma DiagramsUnique(d: Matrix, a: seq<Diagram>, b: seq<Diagram>)
    requires Square(d) && IsDiagrams(d, a) && IsDiagrams(d, b)
    ensures a == b
  {
    if |d| >= 2 {
      DescribesUnique(d, a[0], b[0]);
    }
  }

  method ComputePersistence(d: Matrix) returns (diagrams: seq<Diagram>)
    requires Square(d)
    ensures IsDiagrams(d, diagrams)
  {
    if |d| < 2 {
      return [[]];
    }
    var h0 := SimplePersistence(d);
    return [h0, []];
  }

  /** The distance between the diagrams of two matrices. */
  ghost predicate IsDrift(original: Matrix, current: Matrix, dist: real)
    requires Square(original) && Square(current)
  {
    exists a, b :: IsDiagrams(original, a) && IsDiagrams(current, b) && IsDistance(a, b, dist)
  }

  lemma DriftUnique(original: Matrix, current: Matrix, dist: real, other: real)
    requires Square(original) && Square(current)
    requires IsDrift(original, current, dist) && IsDrift(original, current, other)
    ensures dist == other
    ensures original == current ==> dist == 0.0
  {
    var a, b :| IsDiagrams(original, a) && IsDiagrams(current, b) && IsDistance(a, b, dist);
    var c, e :| IsDiagrams(original, c) && IsDiagrams(current, e) && IsDistance(c, e, other);
    DiagramsUnique(original, a, c);
    DiagramsUnique(current, b, e);
    DistanceUnique(a, b, dist, other);
    if original == current {
      DiagramsUnique(original, a, b);
      SelfDistanceZero(a, dist);
    }
  }

  /** With two nodes or more on each side the drift is the greedy cost of the two H0 diagrams, so
      it is at least half the difference of their total persistences. */
  lemma DriftOfH0(original: Matrix, current: Matrix, a: Diagram, b: Diagram, dist: real)
    requires Square(original) && Square(current) && |original| >= 2 && |current| >= 2
    requires Describes(original, a) && Describes(current, b) && IsDrift(original, current, dist)
    ensures IsGreedyCost(a, b, dist)
    ensures -2.0 * dist <= TotalLife(a) - TotalLife(b) <= 2.0 * dist
  {
    var x, y :| IsDiagrams(original, x) && IsDiagrams(current, y) && IsDistance(x, y, dist);
    DiagramsUnique(original, x, [a, []]);
    DiagramsUnique(current, y, [b, []]);
    assert |a| > 0 && |b| > 0;
    hide Describes;
    SecondEmpty(a, b, dist);
    GreedyGap(a, b, dist);
  }

  /** A graph is stable against itself for every bound >= 0, and never when the total
      persistences differ by more than twice the bound. */
  method StabilityCheck(original: Matrix, current: Matrix, bound: real) returns (stable: bool)
    requires Square(original) && Square(current)
    ensures forall dist :: IsDrift(original, current, dist) ==> (stable <==> dist <= bound)
    ensures exists dist :: IsDrift(original, current, dist)
    ensures original == current && bound >= 0.0 ==> stable
    ensures |original| >= 2 && |current| >= 2 ==>
              forall a, b :: Describes(original, a) && Describes(current, b) && stable ==>
                -2.0 * bound <= TotalLife(a) - TotalLife(b) <= 2.0 * bound
  {
    var originalDiagrams := ComputePersistence(original);
    var currentDiagrams := ComputePersistence(current);
    var distance := Distance(originalDiagrams, currentDiagrams);
    stable := distance <= bound;
    hide Describes, IsDistance;
    assert IsDrift(original, current, distance);
    forall dist | IsDrift(original, current, dist) ensures dist == distance {
      DriftUnique(original, current, dist, distance);
    }
    DriftUnique(original, current, distance, distance);
    if |original| >= 2 && |current| >= 2 {
      forall a, b | Describes(original, a) && Describes(current, b)
        ensures -2.0 * distance <= TotalLife(a) - TotalLife(b) <= 2.0 * distance
      {
        DriftOfH0(original, current, a, b, distance);
      }
    }
  }

  // ---- pruning ----

  predicate Symmetrical(d: Matrix)
    requires Square(d)
  {
    forall i, j :: 0 <= i < |d| && 0 <= j < |d| ==> d[i][j] == d[j][i]
  }

  /** Farther than the threshold from every other vertex. */
  ghost predicate Alone(d: Matrix, threshold: real, i: nat)
    requires Square(d) && i < |d|
  {
    forall j :: 0 <= j < |d| && j != i ==> d[i][j] > threshold
  }

  /** At distance 1 or more from every other vertex. */
  ghost predicate Unrelated(d: Matrix, i: nat)
    requires Square(d) && i < |d|
  {
    forall j :: 0 <= j < |d| && j != i ==> d[i][j] >= 1.0
  }

  lemma ConnectedHasNeighbour(d: Matrix, threshold: real, i: nat, j: nat)
    requires Square(d) && Symmetrical(d) && i < |d| && i != j
    requires Connected(Within(d, threshold), i, j)
    ensures !Alone(d, threshold, i)
  {
    var E := Within(d, threshold);
    var p :| Joins(E, p, i, j);
    assert Adjacent(E, p[0], p[0 + 1]);
    assert d[i][p[1]] <= threshold;
  }

  lemma AloneIff(d: Matrix, threshold: real, i: nat)
    requires Square(d) && Symmetrical(d) && i < |d|
    ensures Alone(d, threshold, i) <==>
            forall j: nat :: j < |d| && j != i ==> !Connected(Within(d, threshold), i, j)
  {
    var E := Within(d, threshold);
    if Alone(d, threshold, i) {
      forall j: nat | j < |d| && j != i ensures !Connected(E, i, j) {
        if Connected(E, i, j) {
          ConnectedHasNeighbour(d, threshold, i, j);
        }
      }
    } else {
      var j :| 0 <= j < |d| && j != i && d[i][j] <= threshold;
      EdgeConnects(E, i, j);
    }
  }

  /** The near pairs scanned before (i, j). */
  ghost function Scanned(d: Matrix, threshold: real, i: nat, j: nat): set<Pair>
    requires Square(d)
  {
    set p | p in Within(d, threshold) && (p.0 < i || (p.0 == i && p.1 < j))
  }

  lemma ScanStep(d: Matrix, threshold: real, i: nat, j: nat)
    requires Square(d) && i < j < |d|
    ensures d[i][j] <= threshold ==> Scanned(d, threshold, i, j + 1) == Scanned(d, threshold, i, j) + {(i, j)}
    ensures d[i][j] > threshold ==> Scanned(d, threshold, i, j + 1) == Scanned(d, threshold, i, j)
  {
  }

  lemma ScanRow(d: Matrix, threshold: real, i: nat)
    requires Square(d)
    ensures Scanned(d, threshold, i, i + 1) == Scanned(d, threshold, i, 0)
    ensures Scanned(d, threshold, i, |d|) == Scanned(d, threshold, i + 1, 0)
    ensures Scanned(d, threshold, 0, 0) == {}
    ensures Scanned(d, threshold, |d|, 0) == Within(d, threshold)
  {
  }

  method UniteRow(d: Matrix, threshold: real, parent: array<nat>, ghost h: seq<nat>, i: nat) returns (ghost g: seq<nat>)
    requires Square(d) && i < |d| == parent.Length
    requires Forest(parent[..], h) && Tracks(parent[..], h, Scanned(d, threshold, i, i + 1))
    modifies parent
    ensures Forest(parent[..], g) && Tracks(parent[..], g, Scanned(d, threshold, i, |d|))
  {
    g := h;
    for j := i + 1 to |d|
      invariant Forest(parent[..], g) && Tracks(parent[..], g, Scanned(d, threshold, i, j))
    {
      ScanStep(d, threshold, i, j);
      if d[i][j] <= threshold {
        ghost var p0, g0 := parent[..], g;
        var merged, g1 := PlainUnion(parent, g, i, j);
        UnionTracks(Scanned(d, threshold, i, j), p0, g0, parent[..], g1, i, j);
        g := g1;
      }
    }
  }

  /** Unites every pair at distance at most the threshold. */
  method ComponentsAt(d: Matrix, threshold: real) returns (parent: array<nat>, ghost h: seq<nat>)
    requires Square(d)
    ensures fresh(parent) && parent.Length == |d| && Forest(parent[..], h)
    ensures Tracks(parent[..], h, Within(d, threshold))
  {
    var n := |d|;
    parent := new nat[n](i => i);
    h := seq(n, _ => 0);
    ScanRow(d, threshold, n);
    InitialTracks(parent[..], h, Scanned(d, threshold, 0, 0));
    for i := 0 to n
      invariant Forest(parent[..], h) && Tracks(parent[..], h, Scanned(d, threshold, i, 0))
    {
      ScanRow(d, threshold, i);
      h := UniteRow(d, threshold, parent, h, i);
    }
  }

  /** Those below i in the set of root r. */
  ghost function MembersBelow(p: seq<nat>, h: seq<nat>, r: nat, i: nat): set<nat>
    requires Forest(p, h)
  {
    set x | x in Members(p, h, r) && x < i
  }

  lemma MembersStep(p: seq<nat>, h: seq<nat>, r: nat, i: nat)
    requires Forest(p, h) && i < |p|
    ensures MembersBelow(p, h, r, i + 1) == MembersBelow(p, h, r, i) + (if Root(p, h, i) == r then {i} else {})
    ensures |MembersBelow(p, h, r, i + 1)| == |MembersBelow(p, h, r, i)| + (if Root(p, h, i) == r then 1 else 0)
    ensures MembersBelow(p, h, r, 0) == {} && MembersBelow(p, h, r, |p|) == Members(p, h, r)
  {
  }

  /** The same roots everywhere. */
  ghost predicate SameRoots(p: seq<nat>, q: seq<nat>, h: seq<nat>)
    requires Forest(p, h)
  {
    Forest(q, h) && |q| == |p| && forall a: nat :: a < |p| ==> Root(q, h, a) == Root(p, h, a)
  }

  function SizeAt(sizes: map<nat, nat>, r: nat): nat {
    if r in sizes then sizes[r] else 0
  }

  /** sizes counts, for each root, its members below i. */
  ghost predicate Counts(sizes: map<nat, nat>, p: seq<nat>, h: seq<nat>, i: nat)
    requires Forest(p, h)
  {
    forall r: nat :: |MembersBelow(p, h, r, i)| == SizeAt(sizes, r)
  }

  lemma CountOne(sizes: map<nat, nat>, p: seq<nat>, h: seq<nat>, i: nat, r: nat)
    requires Forest(p, h) && i < |p|
    requires |MembersBelow(p, h, r, i)| == SizeAt(sizes, r)
    ensures var root := Root(p, h, i);
            |MembersBelow(p, h, r, i + 1)| == SizeAt(sizes[root := SizeAt(sizes, root) + 1], r)
  {
    MembersStep(p, h, r, i);
  }

  lemma CountStep(sizes: map<nat, nat>, p: seq<nat>, h: seq<nat>, i: nat)
    requires Forest(p, h) && i < |p| && Counts(sizes, p, h, i)
    ensures var root := Root(p, h, i);
            Counts(sizes[root := SizeAt(sizes, root) + 1], p, h, i + 1)
  {
    hide Root, MembersBelow, Forest, SizeAt;
    var root := Root(p, h, i);
    var after := sizes[root := SizeAt(sizes, root) + 1];
    forall r: nat ensures |MembersBelow(p, h, r, i + 1)| == SizeAt(after, r) {
      CountOne(sizes, p, h, i, r);
    }
  }

  /** Component sizes by root. */
  method CountComponents(parent: array<nat>, ghost h: seq<nat>) returns (sizes: map<nat, nat>)
    requires Forest(parent[..], h)
    modifies parent
    ensures SameRoots(old(parent[..]), parent[..], h)
    ensures Counts(sizes, old(parent[..]), h, parent.Length)
  {
    ghost var p := parent[..];
    sizes := map[];
    forall r: nat ensures MembersBelow(p, h, r, 0) == {} {
    }
    for i := 0 to parent.Length
      invariant SameRoots(p, parent[..], h)
      invariant Counts(sizes, p, h, i)
    {
      HalveKeepsSame(parent[..], h, i);
      CountStep(sizes, p, h, i);
      var root, _ := Find(parent, h, i);
      sizes := sizes[root := SizeAt(sizes, root) + 1];
    }
  }

  /** A component of size one is a vertex connected to nothing else. */
  lemma SingletonIff(p: seq<nat>, h: seq<nat>, E: set<Pair>, sizes: map<nat, nat>, i: nat)
    requires Forest(p, h) && i < |p| && Tracks(p, h, E) && Counts(sizes, p, h, |p|)
    ensures Root(p, h, i) in sizes
    ensures sizes[Root(p, h, i)] == 1 <==> forall j: nat :: j < |p| && j != i ==> !Connected(E, i, j)
  {
    var M := Members(p, h, Root(p, h, i));
    MembersStep(p, h, Root(p, h, i), i);
    assert i in M;
    assert |M| == SizeAt(sizes, Root(p, h, i));
    assert |M - {i}| == |M| - 1;
    if |M| == 1 {
      SubsetSize({i}, M);
      assert M == {i};
      forall j: nat | j < |p| && j != i ensures !Connected(E, i, j) {
        assert j !in M;
        assert !Same(p, h, i, j);
      }
    }
    if forall j: nat :: j < |p| && j != i ==> !Connected(E, i, j) {
      forall j | j in M ensures j == i {
        assert Same(p, h, i, j);
      }
      assert M == {i};
    }
  }

  /** Pruned: alone at the threshold and unrelated. */
  ghost predicate IsPruned(d: Matrix, threshold: real, i: int)
    requires Square(d)
  {
    0 <= i < |d| && Alone(d, threshold, i) && Unrelated(d, i)
  }

  method Prunable(d: Matrix, threshold: real) returns (remove: seq<nat>)
    requires Square(d) && Symmetrical(d)
    ensures forall i: nat :: i in remove <==> IsPruned(d, threshold, i)
  {
    var parent, h := ComponentsAt(d, threshold);
    ghost var p := parent[..];
    var sizes := CountComponents(parent, h);
    remove := [];
    for i := 0 to |d|
      invariant SameRoots(p, parent[..], h)
      invariant forall k: nat :: k in remove <==> k < i && IsPruned(d, threshold, k)
    {
      HalveKeepsSame(parent[..], h, i);
      SingletonIff(p, h, Within(d, threshold), sizes, i);
      AloneIff(d, threshold, i);
      var root, _ := Find(parent, h, i);
      if sizes[root] == 1 {
        var hasEdges := HasRelation(d, i);
        if !hasEdges {
          remove := remove + [i];
        }
      }
    }
  }

  method HasRelation(d: Matrix, i: nat) returns (related: bool)
    requires Square(d) && i < |d|
    ensures related <==> !Unrelated(d, i)
  {
    for j := 0 to |d|
      invariant forall k :: 0 <= k < j && k != i ==> d[i][k] >= 1.0
    {
      if i != j && d[i][j] < 1.0 {
        return true;
      }
    }
    return false;
  }

  /** The ids pruning removes. */
  ghost function PrunedIds(d: Matrix, threshold: real, order: seq<Id>): set<Id>
    requires Square(d) && |order| == |d|
  {
    set i | 0 <= i < |d| && IsPruned(d, threshold, i) :: order[i]
  }

  /** Some other node is within the threshold or nearer than 1. */
  ghost predicate Survives(d: Matrix, threshold: real, i: nat)
    requires Square(d) && i < |d|
  {
    exists j :: 0 <= j < |d| && j != i && (d[i][j] <= threshold || d[i][j] < 1.0)
  }

  lemma PrunedIff(d: Matrix, threshold: real, order: seq<Id>)
    requires Square(d) && |order| == |d| && Distinct(order)
    ensures forall i :: 0 <= i < |d| ==> (order[i] in PrunedIds(d, threshold, order) <==> !Survives(d, threshold, i))
  {
    forall i | 0 <= i < |d| ensures IsPruned(d, threshold, i) <==> !Survives(d, threshold, i) {
    }
    hide IsPruned, Survives;
  }

  /** With two nodes or more, returns the induced subgraph on the survivors. */
  method PruneByPersistence(g: SpectralMemoryGraph, d: Matrix, threshold: real, keys: KeySource, seed: int)
    returns (pruned: SpectralMemoryGraph)
    requires Valid(g.State()) && Square(d) && Symmetrical(d) && |d| == |g.order|
    modifies keys
    ensures |d| < 2 ==> pruned == g
    ensures |d| >= 2 ==> fresh(pruned) && Valid(pruned.State())
    ensures |d| >= 2 ==> ShapeOf(pruned.State()) == ShapeOf(RemoveNodes(g.State(), PrunedIds(d, threshold, g.order)))
    ensures |d| >= 2 ==> forall i :: 0 <= i < |d| ==>
              (Survives(d, threshold, i) <==> g.order[i] in pruned.nodes)
              && (Survives(d, threshold, i) ==> pruned.nodes[g.order[i]] == g.nodes[g.order[i]])
  {
    if |d| < 2 {
      return g;
    }
    var indices := Prunable(d, threshold);
    assert forall i: nat :: i in indices ==> i < |d|;
    var remove := set i | i in indices :: g.order[i];
    assert remove == PrunedIds(d, threshold, g.order);
    PrunedIff(d, threshold, g.order);
    assert forall i :: 0 <= i < |d| ==> g.order[i] in g.order;
    hide IsPruned, Survives, PrunedIds;
    pruned := CopyWithout(g, remove, keys, seed);
    assert pruned.nodes == g.nodes - remove;
  }
}
