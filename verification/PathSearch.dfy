/** The path searches of planner.py:148-176 and verifier.py:86-120: the same
    breadth-first search over a queue of paths, without and with a budget. */
module PathSearch {
  import opened Bfs
  import opened FiniteSets
  import opened Multigraph

  function Last<N>(p: seq<N>): N
    requires |p| > 0
  {
    p[|p| - 1]
  }

  ghost predicate NonEmpty<N>(queue: seq<seq<N>>) {
    forall k :: 0 <= k < |queue| ==> |queue[k]| > 0
  }

  /** graph.neighbors: nothing for a node the graph does not have. */
  function Neighbours<N(==)>(g: Adjacency<N>, u: N): seq<N> {
    if u in g then g[u] else []
  }

  /** The path extended by each new neighbour. */
  function Extensions<N>(path: seq<N>, added: seq<N>): (r: seq<seq<N>>)
    ensures |r| == |added|
    ensures forall k :: 0 <= k < |r| ==> r[k] == path + [added[k]]
  {
    seq(|added|, k requires 0 <= k < |added| => path + [added[k]])
  }

  function Elements<N(==)>(s: seq<N>): set<N> {
    set x | x in s
  }

  /** The search, stopped after `budget` dequeues. */
  ghost function Search<N(!new)>(g: Adjacency<N>, target: N, visited: set<N>, queue: seq<seq<N>>, budget: nat):
    Option<seq<N>>
    requires NonEmpty(queue)
    decreases budget
  {
    if |queue| == 0 || budget == 0 then None
    else
      var path := queue[0];
      if Last(path) == target then Some(path)
      else
        var added := Fresh(visited, Neighbours(g, Last(path)));
        Search(g, target, visited + Elements(added), queue[1..] + Extensions(path, added), budget - 1)
  }

  /** find_path: an endpoint outside the graph gives None at once. */
  ghost function FindPath<N(!new)>(g: Adjacency<N>, source: N, target: N, budget: nat): Option<seq<N>> {
    if source !in g || target !in g then None
    else Search(g, target, {source}, [[source]], budget)
  }

  // ---- the queue of paths and the layers ----

  function Ends<N>(queue: seq<seq<N>>): (r: seq<N>)
    requires NonEmpty(queue)
    ensures |r| == |queue|
    ensures forall k :: 0 <= k < |r| ==> r[k] == Last(queue[k])
  {
    seq(|queue|, k requires 0 <= k < |queue| => Last(queue[k]))
  }

  /** Queued path k leads from the source to its end, along as many links as the label says. */
  ghost predicate PathOk<N(!new)>(g: Adjacency<N>, source: N, dist: map<N, nat>, p: seq<N>) {
    |p| > 0 && Leads(g, p, source, Last(p)) && Last(p) in dist && |p| == dist[Last(p)] + 1
  }

  ghost predicate PathsOk<N(!new)>(g: Adjacency<N>, source: N, dist: map<N, nat>, queue: seq<seq<N>>) {
    forall k :: 0 <= k < |queue| ==> PathOk(g, source, dist, queue[k])
  }

  lemma EndsStep<N(!new)>(queue: seq<seq<N>>, path: seq<N>, added: seq<N>)
    requires NonEmpty(queue) && |queue| > 0 && |path| > 0
    ensures NonEmpty(queue[1..] + Extensions(path, added))
    ensures Ends(queue[1..] + Extensions(path, added)) == Ends(queue)[1..] + added
  {
    var q := queue[1..] + Extensions(path, added);
    assert forall k :: 0 <= k < |queue| - 1 ==> q[k] == queue[k + 1];
    assert forall k :: |queue| - 1 <= k < |q| ==> q[k] == path + [added[k - |queue| + 1]];
  }

  lemma PathsStep<N(!new)>(g: Adjacency<N>, source: N, dist: map<N, nat>, queue: seq<seq<N>>,
                          added: seq<N>, l: map<N, nat>)
    requires PathsOk(g, source, dist, queue) && |queue| > 0 && NonEmpty(queue)
    requires forall v :: v in dist ==> v in l && l[v] == dist[v]
    requires forall v :: v in added ==> Linked(g, Last(queue[0]), v) && v in l && l[v] == |queue[0]|
    ensures PathsOk(g, source, l, queue[1..] + Extensions(queue[0], added))
  {
    var q := queue[1..] + Extensions(queue[0], added);
    assert PathOk(g, source, dist, queue[0]);
    forall k | 0 <= k < |q| ensures PathOk(g, source, l, q[k]) {
      if k < |queue| - 1 {
        assert PathOk(g, source, dist, queue[k + 1]);
      } else {
        var v := added[k - |queue| + 1];
        assert v in added;
        Extend(g, queue[0], source, Last(queue[0]), v);
      }
    }
  }

  /** The invariant of the search loop. */
  ghost predicate Searching<N(!new)>(g: Adjacency<N>, source: N, target: N, dist: map<N, nat>, queue: seq<seq<N>>) {
    && NonEmpty(queue)
    && PathsOk(g, source, dist, queue)
    && Layered(g, source, dist, Ends(queue))
    && (target in dist ==> target in Ends(queue))
  }

  /** One dequeue that does not find the target keeps the invariant. */
  lemma SearchStep<N(!new)>(g: Adjacency<N>, source: N, target: N, dist: map<N, nat>, queue: seq<seq<N>>)
    returns (l: map<N, nat>)
    requires Closed(g) && Searching(g, source, target, dist, queue) && |queue| > 0 && Last(queue[0]) != target
    ensures Last(queue[0]) in g
    ensures var added := Fresh(dist.Keys, g[Last(queue[0])]);
            && NonEmpty(queue[1..] + Extensions(queue[0], added))
            && Searching(g, source, target, l, queue[1..] + Extensions(queue[0], added))
            && l.Keys == dist.Keys + Elements(added)
            && |l| == |dist| + |added|
  {
    hide Exact, Queued, Settled, Adds;
    var u := Last(queue[0]);
    var ends := Ends(queue);
    assert ends[0] == u;
    RoundLayered(g, source, dist, ends);
    var added := Fresh(dist.Keys, g[u]);
    l := Labelled(dist, added, dist[u] + 1);
    FreshAdds(dist, g[u], dist[u] + 1);
    EndsStep(queue, queue[0], added);
    assert PathOk(g, source, dist, queue[0]);
    PathsStep(g, source, dist, queue, added, l);
    assert ends == [u] + ends[1..];
    assert l.Keys == dist.Keys + Elements(added);
  }

  lemma SearchingFacts<N(!new)>(g: Adjacency<N>, source: N, target: N, dist: map<N, nat>, queue: seq<seq<N>>)
    requires Searching(g, source, target, dist, queue)
    ensures dist.Keys <= g.Keys && NonEmpty(queue)
    ensures |queue| == 0 ==> !Reachable(g, source, target)
    ensures |queue| > 0 ==> Shortest(g, source, Last(queue[0]), queue[0])
  {
    if |queue| > 0 {
      assert PathOk(g, source, dist, queue[0]);
    } else {
      assert Ends(queue) == [];
      Exhausted(g, source, dist, target);
    }
  }

  // ---- what the search returns ----

  /** The search with the next round's arguments named. */
  lemma SearchUnfolds<N(!new)>(g: Adjacency<N>, target: N, visited: set<N>, queue: seq<seq<N>>, budget: nat,
                               visited': set<N>, queue': seq<seq<N>>)
    requires NonEmpty(queue) && NonEmpty(queue') && |queue| > 0 && budget > 0
    requires Last(queue[0]) != target && Last(queue[0]) in g
    requires var added := Fresh(visited, g[Last(queue[0])]);
             visited' == visited + Elements(added) && queue' == queue[1..] + Extensions(queue[0], added)
    ensures Search(g, target, visited, queue, budget) == Search(g, target, visited', queue', budget - 1)
  {
  }

  /** A shortest path to the target. */
  ghost predicate Shortest<N(!new)>(g: Adjacency<N>, source: N, target: N, p: seq<N>) {
    |p| > 0 && Leads(g, p, source, target) && AtDistance(g, source, target, |p| - 1)
  }

  lemma SearchStops<N(!new)>(g: Adjacency<N>, source: N, target: N, dist: map<N, nat>, queue: seq<seq<N>>, budget: nat)
    requires NonEmpty(queue) && Searching(g, source, target, dist, queue)
    requires |queue| == 0 || budget == 0 || Last(queue[0]) == target
    ensures var r := Search(g, target, dist.Keys, queue, budget);
            && (r.Some? ==> Shortest(g, source, target, r.value))
            && (r.None? && budget + |dist| >= |g| + |queue| ==> !Reachable(g, source, target))
  {
    SearchingFacts(g, source, target, dist, queue);
    hide Searching, Shortest, Reachable;
    SubsetSize(dist.Keys, g.Keys);
  }

  /** Whatever is returned is a shortest path; nothing is returned only if the budget
      runs out or the target is unreachable. */
  lemma {:induction false} SearchCorrect<N(!new)>(g: Adjacency<N>, source: N, target: N,
                                                  dist: map<N, nat>, queue: seq<seq<N>>, budget: nat)
    requires Closed(g) && NonEmpty(queue) && Searching(g, source, target, dist, queue)
    ensures var r := Search(g, target, dist.Keys, queue, budget);
            && (r.Some? ==> Shortest(g, source, target, r.value))
            && (r.None? && budget + |dist| >= |g| + |queue| ==> !Reachable(g, source, target))
    decreases budget
  {
    hide Searching, Shortest, Reachable, Closed, Search;
    if |queue| == 0 || budget == 0 || Last(queue[0]) == target {
      SearchStops(g, source, target, dist, queue, budget);
    } else {
      var l := SearchStep(g, source, target, dist, queue);
      var added := Fresh(dist.Keys, g[Last(queue[0])]);
      var queue' := queue[1..] + Extensions(queue[0], added);
      SearchUnfolds(g, target, dist.Keys, queue, budget, l.Keys, queue');
      SearchCorrect(g, source, target, l, queue', budget - 1);
    }
  }

  lemma InitialSearching<N(!new)>(g: Adjacency<N>, source: N, target: N)
    requires source in g
    ensures Searching(g, source, target, map[source := 0], [[source]])
  {
    InitialLayered(g, source);
    assert Ends([[source]]) == [source];
    assert Leads(g, [source], source, source);
    assert PathOk(g, source, map[source := 0], [source]);
  }

  /** _find_path returns a shortest path, and None exactly when an endpoint is missing
      or the target is unreachable. */
  lemma FindPathCorrect<N(!new)>(g: Adjacency<N>, source: N, target: N)
    requires Closed(g)
    ensures var r := FindPath(g, source, target, |g|);
            && (r.Some? ==> Leads(g, r.value, source, target))
            && (r.Some? ==> forall p :: Leads(g, p, source, target) ==> |r.value| <= |p|)
            && (r.None? <==> source !in g || target !in g || !Reachable(g, source, target))
  {
    if source in g && target in g {
      InitialSearching(g, source, target);
      assert map[source := 0].Keys == {source};
      SearchCorrect(g, source, target, map[source := 0], [[source]], |g|);
    }
  }

  /** A larger budget never changes a path that was found. */
  lemma {:induction false} BudgetMonotone<N(!new)>(g: Adjacency<N>, target: N, visited: set<N>,
                                                   queue: seq<seq<N>>, b: nat, c: nat)
    requires NonEmpty(queue) && b <= c
    ensures Search(g, target, visited, queue, b).Some? ==>
              Search(g, target, visited, queue, c) == Search(g, target, visited, queue, b)
    decreases b
  {
    if |queue| > 0 && b > 0 && Last(queue[0]) != target {
      var added := Fresh(visited, Neighbours(g, Last(queue[0])));
      BudgetMonotone(g, target, visited + Elements(added), queue[1..] + Extensions(queue[0], added), b - 1, c - 1);
    }
  }

  /** Any path find_path returns is the planner's, and with a budget of at least the
      number of nodes the two agree. */
  lemma BudgetedAgrees<N(!new)>(g: Adjacency<N>, source: N, target: N, budget: nat)
    requires Closed(g)
    ensures FindPath(g, source, target, budget).Some? ==>
              FindPath(g, source, target, budget) == FindPath(g, source, target, |g|)
    ensures budget >= |g| ==> FindPath(g, source, target, budget) == FindPath(g, source, target, |g|)
  {
    if source in g && target in g {
      if budget <= |g| {
        BudgetMonotone(g, target, {source}, [[source]], budget, |g|);
      } else {
        BudgetMonotone(g, target, {source}, [[source]], |g|, budget);
        FindPathCorrect(g, source, target);
        InitialSearching(g, source, target);
        assert map[source := 0].Keys == {source};
        SearchCorrect(g, source, target, map[source := 0], [[source]], budget);
        if FindPath(g, source, target, budget).Some? {
          assert Reachable(g, source, target);
        }
      }
    }
  }

  // ---- the budget counts dequeues, not depth ----

  ghost predicate Within<N(!new)>(g: Adjacency<N>, source: N, v: N, k: int) {
    exists j: nat :: j <= k && AtDistance(g, source, v, j)
  }

  /** The nodes at distance at most k. */
  ghost function Ball<N(!new)>(g: Adjacency<N>, source: N, k: int): set<N> {
    set v | v in g && Within(g, source, v, k)
  }

  lemma DistanceUnique<N(!new)>(g: Adjacency<N>, source: N, v: N, j: nat, k: nat)
    requires AtDistance(g, source, v, j) && AtDistance(g, source, v, k)
    ensures j == k
  {
  }

  ghost function Done<N(!new)>(dist: map<N, nat>, queue: seq<N>): set<N> {
    dist.Keys - Elements(queue)
  }

  lemma DoneSize<N(!new)>(dist: map<N, nat>, queue: seq<N>)
    requires Queued(dist, queue)
    ensures |Done(dist, queue)| == |dist| - |queue|
  {
    DistinctSize(queue);
    var q := set x | x in queue;
    assert q <= dist.Keys && Done(dist, queue) == dist.Keys - q;
  }

  /** The head is no farther out than anything still to come. */
  lemma HeadBefore<N(!new)>(g: Adjacency<N>, source: N, dist: map<N, nat>, queue: seq<N>, v: N, k: nat)
    requires Layered(g, source, dist, queue) && AtDistance(g, source, v, k)
    requires v !in Done(dist, queue)
    ensures |queue| > 0 && queue[0] in dist && dist[queue[0]] <= k
  {
    if v in dist {
      HeadIsLeast(g, source, dist, queue, v);
      DistanceUnique(g, source, v, dist[v], k);
    } else {
      var p :| Leads(g, p, source, v) && |p| == k + 1;
      var m := Frontier(g, source, dist, queue, p);
      HeadIsLeast(g, source, dist, queue, p[m]);
    }
  }

  /** When the head is the target, all nearer nodes are done. */
  lemma NearerDone<N(!new)>(g: Adjacency<N>, source: N, dist: map<N, nat>, queue: seq<N>, k: nat)
    requires Layered(g, source, dist, queue) && |queue| > 0 && queue[0] in dist && dist[queue[0]] == k
    ensures |Ball(g, source, k - 1)| <= |dist| - |queue|
  {
    forall v | v in Ball(g, source, k - 1) ensures v in Done(dist, queue) {
      var j: nat :| j <= k - 1 && AtDistance(g, source, v, j);
      if v !in Done(dist, queue) {
        HeadBefore(g, source, dist, queue, v, j);
      }
    }
    SubsetSize(Ball(g, source, k - 1), Done(dist, queue));
    DoneSize(dist, queue);
  }

  /** Before the target is dequeued, only nodes no farther than it are done. */
  lemma FewerDone<N(!new)>(g: Adjacency<N>, source: N, dist: map<N, nat>, queue: seq<N>, target: N, k: nat)
    requires Layered(g, source, dist, queue) && AtDistance(g, source, target, k)
    requires target in g && target !in Done(dist, queue)
    ensures |queue| > 0
    ensures |dist| - |queue| < |Ball(g, source, k)|
  {
    HeadBefore(g, source, dist, queue, target, k);
    forall v | v in Done(dist, queue) ensures v in Ball(g, source, k) {
      assert v !in queue && AtDistance(g, source, v, dist[v]);
    }
    assert Done(dist, queue) + {target} <= Ball(g, source, k);
    SubsetSize(Done(dist, queue) + {target}, Ball(g, source, k));
    DoneSize(dist, queue);
  }

  lemma SearchBudgetStops<N(!new)>(g: Adjacency<N>, source: N, target: N,
                                   dist: map<N, nat>, queue: seq<seq<N>>, budget: nat, k: nat)
    requires Searching(g, source, target, dist, queue) && AtDistance(g, source, target, k) && target in g
    requires |queue| == 0 || budget == 0 || Last(queue[0]) == target
    ensures var r := Search(g, target, dist.Keys, queue, budget);
            && (r.Some? ==> budget + |dist| - |queue| > |Ball(g, source, k - 1)|)
            && (budget + |dist| - |queue| >= |Ball(g, source, k)| ==> r.Some?)
  {
    var ends := Ends(queue);
    FewerDone(g, source, dist, ends, target, k);
    if budget > 0 {
      assert ends[0] == target;
      DistanceUnique(g, source, target, dist[target], k);
      NearerDone(g, source, dist, ends, k);
    }
  }

  lemma {:induction false} SearchBudget<N(!new)>(g: Adjacency<N>, source: N, target: N,
                                                 dist: map<N, nat>, queue: seq<seq<N>>, budget: nat, k: nat)
    requires Closed(g) && NonEmpty(queue) && Searching(g, source, target, dist, queue)
    requires AtDistance(g, source, target, k) && target in g
    ensures var r := Search(g, target, dist.Keys, queue, budget);
            && (r.Some? ==> budget + |dist| - |queue| > |Ball(g, source, k - 1)|)
            && (budget + |dist| - |queue| >= |Ball(g, source, k)| ==> r.Some?)
    decreases budget
  {
    hide Searching, Closed, Search, AtDistance, Ball;
    if |queue| == 0 || budget == 0 || Last(queue[0]) == target {
      SearchBudgetStops(g, source, target, dist, queue, budget, k);
    } else {
      var l := SearchStep(g, source, target, dist, queue);
      var added := Fresh(dist.Keys, g[Last(queue[0])]);
      var queue' := queue[1..] + Extensions(queue[0], added);
      SearchUnfolds(g, target, dist.Keys, queue, budget, l.Keys, queue');
      SearchBudget(g, source, target, l, queue', budget - 1, k);
    }
  }

  /** find_path needs a budget above the number of nodes nearer than the target, and one
      as large as the number of nodes no farther always suffices. */
  lemma FindPathBudget<N(!new)>(g: Adjacency<N>, source: N, target: N, budget: nat, k: nat)
    requires Closed(g) && source in g && target in g && AtDistance(g, source, target, k)
    ensures FindPath(g, source, target, budget).Some? ==> budget > |Ball(g, source, k - 1)|
    ensures budget >= |Ball(g, source, k)| ==> FindPath(g, source, target, budget).Some?
  {
    InitialSearching(g, source, target);
    assert map[source := 0].Keys == {source};
    SearchBudget(g, source, target, map[source := 0], [[source]], budget, k);
  }

  /** So the parameter is no bound on the depth: a target one link away is
      missed with max_depth 1. */
  lemma DepthOneMissesNeighbour()
    ensures var g: Adjacency<nat> := map[0 := [1], 1 := []];
            Closed(g) && AtDistance(g, 0, 1, 1) && FindPath(g, 0, 1, 1) == None
  {
    var g: Adjacency<nat> := map[0 := [1], 1 := []];
    var p := [0, 1];
    assert LinkAt(g, p, 0);
    assert Leads(g, p, 0, 1) && |p| == 2;
    assert Leads(g, [0], 0, 0);
    assert AtDistance(g, 0, 0, 0);
    assert 0 in Ball(g, 0, 0);
    SubsetSize({0}, Ball(g, 0, 0));
    FindPathBudget(g, 0, 1, 1, 1);
  }

  // ---- the algorithms ----

  /** The inner loop of both searches. */
  method Enqueue<N(==, !new)>(visited: set<N>, queue: seq<seq<N>>, path: seq<N>, neighbours: seq<N>)
    returns (visited': set<N>, queue': seq<seq<N>>)
    ensures visited' == visited + Elements(Fresh(visited, neighbours))
    ensures queue' == queue + Extensions(path, Fresh(visited, neighbours))
  {
    visited', queue' := visited, queue;
    for k := 0 to |neighbours|
      invariant visited' == visited + Elements(Fresh(visited, neighbours[..k]))
      invariant queue' == queue + Extensions(path, Fresh(visited, neighbours[..k]))
    {
      var neighbour := neighbours[k];
      assert neighbours[..k + 1][..k] == neighbours[..k];
      if neighbour !in visited' {
        visited' := visited' + {neighbour};
        queue' := queue' + [path + [neighbour]];
      }
    }
    assert neighbours[..|neighbours|] == neighbours;
  }

  /** Every node is enqueued at most once: the budget left covers the unvisited nodes and the queue. */
  ghost predicate Covers<N(!new)>(g: Adjacency<N>, visited: set<N>, queue: seq<seq<N>>, budget: nat) {
    && NonEmpty(queue) && visited <= g.Keys
    && (forall k :: 0 <= k < |queue| ==> Last(queue[k]) in g)
    && budget + |visited| == |g| + |queue|
  }

  lemma CoversStep<N(!new)>(g: Adjacency<N>, visited: set<N>, queue: seq<seq<N>>, budget: nat)
    requires Closed(g) && Covers(g, visited, queue, budget) && |queue| > 0
    ensures Last(queue[0]) in g && budget > 0
    ensures var added := Fresh(visited, g[Last(queue[0])]);
            Covers(g, visited + Elements(added), queue[1..] + Extensions(queue[0], added), budget - 1)
  {
    var added := Fresh(visited, g[Last(queue[0])]);
    SubsetSize(visited, g.Keys);
    FreshElements(visited, g[Last(queue[0])]);
    DistinctSize(added);
    assert Elements(added) == set x | x in added;
    assert |visited + Elements(added)| == |visited| + |added|;
    var q := queue[1..] + Extensions(queue[0], added);
    forall k | 0 <= k < |q| ensures |q[k]| > 0 && Last(q[k]) in g {
      if k < |queue| - 1 {
        assert q[k] == queue[k + 1];
      } else {
        assert q[k] == queue[0] + [added[k - |queue| + 1]] && added[k - |queue| + 1] in added;
      }
    }
  }

  /** The planner's search: it stops by itself, after at most one dequeue per node. */
  method PlannerFindPath<N(==, !new)>(g: Adjacency<N>, source: N, target: N) returns (r: Option<seq<N>>)
    requires Closed(g)
    ensures r == FindPath(g, source, target, |g|)
  {
    if source !in g || target !in g {
      return None;
    }
    var visited, queue := {source}, [[source]];
    ghost var budget: nat := |g|;
    while |queue| > 0
      invariant Covers(g, visited, queue, budget)
      invariant Search(g, target, visited, queue, budget) == FindPath(g, source, target, |g|)
      decreases budget
    {
      CoversStep(g, visited, queue, budget);
      var path := queue[0];
      var node := Last(path);
      if node == target {
        return Some(path);
      }
      var visited', queue' := Enqueue(visited, queue[1..], path, g[node]);
      SearchUnfolds(g, target, visited, queue, budget, visited', queue');
      visited, queue, budget := visited', queue', budget - 1;
    }
    return None;
  }

  /** The verifier's search: `depth` is raised once per dequeue. */
  method VerifierFindPath<N(==, !new)>(g: Adjacency<N>, source: N, target: N, maxDepth: int) returns (r: Option<seq<N>>)
    requires Closed(g)
    ensures r == FindPath(g, source, target, if maxDepth < 0 then 0 else maxDepth)
  {
    if source !in g || target !in g {
      return None;
    }
    var visited, queue, depth := {source}, [[source]], 0;
    while |queue| > 0 && depth < maxDepth
      invariant NonEmpty(queue) && depth >= 0
      invariant maxDepth >= 0 ==> depth <= maxDepth
      invariant Search(g, target, visited, queue, if maxDepth < 0 then 0 else maxDepth - depth)
             == FindPath(g, source, target, if maxDepth < 0 then 0 else maxDepth)
      decreases maxDepth - depth
    {
      var path := queue[0];
      var node := Last(path);
      if node == target {
        return Some(path);
      }
      EndsStep(queue, path, Fresh(visited, Neighbours(g, node)));
      var v, q := Enqueue(visited, queue[1..], path, Neighbours(g, node));
      visited, queue, depth := v, q, depth + 1;
    }
    return None;
  }
}
