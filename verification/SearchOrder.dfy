/** Exactly which targets the budgeted search of verifier.py:86-120 reaches: the
    first nodes of the breadth-first order. */
module SearchOrder {
  import opened Bfs
  import opened FiniteSets
  import opened PathSearch
  import opened Sorting

  /** The nodes of the first `budget` dequeues of a search that no target stops. */
  ghost function Dequeued<N(!new)>(g: Adjacency<N>, visited: set<N>, queue: seq<N>, budget: nat): (r: seq<N>)
    ensures |r| <= budget
    decreases budget
  {
    if |queue| == 0 || budget == 0 then []
    else
      var added := Fresh(visited, Neighbours(g, queue[0]));
      [queue[0]] + Dequeued(g, visited + Elements(added), queue[1..] + added, budget - 1)
  }

  /** The breadth-first order from the source: all dequeues there can be. */
  ghost function Order<N(!new)>(g: Adjacency<N>, source: N): seq<N> {
    if source in g then Dequeued(g, {source}, [source], |g|) else []
  }

  /** A target is found iff it is dequeued. */
  lemma {:induction false} SearchDequeues<N(!new)>(g: Adjacency<N>, target: N, visited: set<N>,
                                                   queue: seq<seq<N>>, budget: nat)
    requires NonEmpty(queue)
    ensures Search(g, target, visited, queue, budget).Some? <==> target in Dequeued(g, visited, Ends(queue), budget)
    decreases budget
  {
    if |queue| > 0 && budget > 0 {
      var u := Last(queue[0]);
      var added := Fresh(visited, Neighbours(g, u));
      assert Ends(queue)[0] == u;
      if u != target {
        EndsStep(queue, queue[0], added);
        SearchDequeues(g, target, visited + Elements(added), queue[1..] + Extensions(queue[0], added), budget - 1);
      }
    }
  }

  /** A smaller budget dequeues a prefix. */
  lemma {:induction false} DequeuedPrefix<N(!new)>(g: Adjacency<N>, visited: set<N>, queue: seq<N>, b: nat, c: nat)
    requires b <= c
    ensures var all := Dequeued(g, visited, queue, c);
            Dequeued(g, visited, queue, b) == all[..if b < |all| then b else |all|]
    decreases b
  {
    if |queue| > 0 && b > 0 {
      var added := Fresh(visited, Neighbours(g, queue[0]));
      DequeuedPrefix(g, visited + Elements(added), queue[1..] + added, b - 1, c - 1);
    }
  }

  /** What is dequeued from here on was queued or not yet visited. */
  lemma {:induction false} DequeuedLater<N(!new)>(g: Adjacency<N>, visited: set<N>, queue: seq<N>, budget: nat, v: N)
    requires v in Dequeued(g, visited, queue, budget)
    ensures v in queue || v !in visited
    decreases budget
  {
    var added := Fresh(visited, Neighbours(g, queue[0]));
    if v != queue[0] {
      DequeuedLater(g, visited + Elements(added), queue[1..] + added, budget - 1, v);
      FreshElements(visited, Neighbours(g, queue[0]));
    }
  }

  /** u is no farther from the source than v. */
  ghost predicate NoFarther<N(!new)>(g: Adjacency<N>, source: N, u: N, v: N) {
    forall j: nat, k: nat | AtDistance(g, source, u, j) && AtDistance(g, source, v, k) :: j <= k
  }

  ghost predicate NearestFirst<N(!new)>(g: Adjacency<N>, source: N, s: seq<N>) {
    && Distinct(s)
    && forall a, b :: 0 <= a < b < |s| ==> NoFarther(g, source, s[a], s[b])
  }

  /** What is queued behind the head or not yet labelled is another node and no nearer. */
  lemma HeadFirst<N(!new)>(g: Adjacency<N>, source: N, dist: map<N, nat>, queue: seq<N>, v: N)
    requires Layered(g, source, dist, queue) && |queue| > 0
    requires v in queue[1..] || v !in dist
    ensures v != queue[0] && NoFarther(g, source, queue[0], v)
  {
    var u := queue[0];
    HeadKnown(g, source, dist, queue);
    BehindHead(dist, queue);
    assert v in queue || v !in dist;
    forall j: nat, k: nat | AtDistance(g, source, u, j) && AtDistance(g, source, v, k) ensures j <= k {
      HeadBefore(g, source, dist, queue, v, k);
      DistanceUnique(g, source, u, j, dist[u]);
    }
  }

  /** Such are all nodes dequeued in later rounds. */
  lemma LaterRounds<N(!new)>(g: Adjacency<N>, dist: map<N, nat>, queue: seq<N>, budget: nat, v: N)
    requires |queue| > 0 && queue[0] in g
    ensures var added := Fresh(dist.Keys, g[queue[0]]);
            v in Dequeued(g, dist.Keys + Elements(added), queue[1..] + added, budget) ==> v in queue[1..] || v !in dist
  {
    var added := Fresh(dist.Keys, g[queue[0]]);
    FreshElements(dist.Keys, g[queue[0]]);
    if v in Dequeued(g, dist.Keys + Elements(added), queue[1..] + added, budget) {
      DequeuedLater(g, dist.Keys + Elements(added), queue[1..] + added, budget, v);
    }
  }

  ghost predicate AllBehind<N(!new)>(g: Adjacency<N>, source: N, u: N, rest: seq<N>) {
    forall v :: v in rest ==> v != u && NoFarther(g, source, u, v)
  }

  lemma HeadBeforeAll<N(!new)>(g: Adjacency<N>, source: N, dist: map<N, nat>, queue: seq<N>, rest: seq<N>)
    requires Layered(g, source, dist, queue) && |queue| > 0
    requires forall v :: v in rest ==> v in queue[1..] || v !in dist
    ensures AllBehind(g, source, queue[0], rest)
  {
    forall v | v in rest ensures v != queue[0] && NoFarther(g, source, queue[0], v) {
      HeadFirst(g, source, dist, queue, v);
    }
  }

  /** One dequeue: the head, then what is dequeued in the next round, none of it nearer. */
  lemma DequeueStep<N(!new)>(g: Adjacency<N>, source: N, dist: map<N, nat>, queue: seq<N>, budget: nat)
    returns (l: map<N, nat>, queue': seq<N>, rest: seq<N>)
    requires Closed(g) && Layered(g, source, dist, queue) && |queue| > 0 && budget > 0
    ensures Layered(g, source, l, queue') && queue[0] in g
    ensures rest == Dequeued(g, l.Keys, queue', budget - 1)
    ensures Dequeued(g, dist.Keys, queue, budget) == [queue[0]] + rest
    ensures AllBehind(g, source, queue[0], rest)
  {
    hide Exact, Queued, Settled, AllBehind, NoFarther;
    RoundLayered(g, source, dist, queue);
    var added := Fresh(dist.Keys, g[queue[0]]);
    l, queue' := Labelled(dist, added, dist[queue[0]] + 1), queue[1..] + added;
    assert l.Keys == dist.Keys + Elements(added);
    rest := Dequeued(g, l.Keys, queue', budget - 1);
    forall v | v in rest ensures v in queue[1..] || v !in dist {
      LaterRounds(g, dist, queue, budget - 1, v);
    }
    HeadBeforeAll(g, source, dist, queue, rest);
  }

  lemma {:induction false} DequeuedNearestFirst<N(!new)>(g: Adjacency<N>, source: N, dist: map<N, nat>,
                                                         queue: seq<N>, budget: nat)
    requires Closed(g) && Layered(g, source, dist, queue)
    ensures NearestFirst(g, source, Dequeued(g, dist.Keys, queue, budget))
    ensures forall v :: v in Dequeued(g, dist.Keys, queue, budget) ==> v in g
    decreases budget
  {
    hide Closed, Layered, Exact, Queued, Settled, AllBehind, NoFarther;
    if |queue| > 0 && budget > 0 {
      var l, queue', rest := DequeueStep(g, source, dist, queue, budget);
      hide Dequeued, NearestFirst;
      DequeuedNearestFirst(g, source, l, queue', budget - 1);
      NearestFirstCons(g, source, queue[0], rest, Dequeued(g, dist.Keys, queue, budget));
    }
  }

  lemma NearestFirstCons<N(!new)>(g: Adjacency<N>, source: N, u: N, rest: seq<N>, s: seq<N>)
    requires NearestFirst(g, source, rest) && AllBehind(g, source, u, rest) && s == [u] + rest
    ensures NearestFirst(g, source, s)
  {
    forall a, b | 0 <= a < b < |s| ensures s[a] != s[b] && NoFarther(g, source, s[a], s[b]) {
      if a == 0 {
        assert s[b] in rest;
      } else {
        assert s[a] == rest[a - 1] && s[b] == rest[b - 1];
      }
    }
  }

  lemma OrderDequeues<N(!new)>(g: Adjacency<N>, source: N, target: N, budget: nat)
    requires source in g && target in g
    ensures FindPath(g, source, target, budget).Some? <==> target in Dequeued(g, {source}, [source], budget)
  {
    assert Ends([[source]]) == [source];
    SearchDequeues(g, target, {source}, [[source]], budget);
  }

  /** The order lists exactly the reachable nodes, each once, nearest first. */
  lemma OrderCorrect<N(!new)>(g: Adjacency<N>, source: N)
    requires Closed(g)
    ensures NearestFirst(g, source, Order(g, source))
    ensures forall v :: v in Order(g, source) <==> source in g && v in g && Reachable(g, source, v)
  {
    if source in g {
      InitialLayered(g, source);
      assert map[source := 0].Keys == {source};
      DequeuedNearestFirst(g, source, map[source := 0], [source], |g|);
      forall v ensures v in Order(g, source) <==> v in g && Reachable(g, source, v) {
        if v in g {
          OrderDequeues(g, source, v, |g|);
          FindPathCorrect(g, source, v);
        }
      }
    }
  }

  /** find_path finds exactly the first `budget` nodes in breadth-first order. */
  lemma FindPathExact<N(!new)>(g: Adjacency<N>, source: N, target: N, budget: nat)
    requires Closed(g)
    ensures FindPath(g, source, target, budget).Some? <==>
            exists r :: 0 <= r < |Order(g, source)| && r < budget && Order(g, source)[r] == target
  {
    var all := Order(g, source);
    OrderCorrect(g, source);
    if source in g && target in g {
      if budget <= |g| {
        OrderDequeues(g, source, target, budget);
        DequeuedPrefix(g, {source}, [source], budget, |g|);
        var n := if budget < |all| then budget else |all|;
        assert target in all[..n] <==> exists r :: 0 <= r < n && all[r] == target;
      } else {
        BudgetedAgrees(g, source, target, budget);
        OrderDequeues(g, source, target, |g|);
      }
    }
  }

  lemma {:induction false} ElementsBound<N(!new)>(s: seq<N>)
    ensures |Elements(s)| <= |s|
  {
    if |s| > 0 {
      var t := s[..|s| - 1];
      ElementsBound(t);
      assert Elements(s) == Elements(t) + {s[|s| - 1]};
    }
  }

  lemma BallGrows<N(!new)>(g: Adjacency<N>, source: N, j: int, k: int)
    requires j <= k
    ensures |Ball(g, source, j)| <= |Ball(g, source, k)|
  {
    forall v | v in Ball(g, source, j) ensures v in Ball(g, source, k) {
      var i: nat :| i <= j && AtDistance(g, source, v, i);
    }
    SubsetSize(Ball(g, source, j), Ball(g, source, k));
  }

  lemma SourcePresent<N(!new)>(g: Adjacency<N>, source: N, v: N, k: int)
    requires v in Ball(g, source, k)
    ensures source in g
  {
    var j: nat :| j <= k && AtDistance(g, source, v, j);
    var p :| Leads(g, p, source, v) && |p| == j + 1;
    assert j > 0 ==> LinkAt(g, p, 0);
  }

  /** Every node within distance k is found exactly when the budget is at least their number. */
  lemma FindsWithin<N(!new)>(g: Adjacency<N>, source: N, budget: nat, k: int)
    requires Closed(g)
    ensures (forall t :: t in Ball(g, source, k) ==> FindPath(g, source, t, budget).Some?)
       <==> budget >= |Ball(g, source, k)|
  {
    var ball := Ball(g, source, k);
    forall t | t in ball ensures source in g {
      SourcePresent(g, source, t, k);
    }
    if budget >= |ball| {
      forall t | t in ball ensures FindPath(g, source, t, budget).Some? {
        var j: nat :| j <= k && AtDistance(g, source, t, j);
        BallGrows(g, source, j, k);
        FindPathBudget(g, source, t, budget, j);
      }
    }
    if forall t :: t in ball ==> FindPath(g, source, t, budget).Some? {
      var found := Dequeued(g, {source}, [source], budget);
      forall t | t in ball ensures t in Elements(found) {
        assert FindPath(g, source, t, budget).Some?;
        OrderDequeues(g, source, t, budget);
      }
      SubsetSize(ball, Elements(found));
      ElementsBound(found);
    }
  }
}
