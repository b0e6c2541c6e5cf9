/** The depth-bounded traversal of accelerated.py:96-132 over an adjacency matrix. */
module Traversal {
  import opened Bfs
  import opened FiniteSets
  import opened PathSearch
  import opened Sorting

  type Dense = seq<seq<int>>

  predicate Square(m: Dense) {
    forall u :: 0 <= u < |m| ==> |m[u]| == |m|
  }

  /** The columns below j with a non-zero entry in row u, ascending. */
  function Row(m: Dense, u: nat, j: nat): seq<nat>
    requires Square(m) && u < |m| && j <= |m|
  {
    if j == 0 then [] else Row(m, u, j - 1) + (if m[u][j - 1] != 0 then [j - 1] else [])
  }

  /** The graph of the matrix. */
  function GraphOf(m: Dense): Adjacency<nat>
    requires Square(m)
  {
    map u: nat | u < |m| :: Row(m, u, |m|)
  }

  lemma {:induction false} RowElements(m: Dense, u: nat, j: nat)
    requires Square(m) && u < |m| && j <= |m|
    ensures forall v: nat :: v in Row(m, u, j) <==> v < j && m[u][v] != 0
    ensures forall a, b :: 0 <= a < b < |Row(m, u, j)| ==> Row(m, u, j)[a] < Row(m, u, j)[b]
  {
    if j > 0 {
      RowElements(m, u, j - 1);
      var before := Row(m, u, j - 1);
      assert forall a :: 0 <= a < |before| ==> before[a] in before;
    }
  }

  lemma GraphClosed(m: Dense)
    requires Square(m)
    ensures Closed(GraphOf(m))
  {
    forall u, v | u in GraphOf(m) && v in GraphOf(m)[u] ensures v in GraphOf(m) {
      RowElements(m, u, |m|);
    }
  }

  /** Exactly the vertices at distance at most maxDepth, each once, nearest first. */
  ghost predicate Complete(g: Adjacency<nat>, start: nat, maxDepth: int, visited: seq<nat>) {
    && Distinct(visited)
    && (forall v :: v in visited <==> v in g && PathSearch.Within(g, start, v, maxDepth))
    && (forall a, b, j: nat, k: nat | 0 <= a < b < |visited| && AtDistance(g, start, visited[a], j)
          && AtDistance(g, start, visited[b], k) :: j <= k)
  }

  /** The list so far: the vertices that are done, in order of distance, none too far. */
  ghost predicate Listed(dist: map<nat, nat>, done: set<nat>, maxDepth: int, visited: seq<nat>) {
    && Distinct(visited)
    && (forall v :: v in visited <==> v in done)
    && (forall v :: v in visited ==> v in dist && dist[v] <= maxDepth)
    && (forall a, b :: 0 <= a < b < |visited| ==> Ordered(dist, visited[a], visited[b]))
  }

  ghost predicate Ordered(dist: map<nat, nat>, u: nat, v: nat) {
    u in dist && v in dist && dist[u] <= dist[v]
  }

  /** Once everything queued is too far, the list is complete. */
  lemma NowComplete(g: Adjacency<nat>, start: nat, dist: map<nat, nat>, queue: seq<nat>,
                    maxDepth: int, visited: seq<nat>)
    requires Layered(g, start, dist, queue) && Listed(dist, Done(dist, queue), maxDepth, visited)
    requires |queue| > 0 ==> queue[0] in dist && dist[queue[0]] > maxDepth
    ensures Complete(g, start, maxDepth, visited)
  {
    forall v ensures v in visited <==> v in g && PathSearch.Within(g, start, v, maxDepth) {
      if v in visited {
        assert AtDistance(g, start, v, dist[v]);
      }
      if PathSearch.Within(g, start, v, maxDepth) && v !in Done(dist, queue) {
        var j: nat :| j <= maxDepth && AtDistance(g, start, v, j);
        HeadBefore(g, start, dist, queue, v, j);
      }
    }
    forall a, b, j: nat, k: nat | 0 <= a < b < |visited| && AtDistance(g, start, visited[a], j)
        && AtDistance(g, start, visited[b], k)
      ensures j <= k
    {
      assert Ordered(dist, visited[a], visited[b]);
      DistanceUnique(g, start, visited[a], dist[visited[a]], j);
      DistanceUnique(g, start, visited[b], dist[visited[b]], k);
    }
  }

  lemma ListedSnoc(dist: map<nat, nat>, l: map<nat, nat>, done: set<nat>, u: nat, maxDepth: int, visited: seq<nat>)
    requires Listed(dist, done, maxDepth, visited)
    requires u !in done && u in dist && dist[u] <= maxDepth
    requires forall v :: v in visited ==> Ordered(dist, v, u)
    requires forall v :: v in dist ==> v in l && l[v] == dist[v]
    ensures Listed(l, done + {u}, maxDepth, visited + [u])
  {
    var w := visited + [u];
    assert u !in visited;
    forall a, b | 0 <= a < b < |w| ensures Ordered(l, w[a], w[b]) {
      assert visited[a] in visited;
      if b < |visited| {
        assert Ordered(dist, visited[a], visited[b]);
      } else {
        assert Ordered(dist, visited[a], u);
      }
    }
    assert forall v :: v in w <==> v in visited || v == u;
  }

  lemma ElementsJoin(a: seq<nat>, b: seq<nat>)
    ensures Elements(a + b) == Elements(a) + Elements(b)
  {
    assert forall x :: x in a + b <==> x in a || x in b;
  }

  /** The head joins the vertices that are done. */
  lemma NextDone(dist: map<nat, nat>, queue: seq<nat>, neighbours: seq<nat>, l: map<nat, nat>, added: seq<nat>)
    requires Queued(dist, queue) && |queue| > 0 && queue[0] in dist
    requires Adds(dist, neighbours, dist[queue[0]] + 1, l, added)
    ensures Done(l, queue[1..] + added) == Done(dist, queue) + {queue[0]}
    ensures queue[0] !in Done(dist, queue)
  {
    var u, rest := queue[0], queue[1..];
    BehindHead(dist, queue);
    assert l.Keys == dist.Keys + Elements(added) && dist.Keys !! Elements(added) && Elements(rest) <= dist.Keys;
    hide Queued, Adds;
    SplitHead(queue);
    hide Elements;
    ElementsJoin(rest, added);
    DoneAlgebra(dist.Keys, Elements(rest), Elements(added), u);
  }

  lemma SplitHead(queue: seq<nat>)
    requires |queue| > 0
    ensures Elements(queue) == {queue[0]} + Elements(queue[1..])
  {
    assert queue == [queue[0]] + queue[1..];
  }

  lemma DoneAlgebra(known: set<nat>, rest: set<nat>, added: set<nat>, u: nat)
    requires u in known && u !in rest && known !! added && rest <= known
    ensures known + added - (rest + added) == known - ({u} + rest) + {u}
  {
  }

  /** Listing the head and moving on to the next round. */
  lemma NextListed(dist: map<nat, nat>, queue: seq<nat>, neighbours: seq<nat>, l: map<nat, nat>, added: seq<nat>,
                   maxDepth: int, visited: seq<nat>)
    requires Queued(dist, queue) && |queue| > 0 && queue[0] in dist
    requires Adds(dist, neighbours, dist[queue[0]] + 1, l, added)
    requires Listed(dist, Done(dist, queue), maxDepth, visited) && dist[queue[0]] <= maxDepth
    ensures Listed(l, Done(l, queue[1..] + added), maxDepth, visited + [queue[0]])
  {
    NextDone(dist, queue, neighbours, l, added);
    ListedBeforeHead(dist, queue, maxDepth, visited);
    ListedSnoc(dist, l, Done(dist, queue), queue[0], maxDepth, visited);
  }

  lemma ListedBeforeHead(dist: map<nat, nat>, queue: seq<nat>, maxDepth: int, visited: seq<nat>)
    requires Queued(dist, queue) && |queue| > 0 && queue[0] in dist &&
             Listed(dist, Done(dist, queue), maxDepth, visited)
    ensures forall v :: v in visited ==> Ordered(dist, v, queue[0])
  {
  }

  /** A queued vertex with its depth. */
  datatype Item = Item(node: nat, depth: nat)

  ghost function Nodes(queue: seq<Item>): (r: seq<nat>)
    ensures |r| == |queue|
    ensures forall k :: 0 <= k < |r| ==> r[k] == queue[k].node
  {
    seq(|queue|, k requires 0 <= k < |queue| => queue[k].node)
  }

  function WithDepth(added: seq<nat>, d: nat): (r: seq<Item>)
    ensures |r| == |added|
    ensures forall k :: 0 <= k < |r| ==> r[k] == Item(added[k], d)
  {
    seq(|added|, k requires 0 <= k < |added| => Item(added[k], d))
  }

  ghost predicate DepthsOk(dist: map<nat, nat>, queue: seq<Item>) {
    forall k :: 0 <= k < |queue| ==> queue[k].node in dist && queue[k].depth == dist[queue[k].node]
  }

  lemma NodesStep(queue: seq<Item>, added: seq<nat>, d: nat)
    requires |queue| > 0
    ensures Nodes(queue[1..] + WithDepth(added, d)) == Nodes(queue)[1..] + added
  {
  }

  lemma DepthsStep(dist: map<nat, nat>, queue: seq<Item>, neighbours: seq<nat>,
                   d: nat, l: map<nat, nat>, added: seq<nat>)
    requires |queue| > 0 && DepthsOk(dist, queue) && Adds(dist, neighbours, d, l, added)
    ensures DepthsOk(l, queue[1..] + WithDepth(added, d))
  {
    var q := queue[1..] + WithDepth(added, d);
    forall k | 0 <= k < |q| ensures q[k].node in l && q[k].depth == l[q[k].node] {
      if k < |queue| - 1 {
        assert q[k] == queue[k + 1];
      } else {
        assert added[k - |queue| + 1] in added;
      }
    }
  }

  /** The new neighbours in the first j columns. */
  ghost function NewIn(m: Dense, u: nat, seen: set<nat>, j: nat): seq<nat>
    requires Square(m) && u < |m| && j <= |m|
  {
    Fresh(seen, Row(m, u, j))
  }

  /** One more column: a neighbour is enqueued if not yet seen. */
  lemma NewInStep(m: Dense, u: nat, seen: set<nat>, queue: seq<Item>, j: nat, d: nat)
    requires Square(m) && u < |m| && j < |m|
    ensures var f := NewIn(m, u, seen, j); var f' := NewIn(m, u, seen, j + 1);
            var s, q := seen + Elements(f), queue + WithDepth(f, d);
            if m[u][j] == 0 || j in s then f' == f
            else seen + Elements(f') == s + {j} && queue + WithDepth(f', d) == q + [Item(j, d)]
  {
    NextColumn(m, u, seen, j);
    var f := NewIn(m, u, seen, j);
    hide NewIn;
    OneMore(seen, queue, f, j, d);
  }

  lemma NextColumn(m: Dense, u: nat, seen: set<nat>, j: nat)
    requires Square(m) && u < |m| && j < |m|
    ensures var f := NewIn(m, u, seen, j);
            NewIn(m, u, seen, j + 1) == if m[u][j] == 0 || j in seen || j in Elements(f) then f else f + [j]
  {
    var row := Row(m, u, j);
    assert (row + [j])[..|row|] == row && row + [] == row;
  }

  lemma OneMore(seen: set<nat>, queue: seq<Item>, f: seq<nat>, j: nat, d: nat)
    ensures seen + Elements(f + [j]) == seen + Elements(f) + {j}
    ensures queue + WithDepth(f + [j], d) == queue + WithDepth(f, d) + [Item(j, d)]
  {
    assert WithDepth(f + [j], d) == WithDepth(f, d) + [Item(j, d)];
    ElementsJoin(f, [j]);
    assert Elements([j]) == {j};
  }

  method EnqueueRow(m: Dense, node: nat, seen: set<nat>, queue: seq<Item>, d: nat)
    returns (seen': set<nat>, queue': seq<Item>)
    requires Square(m) && node < |m|
    ensures seen' == seen + Elements(Fresh(seen, Row(m, node, |m|)))
    ensures queue' == queue + WithDepth(Fresh(seen, Row(m, node, |m|)), d)
  {
    seen', queue' := seen, queue;
    assert NewIn(m, node, seen, 0) == [];
    for neighbour := 0 to |m|
      invariant seen' == seen + Elements(NewIn(m, node, seen, neighbour))
      invariant queue' == queue + WithDepth(NewIn(m, node, seen, neighbour), d)
    {
      NewInStep(m, node, seen, queue, neighbour, d);
      hide NewIn, Elements, WithDepth;
      if m[node][neighbour] != 0 && neighbour !in seen' {
        seen' := seen' + {neighbour};
        queue' := queue' + [Item(neighbour, d)];
      }
    }
  }

  ghost predicate Progress(g: Adjacency<nat>, start: nat, maxDepth: int, dist: map<nat, nat>, seen: set<nat>,
                           queue: seq<Item>, visited: seq<nat>) {
    && seen == dist.Keys
    && DepthsOk(dist, queue)
    && Layered(g, start, dist, Nodes(queue))
    && Listed(dist, Done(dist, Nodes(queue)), maxDepth, visited)
  }

  ghost predicate TooFar(queue: seq<Item>, maxDepth: int) {
    forall k :: 0 <= k < |queue| ==> queue[k].depth > maxDepth
  }

  ghost predicate InRange(m: Dense, seen: set<nat>, queue: seq<Item>) {
    seen <= Vertices(|m|) && forall k :: 0 <= k < |queue| ==> queue[k].node < |m|
  }

  /** What is left to do: unseen vertices and queued ones. */
  ghost function Remaining(m: Dense, seen: set<nat>, queue: seq<Item>): nat {
    |Vertices(|m|) - seen| + |queue|
  }

  lemma NewVertices(m: Dense, seen: set<nat>, u: nat)
    requires Square(m) && u < |m|
    ensures var added := Fresh(seen, Row(m, u, |m|));
            Elements(added) <= Vertices(|m|) - seen && |Elements(added)| == |added|
  {
    FreshElements(seen, Row(m, u, |m|));
    RowElements(m, u, |m|);
    DistinctSize(Fresh(seen, Row(m, u, |m|)));
  }

  lemma LessUnseen(all: set<nat>, seen: set<nat>, added: set<nat>)
    requires added <= all - seen
    ensures |all - (seen + added)| == |all - seen| - |added|
  {
    assert all - (seen + added) == (all - seen) - added;
  }

  /** A dequeued vertex is replaced by its new neighbours, so less remains. */
  lemma RemainingShrinks(m: Dense, seen: set<nat>, queue: seq<Item>, u: nat, d: nat)
    requires Square(m) && InRange(m, seen, queue) && |queue| > 0 && u < |m|
    ensures var added := Fresh(seen, Row(m, u, |m|));
            && InRange(m, seen + Elements(added), queue[1..] + WithDepth(added, d))
            && Remaining(m, seen + Elements(added), queue[1..] + WithDepth(added, d)) < Remaining(m, seen, queue)
  {
    hide Fresh, Row, Elements, Vertices, WithDepth;
    NewVertices(m, seen, u);
    ReplacedHead(m, seen, queue, Fresh(seen, Row(m, u, |m|)), d);
  }

  lemma ReplacedHead(m: Dense, seen: set<nat>, queue: seq<Item>, added: seq<nat>, d: nat)
    requires InRange(m, seen, queue) && |queue| > 0
    requires Elements(added) <= Vertices(|m|) - seen && |Elements(added)| == |added|
    ensures InRange(m, seen + Elements(added), queue[1..] + WithDepth(added, d))
    ensures Remaining(m, seen + Elements(added), queue[1..] + WithDepth(added, d)) < Remaining(m, seen, queue)
  {
    BelowLength(added, |m|);
    hide Elements;
    LessUnseen(Vertices(|m|), seen, Elements(added));
    assert seen + Elements(added) <= Vertices(|m|);
    hide Vertices;
    forall k | 0 <= k < |queue[1..] + WithDepth(added, d)| ensures (queue[1..] + WithDepth(added, d))[k].node < |m| {
      if k >= |queue| - 1 {
        assert added[k - (|queue| - 1)] < |m|;
      }
    }
  }

  lemma BelowLength(added: seq<nat>, n: nat)
    requires Elements(added) <= Vertices(n)
    ensures forall k :: 0 <= k < |added| ==> added[k] < n
  {
    forall k | 0 <= k < |added| ensures added[k] < n {
      assert added[k] in Elements(added);
    }
  }

  /** The vertices listed from here on. */
  ghost function Traverse(m: Dense, maxDepth: int, seen: set<nat>, queue: seq<Item>): seq<nat>
    requires Square(m) && InRange(m, seen, queue)
    decreases Remaining(m, seen, queue)
  {
    if |queue| == 0 then []
    else if queue[0].depth > maxDepth then Traverse(m, maxDepth, seen, queue[1..])
    else
      var u, d := queue[0].node, queue[0].depth + 1;
      var added := Fresh(seen, Row(m, u, |m|));
      RemainingShrinks(m, seen, queue, u, d);
      [u] + Traverse(m, maxDepth, seen + Elements(added), queue[1..] + WithDepth(added, d))
  }

  lemma {:induction false} Drained(m: Dense, maxDepth: int, seen: set<nat>, queue: seq<Item>)
    requires Square(m) && InRange(m, seen, queue) && TooFar(queue, maxDepth)
    ensures Traverse(m, maxDepth, seen, queue) == []
    decreases |queue|
  {
    if |queue| > 0 { Drained(m, maxDepth, seen, queue[1..]); }
  }

  lemma {:induction false} TraverseCorrect(m: Dense, start: nat, maxDepth: int, dist: map<nat, nat>,
                                          seen: set<nat>, queue: seq<Item>, visited: seq<nat>)
    requires Square(m) && InRange(m, seen, queue)
    requires Progress(GraphOf(m), start, maxDepth, dist, seen, queue, visited)
    ensures Complete(GraphOf(m), start, maxDepth, visited + Traverse(m, maxDepth, seen, queue))
    decreases Remaining(m, seen, queue)
  {
    hide Progress, Complete, Closed, Fresh, Row, Elements, InRange, TooFar;
    var g := GraphOf(m);
    if |queue| == 0 || queue[0].depth > maxDepth {
      StopHere(g, start, maxDepth, dist, seen, queue, visited);
      Drained(m, maxDepth, seen, queue);
      assert visited + [] == visited;
    } else {
      var u, d := queue[0].node, queue[0].depth + 1;
      HeadItem(g, start, maxDepth, dist, seen, queue, visited);
      RowOf(m, u);
      var added := Fresh(seen, Row(m, u, |m|));
      var l := Labelled(dist, added, d);
      GraphClosed(m);
      NextRound(g, start, maxDepth, dist, seen, queue, visited, added, l);
      RemainingShrinks(m, seen, queue, u, d);
      var seen', queue' := seen + Elements(added), queue[1..] + WithDepth(added, d);
      TraverseCorrect(m, start, maxDepth, l, seen', queue', visited + [u]);
      assert visited + [u] + Traverse(m, maxDepth, seen', queue')
          == visited + ([u] + Traverse(m, maxDepth, seen', queue'));
    }
  }

  lemma RowOf(m: Dense, u: nat)
    requires Square(m) && u in GraphOf(m)
    ensures u < |m| && GraphOf(m)[u] == Row(m, u, |m|)
  {
  }

  lemma TraverseSkips(m: Dense, maxDepth: int, seen: set<nat>, queue: seq<Item>)
    requires Square(m) && InRange(m, seen, queue) && |queue| > 0 && queue[0].depth > maxDepth
    ensures InRange(m, seen, queue[1..]) && Remaining(m, seen, queue[1..]) < Remaining(m, seen, queue)
    ensures Traverse(m, maxDepth, seen, queue) == Traverse(m, maxDepth, seen, queue[1..])
  {
  }

  lemma TraverseLists(m: Dense, maxDepth: int, seen: set<nat>, queue: seq<Item>, visited: seq<nat>,
                      seen': set<nat>, queue': seq<Item>)
    requires Square(m) && InRange(m, seen, queue) && |queue| > 0 && queue[0].depth <= maxDepth
    requires seen' == seen + Elements(Fresh(seen, Row(m, queue[0].node, |m|)))
    requires queue' == queue[1..] + WithDepth(Fresh(seen, Row(m, queue[0].node, |m|)), queue[0].depth + 1)
    ensures InRange(m, seen', queue') && Remaining(m, seen', queue') < Remaining(m, seen, queue)
    ensures visited + Traverse(m, maxDepth, seen, queue)
         == visited + [queue[0].node] + Traverse(m, maxDepth, seen', queue')
  {
    RemainingShrinks(m, seen, queue, queue[0].node, queue[0].depth + 1);
    hide Fresh, Row, Elements, Remaining, InRange;
    assert Traverse(m, maxDepth, seen, queue) == [queue[0].node] + Traverse(m, maxDepth, seen', queue');
  }

  /** The traversal from `start`. */
  ghost function Traversal(m: Dense, start: nat, maxDepth: int): seq<nat>
    requires Square(m) && start < |m|
  {
    Traverse(m, maxDepth, {start}, [Item(start, 0)])
  }

  /** It lists exactly the vertices at distance at most maxDepth, each once, nearest first. */
  lemma TraversalCorrect(m: Dense, start: nat, maxDepth: int)
    requires Square(m) && start < |m|
    ensures Complete(GraphOf(m), start, maxDepth, Traversal(m, start, maxDepth))
  {
    InitialProgress(m, start, maxDepth);
    TraverseCorrect(m, start, maxDepth, map[start := 0], {start}, [Item(start, 0)], []);
    assert [] + Traversal(m, start, maxDepth) == Traversal(m, start, maxDepth);
  }

  method FastGraphTraversal(m: Dense, start: nat, maxDepth: int) returns (visited: seq<nat>)
    requires Square(m) && start < |m|
    ensures visited == Traversal(m, start, maxDepth)
    ensures Complete(GraphOf(m), start, maxDepth, visited)
  {
    visited := [];
    var seen: set<nat>, queue: seq<Item> := {start}, [Item(start, 0)];
    while |queue| > 0
      invariant InRange(m, seen, queue)
      invariant visited + Traverse(m, maxDepth, seen, queue) == Traversal(m, start, maxDepth)
      decreases Remaining(m, seen, queue)
    {
      var Item(node, depth) := queue[0];
      if depth > maxDepth {
        TraverseSkips(m, maxDepth, seen, queue);
        queue := queue[1..];
        continue;
      }
      var seen', queue' := EnqueueRow(m, node, seen, queue[1..], depth + 1);
      TraverseLists(m, maxDepth, seen, queue, visited, seen', queue');
      visited, seen, queue := visited + [node], seen', queue';
    }
    assert visited + [] == visited;
    TraversalCorrect(m, start, maxDepth);
  }

  lemma InitialProgress(m: Dense, start: nat, maxDepth: int)
    requires Square(m) && start < |m|
    ensures var g := GraphOf(m);
            && start in g
            && Progress(g, start, maxDepth, map[start := 0], {start}, [Item(start, 0)], [])
  {
    InitialLayered(GraphOf(m), start);
    assert Nodes([Item(start, 0)]) == [start];
  }

  lemma StopHere(g: Adjacency<nat>, start: nat, maxDepth: int, dist: map<nat, nat>, seen: set<nat>,
                 queue: seq<Item>, visited: seq<nat>)
    requires |queue| > 0 ==> queue[0].depth > maxDepth
    requires Progress(g, start, maxDepth, dist, seen, queue, visited)
    ensures Complete(g, start, maxDepth, visited) && TooFar(queue, maxDepth)
  {
    NowComplete(g, start, dist, Nodes(queue), maxDepth, visited);
    if |queue| > 0 {
      QueueFarther(dist, queue);
    }
  }

  lemma HeadItem(g: Adjacency<nat>, start: nat, maxDepth: int, dist: map<nat, nat>, seen: set<nat>,
                 queue: seq<Item>, visited: seq<nat>)
    requires |queue| > 0 && Progress(g, start, maxDepth, dist, seen, queue, visited)
    ensures queue[0].node in g && queue[0].node in dist && queue[0].depth == dist[queue[0].node]
    ensures Nodes(queue)[0] == queue[0].node && seen == dist.Keys
    ensures Layered(g, start, dist, Nodes(queue))
  {
    HeadKnown(g, start, dist, Nodes(queue));
  }

  lemma NextRound(g: Adjacency<nat>, start: nat, maxDepth: int, dist: map<nat, nat>, seen: set<nat>,
                  queue: seq<Item>, visited: seq<nat>, added: seq<nat>, l: map<nat, nat>)
    requires Closed(g) && |queue| > 0 && queue[0].depth <= maxDepth
    requires Progress(g, start, maxDepth, dist, seen, queue, visited)
    requires queue[0].node in g && added == Fresh(seen, g[queue[0].node]) &&
             l == Labelled(dist, added, queue[0].depth + 1)
    ensures Progress(g, start, maxDepth, l, seen + Elements(added),
                     queue[1..] + WithDepth(added, queue[0].depth + 1), visited + [queue[0].node])
  {
    hide Layered, Closed, Adds;
    HeadItem(g, start, maxDepth, dist, seen, queue, visited);
    hide Progress;
    RoundLayered(g, start, dist, Nodes(queue));
    FreshAdds(dist, g[queue[0].node], queue[0].depth + 1);
    NextProgress(g, start, maxDepth, dist, seen, queue, visited, l, added);
  }

  lemma NextProgress(g: Adjacency<nat>, start: nat, maxDepth: int, dist: map<nat, nat>, seen: set<nat>,
                     queue: seq<Item>, visited: seq<nat>, l: map<nat, nat>, added: seq<nat>)
    requires |queue| > 0 && queue[0].depth <= maxDepth && Progress(g, start, maxDepth, dist, seen, queue, visited)
    requires queue[0].node in g && Adds(dist, g[queue[0].node], queue[0].depth + 1, l, added)
    ensures Layered(g, start, l, Nodes(queue)[1..] + added) ==>
              Progress(g, start, maxDepth, l, seen + Elements(added),
                       queue[1..] + WithDepth(added, queue[0].depth + 1), visited + [queue[0].node])
  {
    assert l.Keys == dist.Keys + Elements(added);
    hide Exact, Settled, Listed;
    NodesStep(queue, added, queue[0].depth + 1);
    DepthsStep(dist, queue, g[queue[0].node], queue[0].depth + 1, l, added);
    NextListed(dist, Nodes(queue), g[queue[0].node], l, added, maxDepth, visited);
  }

  /** Behind a head that is too far everything is too far. */
  lemma QueueFarther(dist: map<nat, nat>, queue: seq<Item>)
    requires |queue| > 0 && DepthsOk(dist, queue) && Queued(dist, Nodes(queue))
    ensures forall k :: 0 <= k < |queue| ==> queue[k].depth >= queue[0].depth
  {
    var nodes := Nodes(queue);
    forall k | 0 <= k < |queue| ensures queue[k].depth >= queue[0].depth {
      assert dist[nodes[0]] <= dist[nodes[k]];
    }
  }
}
