/** Breadth-first search, shared by planner.py, verifier.py and accelerated.py. */
module Bfs {
  import opened Sorting

  /** Successor lists. */
  type Adjacency<N(==)> = map<N, seq<N>>

  ghost predicate Closed<N(!new)>(g: Adjacency<N>) {
    forall u, v :: u in g && v in g[u] ==> v in g
  }

  // ---- paths and distance ----

  ghost predicate Linked<N(!new)>(g: Adjacency<N>, u: N, v: N) {
    u in g && v in g[u]
  }

  ghost predicate LinkAt<N(!new)>(g: Adjacency<N>, p: seq<N>, k: nat)
    requires k + 1 < |p|
  {
    Linked(g, p[k], p[k + 1])
  }

  ghost predicate IsPath<N(!new)>(g: Adjacency<N>, p: seq<N>) {
    |p| > 0 && forall k :: 0 <= k < |p| - 1 ==> LinkAt(g, p, k)
  }

  ghost predicate Leads<N(!new)>(g: Adjacency<N>, p: seq<N>, source: N, target: N) {
    IsPath(g, p) && p[0] == source && p[|p| - 1] == target
  }

  ghost predicate Reachable<N(!new)>(g: Adjacency<N>, source: N, target: N) {
    exists p :: Leads(g, p, source, target)
  }

  /** target is exactly k steps from source. */
  ghost predicate AtDistance<N(!new)>(g: Adjacency<N>, source: N, target: N, k: nat) {
    && (exists p :: Leads(g, p, source, target) && |p| == k + 1)
    && (forall p :: Leads(g, p, source, target) ==> |p| >= k + 1)
  }

  lemma Extend<N(!new)>(g: Adjacency<N>, p: seq<N>, source: N, u: N, v: N)
    requires Leads(g, p, source, u) && Linked(g, u, v)
    ensures Leads(g, p + [v], source, v)
  {
    var q := p + [v];
    forall k | 0 <= k < |q| - 1 ensures LinkAt(g, q, k) {
      if k < |p| - 1 { assert LinkAt(g, p, k); }
    }
  }

  // ---- the layer invariant ----

  /** Labels are distances from the source. */
  ghost predicate Exact<N(!new)>(g: Adjacency<N>, source: N, dist: map<N, nat>) {
    && source in dist && dist[source] == 0
    && dist.Keys <= g.Keys
    && forall v :: v in dist ==> AtDistance(g, source, v, dist[v])
  }

  /** The queue is ordered by label, spans at most two layers, and ends the labels. */
  ghost predicate Queued<N(!new)>(dist: map<N, nat>, queue: seq<N>) {
    && Distinct(queue)
    && (forall q :: q in queue ==> q in dist)
    && (forall a, b :: 0 <= a <= b < |queue| ==> dist[queue[a]] <= dist[queue[b]])
    && (|queue| > 0 ==> forall v :: v in dist ==>
          dist[v] <= dist[queue[0]] + (if v in queue then 1 else 0))
  }

  ghost predicate SettledAt<N(!new)>(g: Adjacency<N>, dist: map<N, nat>, u: N)
    requires u in dist && u in g
  {
    forall v :: v in g[u] ==> v in dist && dist[v] <= dist[u] + 1
  }

  /** Everything already dequeued has all its successors labelled. */
  ghost predicate Settled<N(!new)>(g: Adjacency<N>, dist: map<N, nat>, queue: seq<N>)
    requires dist.Keys <= g.Keys
  {
    forall u :: u in dist && u !in queue ==> SettledAt(g, dist, u)
  }

  ghost predicate Layered<N(!new)>(g: Adjacency<N>, source: N, dist: map<N, nat>, queue: seq<N>) {
    Exact(g, source, dist) && Queued(dist, queue) && Settled(g, dist, queue)
  }

  /** A path to an unlabelled node passes through the queue on the way. */
  lemma Frontier<N(!new)>(g: Adjacency<N>, source: N, dist: map<N, nat>, queue: seq<N>, p: seq<N>) returns (m: nat)
    requires Layered(g, source, dist, queue)
    requires IsPath(g, p) && p[0] == source && p[|p| - 1] !in dist
    ensures m < |p| - 1 && p[m] in queue && dist[p[m]] <= m
  {
    m := 0;
    while p[m] !in queue
      invariant m < |p| - 1 && p[m] in dist && dist[p[m]] <= m
      decreases |p| - m
    {
      assert LinkAt(g, p, m);
      assert SettledAt(g, dist, p[m]);
      m := m + 1;
    }
  }

  lemma HeadIsLeast<N(!new)>(g: Adjacency<N>, source: N, dist: map<N, nat>, queue: seq<N>, q: N)
    requires Layered(g, source, dist, queue) && q in queue
    ensures |queue| > 0 && dist[queue[0]] <= dist[q]
  {
    var k :| 0 <= k < |queue| && queue[k] == q;
  }

  /** Nothing is reachable beyond an empty queue. */
  lemma Exhausted<N(!new)>(g: Adjacency<N>, source: N, dist: map<N, nat>, target: N)
    requires Layered(g, source, dist, []) && target !in dist
    ensures !Reachable(g, source, target)
  {
    if Reachable(g, source, target) {
      var p :| Leads(g, p, source, target);
      var m := Frontier(g, source, dist, [], p);
    }
  }

  /** An unlabelled successor of the head is one layer further out. */
  lemma NewLabel<N(!new)>(g: Adjacency<N>, source: N, dist: map<N, nat>, queue: seq<N>, v: N)
    requires Layered(g, source, dist, queue) && |queue| > 0
    requires v in g[queue[0]] && v !in dist
    ensures AtDistance(g, source, v, dist[queue[0]] + 1)
  {
    var u := queue[0];
    var p :| Leads(g, p, source, u) && |p| == dist[u] + 1;
    Extend(g, p, source, u, v);
    forall q | Leads(g, q, source, v) ensures |q| >= dist[u] + 2 {
      var m := Frontier(g, source, dist, queue, q);
      HeadIsLeast(g, source, dist, queue, q[m]);
    }
  }

  /** The neighbours the inner loop enqueues: those not yet visited, each once, in order. */
  function Fresh<N(==)>(visited: set<N>, neighbours: seq<N>): seq<N> {
    if |neighbours| == 0 then []
    else
      var f, v := Fresh(visited, neighbours[..|neighbours| - 1]), neighbours[|neighbours| - 1];
      if v in visited || v in f then f else f + [v]
  }

  /** The labels after `added` get label d. */
  function Labelled<N(==)>(dist: map<N, nat>, added: seq<N>, d: nat): map<N, nat> {
    map v | v in dist.Keys + (set x | x in added) :: if v in dist then dist[v] else d
  }

  /** l labels, besides the nodes of dist, each new neighbour: those in `added`, with d. */
  ghost predicate Adds<N(!new)>(dist: map<N, nat>, neighbours: seq<N>, d: nat, l: map<N, nat>, added: seq<N>) {
    && Distinct(added)
    && (forall v :: v in added <==> v in neighbours && v !in dist)
    && (forall v :: v in l <==> v in dist || v in added)
    && (forall v :: v in dist ==> l[v] == dist[v])
    && (forall v :: v in added ==> l[v] == d)
    && |l| == |dist| + |added|
  }

  lemma {:induction false} FreshElements<N(!new)>(visited: set<N>, neighbours: seq<N>)
    ensures Distinct(Fresh(visited, neighbours))
    ensures forall v :: v in Fresh(visited, neighbours) <==> v in neighbours && v !in visited
  {
    if |neighbours| > 0 {
      var before, v := neighbours[..|neighbours| - 1], neighbours[|neighbours| - 1];
      assert neighbours == before + [v];
      FreshElements(visited, before);
    }
  }

  /** x occurs before the first y. */
  ghost predicate FirstBefore<N(!new)>(s: seq<N>, x: N, y: N) {
    exists i :: 0 <= i < |s| && s[i] == x && forall j :: 0 <= j <= i ==> s[j] != y
  }

  ghost predicate AsFirstSeen<N(!new)>(s: seq<N>, f: seq<N>) {
    forall a, b :: 0 <= a < b < |f| ==> FirstBefore(s, f[a], f[b])
  }

  lemma FirstBeforeSnoc<N(!new)>(s: seq<N>, x: N, y: N, last: N)
    requires FirstBefore(s, x, y)
    ensures FirstBefore(s + [last], x, y)
  {
    var i :| 0 <= i < |s| && s[i] == x && forall j :: 0 <= j <= i ==> s[j] != y;
    assert (s + [last])[i] == x && forall j :: 0 <= j <= i ==> (s + [last])[j] == s[j];
  }

  lemma NewIsLater<N(!new)>(s: seq<N>, x: N, y: N)
    requires x in s && y !in s
    ensures FirstBefore(s, x, y)
  {
    var i :| 0 <= i < |s| && s[i] == x;
  }

  /** The neighbours are taken in the order in which they first occur. */
  lemma {:induction false} FreshOrder<N(!new)>(visited: set<N>, neighbours: seq<N>)
    ensures AsFirstSeen(neighbours, Fresh(visited, neighbours))
  {
    if |neighbours| > 0 {
      var before, y := neighbours[..|neighbours| - 1], neighbours[|neighbours| - 1];
      var f, f' := Fresh(visited, before), Fresh(visited, neighbours);
      FreshOrder(visited, before);
      FreshElements(visited, before);
      assert neighbours == before + [y];
      forall a, b | 0 <= a < b < |f'| ensures FirstBefore(neighbours, f'[a], f'[b]) {
        assert f'[a] == f[a] && f[a] in f;
        if b < |f| {
          assert FirstBefore(before, f[a], f[b]);
        } else {
          NewIsLater(before, f[a], y);
        }
        FirstBeforeSnoc(before, f'[a], f'[b], y);
      }
    }
  }

  lemma {:induction false} DistinctSize<N(!new)>(s: seq<N>)
    requires Distinct(s)
    ensures |set x | x in s| == |s|
  {
    if |s| > 0 {
      var t, y := s[..|s| - 1], s[|s| - 1];
      assert s == t + [y];
      assert y !in t;
      DistinctSize(t);
      assert (set x | x in s) == (set x | x in t) + {y};
    }
  }

  lemma FreshAdds<N(!new)>(dist: map<N, nat>, neighbours: seq<N>, d: nat)
    ensures var added := Fresh(dist.Keys, neighbours);
            Adds(dist, neighbours, d, Labelled(dist, added, d), added)
  {
    var added := Fresh(dist.Keys, neighbours);
    FreshElements(dist.Keys, neighbours);
    DistinctSize(added);
    var l := Labelled(dist, added, d);
    assert l.Keys == dist.Keys + (set x | x in added);
    assert |dist.Keys + (set x | x in added)| == |dist| + |added|;
  }

  lemma StepExact<N(!new)>(g: Adjacency<N>, source: N, dist: map<N, nat>, queue: seq<N>, l: map<N, nat>, added: seq<N>)
    requires Closed(g) && Layered(g, source, dist, queue) && |queue| > 0
    requires Adds(dist, g[queue[0]], dist[queue[0]] + 1, l, added)
    ensures Exact(g, source, l)
  {
    forall v | v in l ensures AtDistance(g, source, v, l[v]) && v in g {
      if v in added { NewLabel(g, source, dist, queue, v); }
    }
  }

  lemma HeadKnown<N(!new)>(g: Adjacency<N>, source: N, dist: map<N, nat>, queue: seq<N>)
    requires Layered(g, source, dist, queue) && |queue| > 0
    ensures queue[0] in g && queue[0] in dist
  {
    assert queue[0] in queue;
  }

  lemma StepOrder<N(!new)>(dist: map<N, nat>, rest: seq<N>, u: N, l: map<N, nat>, added: seq<N>, d: nat)
    requires u in dist && d == dist[u] + 1
    requires forall v :: v in rest ==> v in dist && v in l && l[v] == dist[v] && dist[u] <= dist[v] <= d
    requires forall v :: v in added ==> v in l && l[v] == d
    requires forall a, b :: 0 <= a <= b < |rest| ==> dist[rest[a]] <= dist[rest[b]]
    ensures var q := rest + added;
            forall a, b :: 0 <= a <= b < |q| ==> l[q[a]] <= l[q[b]]
  {
    var q := rest + added;
    forall a, b | 0 <= a <= b < |q| ensures l[q[a]] <= l[q[b]] {
      assert a < |rest| ==> q[a] in rest;
      assert a >= |rest| ==> q[a] in added;
      assert b < |rest| ==> q[b] in rest;
      assert b >= |rest| ==> q[b] in added;
    }
  }

  /** Everything behind the head differs from it and is labelled no less. */
  lemma BehindHead<N(!new)>(dist: map<N, nat>, queue: seq<N>)
    requires Queued(dist, queue) && |queue| > 0
    ensures Distinct(queue[1..]) && queue[0] !in queue[1..]
    ensures forall v :: v in queue[1..] ==> v in queue && v in dist && dist[queue[0]] <= dist[v] <= dist[queue[0]] + 1
    ensures forall a, b :: 0 <= a <= b < |queue| - 1 ==> dist[queue[1..][a]] <= dist[queue[1..][b]]
    ensures forall v :: v in dist ==> v in queue[1..] || dist[v] <= dist[queue[0]]
  {
    var u, rest := queue[0], queue[1..];
    assert queue == [u] + rest;
    forall i, j | 0 <= i < j < |rest| ensures rest[i] != rest[j] {
      assert queue[i + 1] != queue[j + 1];
    }
    forall v | v in rest ensures v != u && v in dist && dist[u] <= dist[v] {
      var k :| 0 <= k < |rest| && rest[k] == v;
      assert queue[0] != queue[k + 1] && dist[queue[0]] <= dist[queue[k + 1]];
    }
    forall v | v in dist && v !in rest ensures dist[v] <= dist[u] {
      assert v == u || v !in queue;
    }
  }

  lemma DistinctJoin<N(!new)>(a: seq<N>, b: seq<N>)
    requires Distinct(a) && Distinct(b) && forall v :: v in b ==> v !in a
    ensures Distinct(a + b)
  {
    forall i, j | 0 <= i < j < |a + b| ensures (a + b)[i] != (a + b)[j] {
      if i < |a| <= j {
        assert b[j - |a|] in b && a[i] in a;
      }
    }
  }

  lemma StepQueued<N(!new)>(dist: map<N, nat>, queue: seq<N>, neighbours: seq<N>, l: map<N, nat>, added: seq<N>)
    requires Queued(dist, queue) && |queue| > 0
    requires Adds(dist, neighbours, dist[queue[0]] + 1, l, added)
    ensures queue[0] !in queue[1..] + added
    ensures Queued(l, queue[1..] + added)
  {
    var u, rest := queue[0], queue[1..];
    var q := rest + added;
    BehindHead(dist, queue);
    DistinctJoin(rest, added);
    StepOrder(dist, rest, u, l, added, dist[u] + 1);
    if |q| > 0 {
      assert q[0] in rest || q[0] in added;
      assert dist[u] <= l[q[0]];
      forall v | v in l ensures l[v] <= l[q[0]] + (if v in q then 1 else 0) {
        if v !in q {
          assert v !in rest && v in dist;
        }
      }
    }
    QueuedIntro(l, q);
  }

  lemma QueuedIntro<N(!new)>(dist: map<N, nat>, queue: seq<N>)
    requires Distinct(queue)
    requires forall q :: q in queue ==> q in dist
    requires forall a, b :: 0 <= a <= b < |queue| ==> dist[queue[a]] <= dist[queue[b]]
    requires |queue| > 0 ==> forall v :: v in dist ==> dist[v] <= dist[queue[0]] + (if v in queue then 1 else 0)
    ensures Queued(dist, queue)
  {
  }

  lemma StepSettled<N(!new)>(g: Adjacency<N>, dist: map<N, nat>, queue: seq<N>, l: map<N, nat>, added: seq<N>)
    requires dist.Keys <= g.Keys && l.Keys <= g.Keys && Queued(dist, queue) && Settled(g, dist, queue) && |queue| > 0
    requires Adds(dist, g[queue[0]], dist[queue[0]] + 1, l, added)
    ensures Settled(g, l, queue[1..] + added)
  {
    var u, rest := queue[0], queue[1..];
    assert queue == [u] + rest;
    forall x | x in l && x !in rest + added ensures SettledAt(g, l, x) {
      assert x in dist;
      if x != u {
        assert x !in queue;
        assert SettledAt(g, dist, x);
      }
    }
  }

  lemma StepParts<N(!new)>(g: Adjacency<N>, source: N, dist: map<N, nat>, queue: seq<N>, l: map<N, nat>, added: seq<N>)
    requires Closed(g) && Layered(g, source, dist, queue) && |queue| > 0
    requires Adds(dist, g[queue[0]], dist[queue[0]] + 1, l, added)
    ensures Layered(g, source, l, queue[1..] + added)
  {
    StepExact(g, source, dist, queue, l, added);
    StepQueued(dist, queue, g[queue[0]], l, added);
    StepSettled(g, dist, queue, l, added);
  }

  /** One round of the outer loop keeps the layers. */
  lemma RoundLayered<N(!new)>(g: Adjacency<N>, source: N, dist: map<N, nat>, queue: seq<N>)
    requires Closed(g) && Layered(g, source, dist, queue) && |queue| > 0
    ensures queue[0] in g && queue[0] in dist
    ensures var added := Fresh(dist.Keys, g[queue[0]]);
            Layered(g, source, Labelled(dist, added, dist[queue[0]] + 1), queue[1..] + added)
  {
    HeadKnown(g, source, dist, queue);
    FreshAdds(dist, g[queue[0]], dist[queue[0]] + 1);
    var added := Fresh(dist.Keys, g[queue[0]]);
    StepParts(g, source, dist, queue, Labelled(dist, added, dist[queue[0]] + 1), added);
  }

  lemma InitialLayered<N(!new)>(g: Adjacency<N>, source: N)
    requires source in g
    ensures Layered(g, source, map[source := 0], [source])
  {
    assert Leads(g, [source], source, source);
  }
}
