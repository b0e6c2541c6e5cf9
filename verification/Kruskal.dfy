/** The algorithm of topology.py:157-216: Kruskal's loop over Union-Find, proved
    against Persistence. */
module Kruskal {
  import opened Arithmetic
  import opened Connectivity
  import opened Diagrams
  import opened FiniteSets
  import opened Persistence
  import opened Sorting
  import opened UnionFind

  lemma InitialRanked(p: seq<nat>, h: seq<nat>)
    requires |h| == |p| && forall x :: 0 <= x < |p| ==> p[x] == x && h[x] == 0
    ensures Ranked(p, h)
    ensures forall a: nat, b: nat :: a < |p| && b < |p| ==> (Same(p, h, a, b) <==> a == b)
    ensures |Roots(p)| == |p|
  {
    forall r: nat | r < |p| && p[r] == r ensures Pow2(h[r]) <= |Members(p, h, r)| {
      assert Members(p, h, r) == {r};
    }
    assert Roots(p) == Vertices(|p|);
  }

  /** "In one set" is "connected by the edges E". */
  ghost predicate Tracks(p: seq<nat>, h: seq<nat>, E: set<Pair>)
    requires Forest(p, h)
  {
    forall a: nat, b: nat :: a < |p| && b < |p| ==> (Same(p, h, a, b) <==> Connected(E, a, b))
  }

  lemma InitialTracks(p: seq<nat>, h: seq<nat>, E: set<Pair>)
    requires |h| == |p| && forall x :: 0 <= x < |p| ==> p[x] == x && h[x] == 0
    requires E == {}
    ensures Ranked(p, h) && |Roots(p)| == |p|
    ensures Tracks(p, h, E)
  {
    InitialRanked(p, h);
    forall a: nat, b: nat { EmptyConnects(E, a, b); }
  }

  /** One union keeps "same set iff connected". */
  lemma UnionTracks(E: set<Pair>, p: seq<nat>, h: seq<nat>, q: seq<nat>, g: seq<nat>, x: nat, y: nat)
    requires Forest(p, h) && Forest(q, g) && |q| == |p| && x < |p| && y < |p|
    requires Tracks(p, h, E) && United(p, h, q, g, x, y)
    ensures Tracks(q, g, E + {(x, y)})
  {
    forall a: nat, b: nat | a < |q| && b < |q|
      ensures Same(q, g, a, b) <==> Connected(E + {(x, y)}, a, b)
    {
      AddEdge(E, x, y, a, b);
    }
  }

  method EdgeList(d: Matrix) returns (es: seq<Triple>)
    requires Square(d)
    ensures Filtration(d, es)
  {
    var n := |d|;
    es := [];
    for i := 0 to n
      invariant Distinct(es)
      invariant forall e :: e in es <==> IsEdge(d, e) && e.i < i
    {
      for j := i + 1 to n
        invariant Distinct(es)
        invariant forall e :: e in es <==> IsEdge(d, e) && (e.i < i || (e.i == i && e.j < j))
      {
        es := es + [Triple(d[i][j], i, j)];
      }
    }
    SortTriplesCorrect(es);
    es := SortTriples(es);
  }

  method MergeEdge(ghost seen: seq<Triple>, e: Triple, parent: array<nat>, rank: array<nat>) returns (merged: bool)
    requires parent != rank && e.i < parent.Length && e.j < parent.Length
    requires Ranked(parent[..], rank[..]) && Tracks(parent[..], rank[..], Pairs(seen))
    modifies parent, rank
    ensures Ranked(parent[..], rank[..]) && Tracks(parent[..], rank[..], Pairs(seen + [e]))
    ensures merged <==> !Connected(Pairs(seen), e.i, e.j)
    ensures |Roots(parent[..])| == |Roots(old(parent[..]))| - (if merged then 1 else 0)
  {
    ghost var p, h := parent[..], rank[..];
    merged := Union(parent, rank, e.i, e.j);
    UnionTracks(Pairs(seen), p, h, parent[..], rank[..], e.i, e.j);
    PairsSnoc(seen, e);
  }

  method MergeLoop(edges: seq<Triple>, parent: array<nat>, rank: array<nat>) returns (h0: seq<Bar>)
    requires parent != rank && InRange(parent.Length, edges)
    requires Ranked(parent[..], rank[..]) && Tracks(parent[..], rank[..], {})
    modifies parent, rank
    ensures Ranked(parent[..], rank[..]) && Tracks(parent[..], rank[..], Pairs(edges))
    ensures h0 == MergeBars(Kept(edges))
    ensures |Roots(parent[..])| + |h0| == |Roots(old(parent[..]))|
  {
    h0 := [];
    assert Pairs(edges[..0]) == {};
    for k := 0 to |edges|
      invariant Ranked(parent[..], rank[..]) && Tracks(parent[..], rank[..], Pairs(edges[..k]))
      invariant h0 == MergeBars(Kept(edges[..k]))
      invariant |Roots(parent[..])| + |h0| == |Roots(old(parent[..]))|
    {
      var e := edges[k];
      assert e in edges;
      assert edges[..k + 1] == edges[..k] + [e];
      assert edges[..k + 1][..k] == edges[..k];
      hide Ranked, Tracks, Connected, Roots, Pairs;
      var merged := MergeEdge(edges[..k], e, parent, rank);
      if merged {
        h0 := h0 + [Bar(0.0, e.w)];
      }
    }
    assert edges[..|edges|] == edges;
  }

  /** How many of the vertices below i are roots. */
  ghost function RootCount(p: seq<nat>, i: nat): nat
    requires i <= |p|
  {
    if i == 0 then 0 else RootCount(p, i - 1) + (if p[i - 1] == i - 1 then 1 else 0)
  }

  lemma {:induction false} RootCountSize(p: seq<nat>, i: nat, R: set<nat>)
    requires i <= |p| && forall r: nat :: r in R <==> r < i && p[r] == r
    ensures |R| == RootCount(p, i)
  {
    if i == 0 {
      assert R == {};
    } else {
      RootCountSize(p, i - 1, R - {i - 1});
    }
  }

  method EssentialLoop(parent: array<nat>, ghost h: seq<nat>, maxDist: real) returns (bars: seq<Bar>)
    requires Forest(parent[..], h)
    modifies parent
    ensures bars == seq(|Roots(old(parent[..]))|, _ => Bar(0.0, maxDist))
  {
    bars := [];
    ghost var p0 := parent[..];
    for i := 0 to parent.Length
      invariant Forest(parent[..], h) && Roots(parent[..]) == Roots(p0)
      invariant bars == seq(RootCount(p0, i), _ => Bar(0.0, maxDist))
    {
      ghost var p := parent[..];
      var r, _ := Find(parent, h, i);
      HalveKeepsSame(p, h, i);
      assert r == i <==> i in Roots(p);
      assert i in Roots(p0) <==> p0[i] == i;
      hide Root, Halve, Roots;
      if r == i {
        bars := bars + [Bar(0.0, maxDist)];
      }
    }
    RootCountSize(p0, parent.Length, Roots(p0));
  }

  /** The diagram is that of the nearest-first merges, and describes the components at every scale. */
  method SimplePersistence(d: Matrix) returns (h0: seq<Bar>)
    requires Square(d)
    ensures IsH0(d, h0) && Describes(d, h0)
  {
    var n := |d|;
    var edges := EdgeList(d);
    var parent := new nat[n](i => i);
    var rank := new nat[n](_ => 0);
    InitialTracks(parent[..], rank[..], {});
    h0 := MergeLoop(edges, parent, rank);
    if n > 0 {
      BarCount(d, edges);
    }
    var maxDist := if n > 0 then MaxEntry(d) * 1.5 else 1.0;
    var bars := EssentialLoop(parent, rank[..], maxDist);
    h0 := h0 + bars;
    assert IsH0(d, h0);
    hide *;
    H0Describes(d, h0);
  }
}
