/** The two Union-Find structures of topology.py: `find` with path halving,
    `union` by rank (persistence) and without ranks (pruning). */
module UnionFind {
  import opened Arithmetic
  import opened FiniteSets

  /** Parent links stay in range and strictly climb the heights `h`. */
  ghost predicate Forest(p: seq<nat>, h: seq<nat>) {
    && |h| == |p|
    && (forall x :: 0 <= x < |p| ==> p[x] < |p|)
    && (forall x :: 0 <= x < |p| && p[x] != x ==> h[x] < h[p[x]])
  }

  ghost function Peak(h: seq<nat>): (m: nat)
    ensures forall x :: 0 <= x < |h| ==> h[x] <= m
  {
    if |h| == 0 then 0
    else
      var m := Peak(h[..|h| - 1]);
      assert forall x :: 0 <= x < |h| - 1 ==> h[x] == h[..|h| - 1][x];
      if m < h[|h| - 1] then h[|h| - 1] else m
  }

  ghost function Root(p: seq<nat>, h: seq<nat>, x: nat): (r: nat)
    requires Forest(p, h) && x < |p|
    ensures r < |p| && p[r] == r && h[x] <= h[r]
    decreases Peak(h) - h[x]
  {
    if p[x] == x then x else Root(p, h, p[x])
  }

  /** The number of links from x up to its root. */
  ghost function Depth(p: seq<nat>, h: seq<nat>, x: nat): (d: nat)
    requires Forest(p, h) && x < |p|
    ensures d <= h[Root(p, h, x)] - h[x]
    decreases Peak(h) - h[x]
  {
    if p[x] == x then 0 else 1 + Depth(p, h, p[x])
  }

  /** The parents after `find(x)`: every second vertex of the walk skips its parent. */
  ghost function Halve(p: seq<nat>, h: seq<nat>, x: nat): (q: seq<nat>)
    requires Forest(p, h) && x < |p|
    ensures |q| == |p| && Forest(q, h)
    decreases Peak(h) - h[x]
  {
    if p[x] == x then p else Halve(p[x := p[p[x]]], h, p[p[x]])
  }

  // ---- find: roots are kept, depths shrink ----

  lemma {:induction false} SkipKeepsRoot(p: seq<nat>, h: seq<nat>, x: nat, y: nat)
    requires Forest(p, h) && x < |p| && y < |p|
    ensures Root(p[x := p[p[x]]], h, y) == Root(p, h, y)
    ensures Depth(p[x := p[p[x]]], h, y) <= Depth(p, h, y)
    decreases Peak(h) - h[y]
  {
    if p[y] != y {
      SkipKeepsRoot(p, h, x, p[y]);
      if y == x && p[p[x]] != p[x] {
        SkipKeepsRoot(p, h, x, p[p[x]]);
      }
    }
  }

  /** `find` changes no element's root and deepens no element. */
  lemma {:induction false} HalveKeepsRoot(p: seq<nat>, h: seq<nat>, x: nat, y: nat)
    requires Forest(p, h) && x < |p| && y < |p|
    ensures Root(Halve(p, h, x), h, y) == Root(p, h, y)
    ensures Depth(Halve(p, h, x), h, y) <= Depth(p, h, y)
    ensures Halve(p, h, x)[y] == y <==> p[y] == y
    decreases Peak(h) - h[x]
  {
    if p[x] != x {
      SkipKeepsRoot(p, h, x, y);
      HalveKeepsRoot(p[x := p[p[x]]], h, p[p[x]], y);
    }
  }

  lemma {:induction false} SkipBelow(p: seq<nat>, h: seq<nat>, x: nat, y: nat)
    requires Forest(p, h) && x < |p| && y < |p| && h[x] < h[y]
    ensures Depth(p[x := p[p[x]]], h, y) == Depth(p, h, y)
    decreases Peak(h) - h[y]
  {
    if p[y] != y {
      SkipBelow(p, h, x, p[y]);
    }
  }

  lemma {:induction false} HalveLeavesBelow(p: seq<nat>, h: seq<nat>, x: nat, y: nat)
    requires Forest(p, h) && x < |p| && y < |p| && h[y] < h[x]
    ensures Halve(p, h, x)[y] == p[y]
    decreases Peak(h) - h[x]
  {
    if p[x] != x {
      HalveLeavesBelow(p[x := p[p[x]]], h, p[p[x]], y);
    }
  }

  /** Path halving: one `find(x)` halves the depth of x, rounding up. */
  lemma {:induction false} HalveHalvesDepth(p: seq<nat>, h: seq<nat>, x: nat)
    requires Forest(p, h) && x < |p|
    ensures Depth(Halve(p, h, x), h, x) == (Depth(p, h, x) + 1) / 2
    decreases Peak(h) - h[x]
  {
    if p[x] != x {
      var y := p[p[x]];
      var q := p[x := y];
      HalveHalvesDepth(q, h, y);
      SkipBelow(p, h, x, y);
      HalveLeavesBelow(q, h, y, x);
    }
  }

  method Find(parent: array<nat>, ghost h: seq<nat>, x: nat) returns (r: nat, ghost steps: nat)
    requires Forest(parent[..], h) && x < parent.Length
    modifies parent
    ensures parent[..] == Halve(old(parent[..]), h, x)
    ensures r == Root(old(parent[..]), h, x)
    ensures steps == (Depth(old(parent[..]), h, x) + 1) / 2
  {
    ghost var p := parent[..];
    var y: nat := x;
    steps := 0;
    while parent[y] != y
      invariant y < parent.Length && Forest(parent[..], h)
      invariant Halve(parent[..], h, y) == Halve(p, h, x)
      invariant Root(parent[..], h, y) == Root(p, h, x)
      invariant steps + (Depth(parent[..], h, y) + 1) / 2 == (Depth(p, h, x) + 1) / 2
      decreases Peak(h) - h[y]
    {
      ghost var q := parent[..];
      SkipKeepsRoot(q, h, y, q[q[y]]);
      SkipBelow(q, h, y, q[q[y]]);
      parent[y] := parent[parent[y]];
      assert parent[..] == q[y := q[q[y]]];
      y := parent[y];
      steps := steps + 1;
    }
    r := y;
  }

  // ---- linking two roots ----

  lemma {:induction false} RootIgnoresHeights(p: seq<nat>, h: seq<nat>, g: seq<nat>, x: nat)
    requires Forest(p, h) && Forest(p, g) && x < |p|
    ensures Root(p, h, x) == Root(p, g, x)
    decreases Peak(h) - h[x]
  {
    if p[x] != x {
      RootIgnoresHeights(p, h, g, p[x]);
    }
  }

  /** g is h with the winner lifted just above the loser. */
  ghost predicate Lifted(h: seq<nat>, g: seq<nat>, winner: nat, loser: nat) {
    && winner < |h| && loser < |h| == |g|
    && g == h[winner := g[winner]]
    && h[winner] <= g[winner] && h[loser] < g[winner]
  }

  lemma {:induction false} LinkRoot(p: seq<nat>, h: seq<nat>, g: seq<nat>, winner: nat, loser: nat, x: nat)
    requires Forest(p, h) && x < |p| && Lifted(h, g, winner, loser)
    requires winner != loser && p[winner] == winner && p[loser] == loser
    ensures Forest(p[loser := winner], g)
    ensures Root(p[loser := winner], g, x) == if Root(p, h, x) == loser then winner else Root(p, h, x)
    decreases Peak(h) - h[x]
  {
    if p[x] != x {
      LinkRoot(p, h, g, winner, loser, p[x]);
    }
  }

  /** x and y are in one set. */
  ghost predicate Same(p: seq<nat>, h: seq<nat>, x: nat, y: nat)
    requires Forest(p, h) && x < |p| && y < |p|
  {
    Root(p, h, x) == Root(p, h, y)
  }

  /** The partition of (q, g) is that of (p, h) with the sets of x and y united. */
  ghost predicate United(p: seq<nat>, h: seq<nat>, q: seq<nat>, g: seq<nat>, x: nat, y: nat)
    requires Forest(p, h) && Forest(q, g) && |q| == |p| && x < |p| && y < |p|
  {
    forall a: nat, b: nat :: a < |p| && b < |p| ==>
      (Same(q, g, a, b) <==>
        || Same(p, h, a, b)
        || (Same(p, h, a, x) && Same(p, h, y, b))
        || (Same(p, h, a, y) && Same(p, h, x, b)))
  }

  ghost function Roots(p: seq<nat>): set<nat> {
    set r: nat | r < |p| && p[r] == r
  }

  lemma LinkUnites(p: seq<nat>, h: seq<nat>, g: seq<nat>, winner: nat, loser: nat, x: nat, y: nat)
    requires Forest(p, h) && Lifted(h, g, winner, loser) && x < |p| && y < |p|
    requires winner != loser && p[winner] == winner && p[loser] == loser
    requires {Root(p, h, x), Root(p, h, y)} == {winner, loser}
    ensures Forest(p[loser := winner], g)
    ensures United(p, h, p[loser := winner], g, x, y)
    ensures Roots(p[loser := winner]) == Roots(p) - {loser} && loser in Roots(p)
  {
    var rx, ry := Root(p, h, x), Root(p, h, y);
    assert rx in {winner, loser} && ry in {winner, loser};
    assert winner in {rx, ry} && loser in {rx, ry};
    LinkRoot(p, h, g, winner, loser, x);
    LinkRoots(p, winner, loser);
    hide Root, Forest, Roots;
    forall a: nat | a < |p| {
      LinkRoot(p, h, g, winner, loser, a);
    }
  }

  lemma LinkRoots(p: seq<nat>, winner: nat, loser: nat)
    requires winner < |p| && loser < |p| && winner != loser && p[loser] == loser
    ensures Roots(p[loser := winner]) == Roots(p) - {loser} && loser in Roots(p)
  {
  }

  // ---- rank and logarithmic depth ----

  ghost function Members(p: seq<nat>, h: seq<nat>, r: nat): set<nat>
    requires Forest(p, h)
  {
    set x: nat | x < |p| && Root(p, h, x) == r
  }

  /** A root of rank k has at least 2^k members. */
  ghost predicate Balanced(p: seq<nat>, h: seq<nat>)
    requires Forest(p, h)
  {
    forall r: nat {:trigger Members(p, h, r)} :: r < |p| && p[r] == r ==> Pow2(h[r]) <= |Members(p, h, r)|
  }

  ghost predicate Ranked(p: seq<nat>, h: seq<nat>) {
    Forest(p, h) && Balanced(p, h)
  }

  /** Every walk of `find` is at most log2(n) links long. */
  lemma LogarithmicDepth(p: seq<nat>, h: seq<nat>, x: nat)
    requires Ranked(p, h) && x < |p|
    ensures Pow2(Depth(p, h, x)) <= |p|
  {
    var r := Root(p, h, x);
    Pow2Monotone(Depth(p, h, x), h[r]);
    SubsetSize(Members(p, h, r), Vertices(|p|));
  }

  lemma HalveKeepsBalance(p: seq<nat>, h: seq<nat>, x: nat)
    requires Ranked(p, h) && x < |p|
    ensures Ranked(Halve(p, h, x), h)
  {
    var q := Halve(p, h, x);
    forall y: nat | y < |p| { HalveKeepsRoot(p, h, x, y); }
    forall r: nat | r < |q| && q[r] == r ensures Pow2(h[r]) <= |Members(q, h, r)| {
      assert Members(q, h, r) == Members(p, h, r);
    }
  }

  lemma LinkMembers(p: seq<nat>, h: seq<nat>, g: seq<nat>, winner: nat, loser: nat)
    requires Forest(p, h) && Lifted(h, g, winner, loser)
    requires winner != loser && p[winner] == winner && p[loser] == loser
    ensures Forest(p[loser := winner], g)
    ensures Members(p[loser := winner], g, winner) == Members(p, h, winner) + Members(p, h, loser)
    ensures forall r: nat :: r != winner && r != loser ==>
                               Members(p[loser := winner], g, r) == Members(p, h, r)
  {
    LinkRoot(p, h, g, winner, loser, winner);
    forall x: nat | x < |p| { LinkRoot(p, h, g, winner, loser, x); }
  }

  lemma LinkKeepsBalance(p: seq<nat>, h: seq<nat>, g: seq<nat>, winner: nat, loser: nat)
    requires Ranked(p, h) && Lifted(h, g, winner, loser)
    requires winner != loser && p[winner] == winner && p[loser] == loser && h[loser] <= h[winner]
    requires g[winner] == if h[winner] == h[loser] then h[winner] + 1 else h[winner]
    ensures Ranked(p[loser := winner], g)
  {
    var q := p[loser := winner];
    LinkMembers(p, h, g, winner, loser);
    var a, b := Members(p, h, winner), Members(p, h, loser);
    assert a !! b;
    assert forall r :: 0 <= r < |q| && q[r] == r ==> r != loser && p[r] == r;
    hide Members, Forest;
    assert |a + b| == |a| + |b|;
    assert Pow2(h[winner]) <= |a| && Pow2(h[loser]) <= |b|;
    assert Pow2(g[winner]) <= |a + b|;
    forall r: nat | r < |q| && q[r] == r ensures Pow2(g[r]) <= |Members(q, g, r)| {
      if r != winner {
        assert g[r] == h[r];
        assert Members(q, g, r) == Members(p, h, r);
      }
    }
  }

  /** Path halving is invisible to the partition. */
  lemma HalveKeepsSame(p: seq<nat>, h: seq<nat>, x: nat)
    requires Forest(p, h) && x < |p|
    ensures Roots(Halve(p, h, x)) == Roots(p)
    ensures forall a: nat :: a < |p| ==> Root(Halve(p, h, x), h, a) == Root(p, h, a)
  {
    forall a: nat | a < |p| { HalveKeepsRoot(p, h, x, a); }
  }

  /** Two `find` calls in a row. */
  lemma HalveTwice(p: seq<nat>, h: seq<nat>, x: nat, y: nat)
    requires Forest(p, h) && x < |p| && y < |p|
    ensures var q := Halve(Halve(p, h, x), h, y);
            && Roots(q) == Roots(p)
            && (forall a: nat :: a < |p| ==> Root(q, h, a) == Root(p, h, a))
            && (Ranked(p, h) ==> Ranked(q, h))
  {
    HalveKeepsSame(p, h, x);
    HalveKeepsSame(Halve(p, h, x), h, y);
    if Ranked(p, h) {
      HalveKeepsBalance(p, h, x);
      HalveKeepsBalance(Halve(p, h, x), h, y);
    }
  }

  /** `United` only looks at roots. */
  lemma UnitedFrom(p: seq<nat>, p2: seq<nat>, h: seq<nat>, q: seq<nat>, g: seq<nat>, x: nat, y: nat)
    requires Forest(p, h) && Forest(p2, h) && Forest(q, g) && |q| == |p| == |p2| && x < |p| && y < |p|
    requires forall a: nat :: a < |p| ==> Root(p2, h, a) == Root(p, h, a)
    requires United(p2, h, q, g, x, y)
    ensures United(p, h, q, g, x, y)
  {
  }

  /** Hangs the root of lower rank below the other; equal ranks lift the winner. */
  method LinkByRank(parent: array<nat>, rank: array<nat>, rx: nat, ry: nat)
    returns (ghost winner: nat, ghost loser: nat)
    requires parent != rank && rx < parent.Length && ry < parent.Length && rx != ry
    requires Ranked(parent[..], rank[..]) && parent[rx] == rx && parent[ry] == ry
    modifies parent, rank
    ensures (winner, loser) == if old(rank[rx]) < old(rank[ry]) then (ry, rx) else (rx, ry)
    ensures parent[..] == old(parent[..])[loser := winner]
    ensures Lifted(old(rank[..]), rank[..], winner, loser)
    ensures Ranked(parent[..], rank[..])
  {
    ghost var p, h := parent[..], rank[..];
    var x, y := rx, ry;
    if rank[x] < rank[y] {
      x, y := y, x;
    }
    winner, loser := x, y;
    parent[y] := x;
    if rank[x] == rank[y] {
      rank[x] := rank[x] + 1;
    }
    assert parent[..] == p[y := x];
    LinkKeepsBalance(p, h, rank[..], x, y);
  }

  method Union(parent: array<nat>, rank: array<nat>, x: nat, y: nat) returns (merged: bool)
    requires parent != rank && x < parent.Length && y < parent.Length
    requires Ranked(parent[..], rank[..])
    modifies parent, rank
    ensures Ranked(parent[..], rank[..])
    ensures merged <==> !Same(old(parent[..]), old(rank[..]), x, y)
    ensures United(old(parent[..]), old(rank[..]), parent[..], rank[..], x, y)
    ensures |Roots(parent[..])| == |Roots(old(parent[..]))| - (if merged then 1 else 0)
  {
    ghost var p, h := parent[..], rank[..];
    var rx, _ := Find(parent, h, x);
    HalveKeepsSame(p, h, x);
    var ry, _ := Find(parent, h, y);
    HalveTwice(p, h, x, y);
    ghost var p2 := parent[..];
    if rx == ry {
      return false;
    }
    var winner, loser := LinkByRank(parent, rank, rx, ry);
    LinkUnites(p2, h, rank[..], winner, loser, x, y);
    UnitedFrom(p, p2, h, parent[..], rank[..], x, y);
    return true;
  }

  /** The rankless twin; `g` witnesses that the links still form a forest. */
  method PlainUnion(parent: array<nat>, ghost h: seq<nat>, x: nat, y: nat) returns (merged: bool, ghost g: seq<nat>)
    requires Forest(parent[..], h) && x < parent.Length && y < parent.Length
    modifies parent
    ensures Forest(parent[..], g)
    ensures merged <==> !Same(old(parent[..]), h, x, y)
    ensures United(old(parent[..]), h, parent[..], g, x, y)
  {
    ghost var p := parent[..];
    var rx, _ := Find(parent, h, x);
    HalveKeepsSame(p, h, x);
    var ry, _ := Find(parent, h, y);
    HalveTwice(p, h, x, y);
    ghost var p2 := parent[..];
    if rx == ry {
      return false, h;
    }
    parent[ry] := rx;
    g := h[rx := if h[ry] < h[rx] then h[rx] else h[ry] + 1];
    assert parent[..] == p2[ry := rx];
    LinkUnites(p2, h, g, rx, ry, x, y);
    UnitedFrom(p, p2, h, parent[..], g, x, y);
    return true, g;
  }
}
