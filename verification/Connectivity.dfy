/** Undirected connectivity and component counts over vertices 0..n-1. */
module Connectivity {
  import opened FiniteSets

  type Pair = (nat, nat)

  ghost predicate Adjacent(E: set<Pair>, x: nat, y: nat) {
    (x, y) in E || (y, x) in E
  }

  ghost predicate IsPath(E: set<Pair>, p: seq<nat>) {
    |p| > 0 && forall k :: 0 <= k < |p| - 1 ==> Adjacent(E, p[k], p[k + 1])
  }

  ghost predicate Joins(E: set<Pair>, p: seq<nat>, x: nat, y: nat) {
    IsPath(E, p) && p[0] == x && p[|p| - 1] == y
  }

  ghost predicate Connected(E: set<Pair>, x: nat, y: nat) {
    exists p :: Joins(E, p, x, y)
  }

  lemma Reflexive(E: set<Pair>, x: nat)
    ensures Connected(E, x, x)
  {
    assert Joins(E, [x], x, x);
  }

  lemma Symmetric(E: set<Pair>, x: nat, y: nat)
    requires Connected(E, x, y)
    ensures Connected(E, y, x)
  {
    var p :| Joins(E, p, x, y);
    var q := seq(|p|, i requires 0 <= i < |p| => p[|p| - 1 - i]);
    forall k | 0 <= k < |q| - 1 ensures Adjacent(E, q[k], q[k + 1]) {
      assert Adjacent(E, p[|p| - 2 - k], p[|p| - 2 - k + 1]);
    }
    assert Joins(E, q, y, x);
  }

  lemma Transitive(E: set<Pair>, x: nat, y: nat, z: nat)
    requires Connected(E, x, y) && Connected(E, y, z)
    ensures Connected(E, x, z)
  {
    var p :| Joins(E, p, x, y);
    var q :| Joins(E, q, y, z);
    var r := p + q[1..];
    forall k | 0 <= k < |r| - 1 ensures Adjacent(E, r[k], r[k + 1]) {
      if k < |p| - 1 {
        assert Adjacent(E, p[k], p[k + 1]);
      } else {
        assert Adjacent(E, q[k - |p| + 1], q[k - |p| + 1 + 1]);
      }
    }
    assert Joins(E, r, x, z);
  }

  lemma EdgeConnects(E: set<Pair>, x: nat, y: nat)
    requires Adjacent(E, x, y)
    ensures Connected(E, x, y)
  {
    assert Joins(E, [x, y], x, y);
  }

  lemma Monotone(E: set<Pair>, F: set<Pair>, x: nat, y: nat)
    requires E <= F && Connected(E, x, y)
    ensures Connected(F, x, y)
  {
    var p :| Joins(E, p, x, y);
    forall k | 0 <= k < |p| - 1 ensures Adjacent(F, p[k], p[k + 1]) {
      assert Adjacent(E, p[k], p[k + 1]);
    }
    assert Joins(F, p, x, y);
  }

  /** Connected after the edge u-v is added. */
  ghost predicate Via(E: set<Pair>, u: nat, v: nat, x: nat, y: nat) {
    || Connected(E, x, y)
    || (Connected(E, x, u) && Connected(E, v, y))
    || (Connected(E, x, v) && Connected(E, u, y))
  }

  lemma {:induction false} PathVia(E: set<Pair>, u: nat, v: nat, p: seq<nat>)
    requires IsPath(E + {(u, v)}, p)
    ensures Via(E, u, v, p[0], p[|p| - 1])
  {
    Reflexive(E, p[0]);
    Reflexive(E, u);
    Reflexive(E, v);
    if |p| > 1 {
      var x, z, y := p[0], p[|p| - 2], p[|p| - 1];
      var q := p[..|p| - 1];
      assert forall k :: 0 <= k < |q| - 1 ==> Adjacent(E + {(u, v)}, q[k], q[k + 1]) by {
        forall k | 0 <= k < |q| - 1 ensures Adjacent(E + {(u, v)}, q[k], q[k + 1]) {
          assert Adjacent(E + {(u, v)}, p[k], p[k + 1]);
        }
      }
      PathVia(E, u, v, q);
      var k := |p| - 2;
      assert Adjacent(E + {(u, v)}, p[k], p[k + 1]);
      if Adjacent(E, z, y) {
        EdgeConnects(E, z, y);
        if Connected(E, x, z) { Transitive(E, x, z, y); }
        if Connected(E, v, z) { Transitive(E, v, z, y); }
        if Connected(E, u, z) { Transitive(E, u, z, y); }
      }
    }
  }

  lemma AddEdge(E: set<Pair>, u: nat, v: nat, x: nat, y: nat)
    ensures Connected(E + {(u, v)}, x, y) <==> Via(E, u, v, x, y)
  {
    var F := E + {(u, v)};
    if Connected(F, x, y) {
      var p :| Joins(F, p, x, y);
      PathVia(E, u, v, p);
    }
    if Via(E, u, v, x, y) {
      EdgeConnects(F, u, v);
      EdgeConnects(F, v, u);
      if Connected(E, x, y) {
        Monotone(E, F, x, y);
      } else if Connected(E, x, u) && Connected(E, v, y) {
        Monotone(E, F, x, u);
        Monotone(E, F, v, y);
        Transitive(F, x, u, v);
        Transitive(F, x, v, y);
      } else {
        Monotone(E, F, x, v);
        Monotone(E, F, u, y);
        Transitive(F, x, v, u);
        Transitive(F, x, u, y);
      }
    }
  }

  lemma PathHasEdge(E: set<Pair>, p: seq<nat>)
    requires IsPath(E, p) && |p| > 1
    ensures E != {}
  {
    assert Adjacent(E, p[0], p[0 + 1]);
  }

  lemma EmptyConnects(E: set<Pair>, x: nat, y: nat)
    requires E == {}
    ensures Connected(E, x, y) <==> x == y
  {
    Reflexive(E, x);
    if Connected(E, x, y) {
      var p :| Joins(E, p, x, y);
      if |p| > 1 {
        PathHasEdge(E, p);
      }
    }
  }

  // ---- counting components by their least vertices ----

  ghost predicate IsLeast(E: set<Pair>, x: nat) {
    forall y: nat :: y < x ==> !Connected(E, y, x)
  }

  ghost function Leasts(n: nat, E: set<Pair>): set<nat> {
    set x: nat | x < n && IsLeast(E, x)
  }

  /** The number of connected components of ({0..n-1}, E). */
  ghost function Components(n: nat, E: set<Pair>): nat {
    |Leasts(n, E)|
  }

  /** The least vertex of the component of x. */
  ghost function Least(E: set<Pair>, x: nat): (m: nat)
    ensures m <= x && Connected(E, m, x) && IsLeast(E, m)
    decreases x
  {
    if IsLeast(E, x) then Reflexive(E, x); x
    else
      var y: nat :| y < x && Connected(E, y, x);
      var m := Least(E, y);
      Transitive(E, m, y, x);
      m
  }

  lemma LeastUnique(E: set<Pair>, x: nat, y: nat)
    requires Connected(E, x, y) && IsLeast(E, x) && IsLeast(E, y)
    ensures x == y
  {
    Symmetric(E, x, y);
  }

  lemma JoinDropsOne(n: nat, E: set<Pair>, u: nat, v: nat, a: nat, b: nat)
    requires u < n && v < n
    requires a == Least(E, u) && b == Least(E, v) && a < b
    ensures Leasts(n, E + {(u, v)}) == Leasts(n, E) - {b} && b in Leasts(n, E)
  {
    var F := E + {(u, v)};
    Symmetric(E, a, u);
    Symmetric(E, b, v);
    forall x: nat | x < n ensures x in Leasts(n, F) <==> x in Leasts(n, E) - {b} {
      if x == b {
        AddEdge(E, u, v, a, b);
      } else if IsLeast(E, x) {
        forall y: nat | y < x ensures !Connected(F, y, x) {
          AddEdge(E, u, v, y, x);
          if Connected(E, y, u) && Connected(E, v, x) {
            Transitive(E, b, v, x);
            LeastUnique(E, b, x);
          } else if Connected(E, y, v) && Connected(E, u, x) {
            Transitive(E, a, u, x);
            LeastUnique(E, a, x);
            Transitive(E, y, v, b);
          }
        }
      } else {
        var y: nat :| y < x && Connected(E, y, x);
        Monotone(E, F, y, x);
      }
    }
  }

  /** Orientation of an edge does not matter. */
  lemma Unoriented(E: set<Pair>, u: nat, v: nat, x: nat, y: nat)
    ensures Connected(E + {(u, v)}, x, y) <==> Connected(E + {(v, u)}, x, y)
  {
    AddEdge(E, u, v, x, y);
    AddEdge(E, v, u, x, y);
  }

  /** One more edge merges two components exactly when it joins two of them. */
  lemma AddEdgeComponents(n: nat, E: set<Pair>, u: nat, v: nat)
    requires u < n && v < n
    ensures Components(n, E + {(u, v)}) == Components(n, E) - (if Connected(E, u, v) then 0 else 1)
  {
    var F := E + {(u, v)};
    var a, b := Least(E, u), Least(E, v);
    if Connected(E, u, v) {
      forall x: nat, y: nat ensures Connected(F, y, x) <==> Connected(E, y, x) {
        AddEdge(E, u, v, y, x);
        Symmetric(E, u, v);
        if Connected(E, y, u) && Connected(E, v, x) {
          Transitive(E, y, u, v);
          Transitive(E, y, v, x);
        } else if Connected(E, y, v) && Connected(E, u, x) {
          Transitive(E, y, v, u);
          Transitive(E, y, u, x);
        }
      }
      assert Leasts(n, F) == Leasts(n, E);
    } else {
      if a == b {
        Symmetric(E, a, u);
        Transitive(E, u, a, v);
        assert false;
      } else if a < b {
        JoinDropsOne(n, E, u, v, a, b);
      } else {
        JoinDropsOne(n, E, v, u, b, a);
        forall x: nat, y: nat { Unoriented(E, u, v, x, y); }
        assert Leasts(n, F) == Leasts(n, E + {(v, u)});
      }
    }
  }

  lemma EmptyComponents(n: nat)
    ensures Components(n, {}) == n
  {
    forall x: nat, y: nat { EmptyConnects({}, x, y); }
    assert Leasts(n, {}) == Vertices(n);
  }

  ghost predicate Spans(n: nat, E: set<Pair>) {
    forall x: nat, y: nat :: x < n && y < n ==> Connected(E, x, y)
  }

  /** A graph on n >= 1 vertices is connected iff it has one component. */
  lemma SpansIff(n: nat, E: set<Pair>)
    requires n >= 1
    ensures Spans(n, E) <==> Components(n, E) == 1
  {
    assert 0 in Leasts(n, E);
    if Spans(n, E) {
      forall x | x in Leasts(n, E) ensures x == 0 {
        assert Connected(E, 0, x);
      }
      assert Leasts(n, E) == {0};
    }
    if Components(n, E) == 1 {
      forall x: nat | x < n ensures Connected(E, 0, x) {
        var m := Least(E, x);
        if m != 0 {
          assert {0, m} <= Leasts(n, E);
          SubsetSize({0, m}, Leasts(n, E));
        }
      }
      forall x: nat, y: nat | x < n && y < n ensures Connected(E, x, y) {
        Symmetric(E, 0, x);
        Transitive(E, x, 0, y);
      }
    }
  }

  /** More edges, no more components. */
  lemma MonotoneComponents(n: nat, E: set<Pair>, F: set<Pair>)
    requires E <= F
    ensures Components(n, F) <= Components(n, E)
  {
    forall x | x in Leasts(n, F) ensures x in Leasts(n, E) {
      forall y: nat | y < x ensures !Connected(E, y, x) {
        if Connected(E, y, x) { Monotone(E, F, y, x); }
      }
    }
    SubsetSize(Leasts(n, F), Leasts(n, E));
  }
}
