/** The greedy diagram distance of topology.py:218-336 for p = 1. */
module Wasserstein {
  import opened Diagrams
  import opened Sorting

  type Diagram = seq<Bar>

  function Abs(x: real): (r: real)
    ensures r >= x && r >= -x && (r == x || r == -x)
  {
    if x < 0.0 then -x else x
  }

  /** c is |dx| + |dy|: no choice of signs exceeds it and one reaches it. */
  ghost predicate IsSpread(c: real, dx: real, dy: real) {
    && c >= dx + dy && c >= dx - dy && c >= dy - dx && c >= -dx - dy
    && (c == dx + dy || c == dx - dy || c == dy - dx || c == -dx - dy)
  }

  /** l is the time from birth to death, or 0 if death comes first. */
  ghost predicate IsLifetime(l: real, b: Bar) {
    l >= 0.0 && l >= b.death - b.birth && (l == 0.0 || l == b.death - b.birth)
  }

  /** max(death - birth, 0) */
  function Lifetime(b: Bar): (l: real)
    ensures IsLifetime(l, b)
  {
    if b.death - b.birth > 0.0 then b.death - b.birth else 0.0
  }

  function PointCost(a: Bar, b: Bar): (c: real)
    ensures IsSpread(c, a.birth - b.birth, a.death - b.death)
  {
    Abs(a.birth - b.birth) + Abs(a.death - b.death)
  }

  // ---- admissible assignments ----

  /** Row i and column j are a point of A and a point of B, or one of them is
      a point and the other its own diagonal slot. */
  predicate Allowed(A: Diagram, B: Diagram, i: nat, j: nat) {
    || (i < |A| && j < |B|)
    || (i < |A| && j == |B| + i)
    || (j < |B| && i == |A| + j)
  }

  function CostOf(A: Diagram, B: Diagram, i: nat, j: nat): (c: real)
    requires Allowed(A, B, i, j)
    ensures c >= 0.0
  {
    if i < |A| && j < |B| then PointCost(A[i], B[j])
    else if i < |A| then Lifetime(A[i]) / 2.0
    else Lifetime(B[j]) / 2.0
  }

  ghost predicate IsAssignment(A: Diagram, B: Diagram, t: Triple) {
    Allowed(A, B, t.i, t.j) && t.w == CostOf(A, B, t.i, t.j)
  }

  /** All admissible assignments, cheapest first. */
  ghost predicate Schedule(A: Diagram, B: Diagram, s: seq<Triple>) {
    && Distinct(s)
    && (forall t :: t in s <==> IsAssignment(A, B, t))
    && (forall a, b :: 0 <= a < b < |s| ==> LexLeq(s[a], s[b]))
  }

  // ---- the greedy choice ----

  ghost predicate Clash(x: Triple, y: Triple) {
    x.i == y.i || x.j == y.j
  }

  ghost predicate Free(chosen: seq<Triple>, t: Triple) {
    forall x :: x in chosen ==> !Clash(x, t)
  }

  /** Takes every assignment whose row and column are still free. */
  ghost function Greedy(s: seq<Triple>): seq<Triple> {
    if |s| == 0 then []
    else
      var c, t := Greedy(s[..|s| - 1]), s[|s| - 1];
      if Free(c, t) then c + [t] else c
  }

  ghost function Total(s: seq<Triple>): real {
    if |s| == 0 then 0.0 else Total(s[..|s| - 1]) + s[|s| - 1].w
  }

  ghost predicate NoClash(s: seq<Triple>) {
    forall a, b :: 0 <= a < b < |s| ==> !Clash(s[a], s[b])
  }

  lemma {:induction false} GreedyFrom(s: seq<Triple>)
    ensures forall t :: t in Greedy(s) ==> t in s
    ensures NoClash(Greedy(s))
  {
    if |s| > 0 {
      GreedyFrom(s[..|s| - 1]);
    }
  }

  /** What is not chosen is blocked by something cheaper that is. */
  lemma {:induction false} GreedyBlocks(s: seq<Triple>, k: nat)
    requires k < |s|
    ensures s[k] in Greedy(s) || exists l :: 0 <= l < k && s[l] in Greedy(s) && Clash(s[l], s[k])
  {
    var before, t := s[..|s| - 1], s[|s| - 1];
    if k < |s| - 1 {
      GreedyBlocks(before, k);
      assert before[k] == s[k];
      if s[k] !in Greedy(before) {
        var l :| 0 <= l < k && before[l] in Greedy(before) && Clash(before[l], before[k]);
        assert s[l] in Greedy(s) && Clash(s[l], s[k]);
      }
    } else if !Free(Greedy(before), t) {
      var x :| x in Greedy(before) && Clash(x, t);
      GreedyFrom(before);
      var l :| 0 <= l < |before| && before[l] == x;
      assert s[l] in Greedy(s) && Clash(s[l], s[k]);
    }
  }

  // ---- stable matchings ----

  /** An earlier chosen assignment clashes with the one at position k. */
  ghost predicate Blocked(s: seq<Triple>, M: set<Triple>, k: nat)
    requires k < |s|
  {
    exists l :: 0 <= l < k && s[l] in M && Clash(s[l], s[k])
  }

  /** No two chosen assignments clash, and any other one clashes with an earlier chosen one. */
  ghost predicate Stable(s: seq<Triple>, M: set<Triple>) {
    && (forall x :: x in M ==> x in s)
    && (forall x, y :: x in M && y in M && Clash(x, y) ==> x == y)
    && (forall k: nat {:trigger Blocked(s, M, k)} :: k < |s| ==> s[k] in M || Blocked(s, M, k))
  }

  ghost function Elements(s: seq<Triple>): set<Triple> {
    set t | t in s
  }

  lemma GreedyStable(s: seq<Triple>)
    ensures Stable(s, Elements(Greedy(s)))
  {
    GreedyFrom(s);
    forall k: nat | k < |s| ensures s[k] in Elements(Greedy(s)) || Blocked(s, Elements(Greedy(s)), k) {
      GreedyBlocks(s, k);
    }
  }

  /** What M blocks and N agrees on so far, N does not choose. */
  lemma BlockedAgree(s: seq<Triple>, M: set<Triple>, N: set<Triple>, k: nat)
    requires Distinct(s) && Stable(s, M) && Stable(s, N) && k < |s|
    requires forall l :: 0 <= l < k ==> (s[l] in M <==> s[l] in N)
    ensures s[k] !in M ==> s[k] !in N
  {
    if s[k] !in M {
      assert Blocked(s, M, k);
      var l :| 0 <= l < k && s[l] in M && Clash(s[l], s[k]);
      assert s[l] in N && s[l] != s[k];
    }
  }

  lemma {:induction false} StableAgree(s: seq<Triple>, M: set<Triple>, N: set<Triple>, k: nat)
    requires Distinct(s) && Stable(s, M) && Stable(s, N) && k <= |s|
    ensures forall l :: 0 <= l < k ==> (s[l] in M <==> s[l] in N)
  {
    if k > 0 {
      StableAgree(s, M, N, k - 1);
      BlockedAgree(s, M, N, k - 1);
      BlockedAgree(s, N, M, k - 1);
    }
  }

  /** The greedy pass computes the one and only stable choice. */
  lemma GreedyUnique(s: seq<Triple>, M: set<Triple>)
    requires Distinct(s)
    ensures Stable(s, M) <==> M == Elements(Greedy(s))
  {
    GreedyStable(s);
    if Stable(s, M) {
      StableAgree(s, M, Elements(Greedy(s)), |s|);
      forall x ensures x in M <==> x in Elements(Greedy(s)) {
        if x in s {
          var k :| 0 <= k < |s| && s[k] == x;
        }
      }
    }
  }

  // ---- every point is used once ----

  ghost function Rows(m: seq<Triple>): set<nat> {
    set t | t in m :: t.i
  }

  ghost function Columns(m: seq<Triple>): set<nat> {
    set t | t in m :: t.j
  }

  /** A matching of A with B: each point of either has one partner or its diagonal slot. */
  ghost predicate IsMatching(A: Diagram, B: Diagram, m: seq<Triple>) {
    && NoClash(m)
    && (forall t :: t in m ==> IsAssignment(A, B, t))
    && (forall i :: 0 <= i < |A| ==> i in Rows(m))
    && (forall j :: 0 <= j < |B| ==> j in Columns(m))
  }

  lemma IndexOf(s: seq<Triple>, t: Triple) returns (k: nat)
    requires t in s
    ensures k < |s| && s[k] == t
  {
    k :| 0 <= k < |s| && s[k] == t;
  }

  /** The greedy choice at position k decides at once: chosen, or blocked by something no dearer. */
  lemma Decide(A: Diagram, B: Diagram, s: seq<Triple>, t: Triple) returns (x: Triple)
    requires Schedule(A, B, s) && IsAssignment(A, B, t)
    ensures x in Greedy(s) && IsAssignment(A, B, x) && Clash(x, t) && LexLeq(x, t)
  {
    var k := IndexOf(s, t);
    GreedyBlocks(s, k);
    GreedyFrom(s);
    if t in Greedy(s) {
      x := t;
    } else {
      var l :| 0 <= l < k && s[l] in Greedy(s) && Clash(s[l], s[k]);
      x := s[l];
    }
  }

  /** The row of a point of A is taken, at no more than half its lifetime. */
  lemma RowUsed(A: Diagram, B: Diagram, s: seq<Triple>, i: nat) returns (x: Triple)
    requires Schedule(A, B, s) && i < |A|
    ensures x in Greedy(s) && x.i == i && x.w <= Lifetime(A[i]) / 2.0
  {
    x := Decide(A, B, s, Triple(Lifetime(A[i]) / 2.0, i, |B| + i));
  }

  lemma ColumnUsed(A: Diagram, B: Diagram, s: seq<Triple>, j: nat) returns (x: Triple)
    requires Schedule(A, B, s) && j < |B|
    ensures x in Greedy(s) && x.j == j && x.w <= Lifetime(B[j]) / 2.0
  {
    x := Decide(A, B, s, Triple(Lifetime(B[j]) / 2.0, |A| + j, j));
  }

  lemma ClashIsEqual(s: seq<Triple>, x: Triple, y: Triple)
    requires NoClash(s) && x in s && y in s && Clash(x, y)
    ensures x == y
  {
    var a := IndexOf(s, x);
    var b := IndexOf(s, y);
  }

  /** The greedy choice is a matching, and no chosen pair costs more than half
      the lifetime of either of its points. */
  lemma GreedyMatching(A: Diagram, B: Diagram, s: seq<Triple>)
    requires Schedule(A, B, s)
    ensures IsMatching(A, B, Greedy(s))
    ensures forall t :: t in Greedy(s) && t.i < |A| ==> t.w <= Lifetime(A[t.i]) / 2.0
    ensures forall t :: t in Greedy(s) && t.j < |B| ==> t.w <= Lifetime(B[t.j]) / 2.0
  {
    GreedyFrom(s);
    forall i | 0 <= i < |A| ensures i in Rows(Greedy(s)) {
      var x := RowUsed(A, B, s, i);
    }
    forall j | 0 <= j < |B| ensures j in Columns(Greedy(s)) {
      var x := ColumnUsed(A, B, s, j);
    }
    forall t | t in Greedy(s) && t.i < |A| ensures t.w <= Lifetime(A[t.i]) / 2.0 {
      var x := RowUsed(A, B, s, t.i);
      ClashIsEqual(Greedy(s), x, t);
    }
    forall t | t in Greedy(s) && t.j < |B| ensures t.w <= Lifetime(B[t.j]) / 2.0 {
      var x := ColumnUsed(A, B, s, t.j);
      ClashIsEqual(Greedy(s), x, t);
    }
  }

  // ---- the cost is at most half the total persistence ----

  /** The summed lifetimes of the points of D whose index is in U. */
  ghost function LifeOf(D: Diagram, U: set<nat>): (r: real)
    ensures r >= 0.0
  {
    if |D| == 0 then 0.0
    else LifeOf(D[..|D| - 1], U) + (if |D| - 1 in U then Lifetime(D[|D| - 1]) else 0.0)
  }

  ghost function TotalLife(D: Diagram): real {
    if |D| == 0 then 0.0 else TotalLife(D[..|D| - 1]) + Lifetime(D[|D| - 1])
  }

  lemma {:induction false} LifeBound(D: Diagram, U: set<nat>)
    ensures LifeOf(D, U) <= TotalLife(D)
  {
    if |D| > 0 { LifeBound(D[..|D| - 1], U); }
  }

  lemma {:induction false} LifeAdd(D: Diagram, U: set<nat>, i: nat)
    requires i !in U
    ensures LifeOf(D, U + {i}) == LifeOf(D, U) + (if i < |D| then Lifetime(D[i]) else 0.0)
  {
    if |D| > 0 { LifeAdd(D[..|D| - 1], U, i); }
  }

  lemma Snoc(m: seq<Triple>, t: Triple)
    requires NoClash(m + [t])
    ensures NoClash(m)
    ensures Rows(m + [t]) == Rows(m) + {t.i} && t.i !in Rows(m)
    ensures Columns(m + [t]) == Columns(m) + {t.j} && t.j !in Columns(m)
  {
    var n := m + [t];
    forall a, b | 0 <= a < b < |m| ensures !Clash(m[a], m[b]) {
      assert !Clash(n[a], n[b]);
    }
    forall x | x in m ensures x in n && !Clash(x, t) {
      var a := IndexOf(m, x);
      assert !Clash(n[a], n[|m|]);
    }
    assert t == n[|m|];
    forall x | x in n ensures x in m || x == t {
      var a := IndexOf(n, x);
    }
  }

  lemma {:induction false} CheapTotal(A: Diagram, B: Diagram, m: seq<Triple>)
    requires NoClash(m) && forall t :: t in m ==> IsAssignment(A, B, t)
    requires forall t :: t in m && t.i < |A| ==> t.w <= Lifetime(A[t.i]) / 2.0
    requires forall t :: t in m && t.j < |B| ==> t.w <= Lifetime(B[t.j]) / 2.0
    ensures Total(m) <= (LifeOf(A, Rows(m)) + LifeOf(B, Columns(m))) / 2.0
  {
    if |m| > 0 {
      var before, t := m[..|m| - 1], m[|m| - 1];
      assert m == before + [t] && t in m;
      Snoc(before, t);
      CheapTotal(A, B, before);
      LifeAdd(A, Rows(before), t.i);
      LifeAdd(B, Columns(before), t.j);
    }
  }

  /** The greedy distance is the cost of a matching and at most half the total persistence. */
  lemma GreedyBounds(A: Diagram, B: Diagram, s: seq<Triple>)
    requires Schedule(A, B, s)
    ensures IsMatching(A, B, Greedy(s))
    ensures 0.0 <= Total(Greedy(s)) <= (TotalLife(A) + TotalLife(B)) / 2.0
  {
    GreedyMatching(A, B, s);
    CheapTotal(A, B, Greedy(s));
    LifeBound(A, Rows(Greedy(s)));
    LifeBound(B, Columns(Greedy(s)));
    NonNegative(A, B, Greedy(s));
  }

  lemma {:induction false} NonNegative(A: Diagram, B: Diagram, m: seq<Triple>)
    requires forall t :: t in m ==> IsAssignment(A, B, t)
    ensures Total(m) >= 0.0
  {
    if |m| > 0 {
      assert m[|m| - 1] in m;
      NonNegative(A, B, m[..|m| - 1]);
    }
  }

  // ---- every matching costs at least half the difference of the persistences ----

  ghost function LifeAt(D: Diagram, i: nat): real {
    if i < |D| then Lifetime(D[i]) else 0.0
  }

  /** One assignment bridges its share of the difference. */
  lemma CostGap(A: Diagram, B: Diagram, t: Triple)
    requires IsAssignment(A, B, t)
    ensures -2.0 * t.w <= LifeAt(A, t.i) - LifeAt(B, t.j) <= 2.0 * t.w
  {
  }

  lemma {:induction false} TotalGap(A: Diagram, B: Diagram, m: seq<Triple>)
    requires NoClash(m) && forall t :: t in m ==> IsAssignment(A, B, t)
    ensures -2.0 * Total(m) <= LifeOf(A, Rows(m)) - LifeOf(B, Columns(m)) <= 2.0 * Total(m)
  {
    if |m| == 0 {
      NoLife(A, Rows(m));
      NoLife(B, Columns(m));
    } else {
      var before, t := m[..|m| - 1], m[|m| - 1];
      assert m == before + [t] && t in m;
      Snoc(before, t);
      TotalGap(A, B, before);
      CostGap(A, B, t);
      LifeAdd(A, Rows(before), t.i);
      LifeAdd(B, Columns(before), t.j);
    }
  }

  lemma {:induction false} NoLife(D: Diagram, U: set<nat>)
    requires U == {}
    ensures LifeOf(D, U) == 0.0
  {
    if |D| > 0 { NoLife(D[..|D| - 1], U); }
  }

  lemma {:induction false} AllLife(D: Diagram, U: set<nat>)
    requires forall i :: 0 <= i < |D| ==> i in U
    ensures LifeOf(D, U) == TotalLife(D)
  {
    if |D| > 0 { AllLife(D[..|D| - 1], U); }
  }

  lemma MatchingGap(A: Diagram, B: Diagram, m: seq<Triple>)
    requires IsMatching(A, B, m)
    ensures -2.0 * Total(m) <= TotalLife(A) - TotalLife(B) <= 2.0 * Total(m)
  {
    TotalGap(A, B, m);
    AllLife(A, Rows(m));
    AllLife(B, Columns(m));
  }

  // ---- the least cost of any matching ----

  ghost predicate IsLeastCost(A: Diagram, B: Diagram, v: real) {
    && (exists m :: IsMatching(A, B, m) && Total(m) == v)
    && (forall m :: IsMatching(A, B, m) ==> v <= Total(m))
  }

  /** The elements of M in some order. */
  ghost function Listing(M: set<Triple>): (r: seq<Triple>)
    ensures Elements(r) == M && Distinct(r)
  {
    if M == {} then []
    else
      var t :| t in M;
      var r := Listing(M - {t});
      assert t !in Elements(r);
      assert Elements(r + [t]) == Elements(r) + {t};
      r + [t]
  }

  lemma {:induction false} TotalRemove(n: seq<Triple>, k: nat)
    requires k < |n|
    ensures Total(n) == Total(n[..k] + n[k + 1..]) + n[k].w
  {
    var last := |n| - 1;
    if k == last {
      assert n[..k] + n[k + 1..] == n[..last];
    } else {
      TotalRemove(n[..last], k);
      assert (n[..k] + n[k + 1..])[..last - 1] == n[..last][..k] + n[..last][k + 1..];
    }
  }

  lemma WithoutOne(n: seq<Triple>, k: nat)
    requires Distinct(n) && k < |n|
    ensures var rest := n[..k] + n[k + 1..];
            Distinct(rest) && Elements(rest) == Elements(n) - {n[k]}
  {
    var rest := n[..k] + n[k + 1..];
    forall x ensures x in rest <==> x in n && x != n[k] {
      if x in n && x != n[k] {
        var i := IndexOf(n, x);
        assert rest[if i < k then i else i - 1] == x;
      }
    }
  }

  lemma NonEmpty(n: seq<Triple>)
    ensures |n| > 0 ==> Elements(n) != {}
  {
    if |n| > 0 { assert n[0] in Elements(n); }
  }

  /** The order of a list does not change its total. */
  lemma {:induction false} TotalPermuted(m: seq<Triple>, n: seq<Triple>)
    requires Distinct(m) && Distinct(n) && Elements(m) == Elements(n)
    ensures Total(m) == Total(n)
  {
    if |m| == 0 {
      NonEmpty(n);
    } else {
      var before, t := m[..|m| - 1], m[|m| - 1];
      assert t in Elements(m);
      var k := IndexOf(n, t);
      var rest := n[..k] + n[k + 1..];
      WithoutOne(m, |m| - 1);
      WithoutOne(n, k);
      assert before == m[..|m| - 1] + m[|m|..];
      TotalRemove(n, k);
      TotalPermuted(before, rest);
    }
  }

  lemma ListingMatches(A: Diagram, B: Diagram, m: seq<Triple>)
    requires IsMatching(A, B, m)
    ensures IsMatching(A, B, Listing(Elements(m))) && Total(Listing(Elements(m))) == Total(m)
  {
    var n := Listing(Elements(m));
    forall x ensures x in n <==> x in m {
      assert x in Elements(n) <==> x in Elements(m);
    }
    forall a, b | 0 <= a < b < |m| ensures m[a] != m[b] {
      assert !Clash(m[a], m[b]);
    }
    forall a, b | 0 <= a < b < |n| ensures !Clash(n[a], n[b]) {
      if Clash(n[a], n[b]) {
        ClashIsEqual(m, n[a], n[b]);
      }
    }
    assert Rows(n) == Rows(m) && Columns(n) == Columns(m);
    TotalPermuted(m, n);
  }

  lemma {:induction false} LeastListing(X: set<set<Triple>>) returns (M: set<Triple>)
    requires X != {}
    ensures M in X && forall N :: N in X ==> Total(Listing(M)) <= Total(Listing(N))
    decreases X
  {
    M :| M in X;
    if X != {M} {
      assert X - {M} != {};
      var N := LeastListing(X - {M});
      if Total(Listing(N)) < Total(Listing(M)) {
        M := N;
      }
    }
  }

  /** There is a least cost. */
  lemma LeastCostExists(A: Diagram, B: Diagram, s: seq<Triple>) returns (v: real)
    requires Schedule(A, B, s)
    ensures IsLeastCost(A, B, v)
  {
    GreedyMatching(A, B, s);
    var S := Elements(s);
    var X := set M | M <= S && IsMatching(A, B, Listing(M));
    forall m | IsMatching(A, B, m) ensures Elements(m) in X {
      ListingMatches(A, B, m);
    }
    assert Elements(Greedy(s)) in X;
    var M := LeastListing(X);
    v := Total(Listing(M));
    forall m | IsMatching(A, B, m) ensures v <= Total(m) {
      ListingMatches(A, B, m);
      assert Elements(m) in X;
    }
  }

  // ---- the distance of a diagram to itself ----

  /** Comparing D with itself, only the pairs (i, i) are ever taken: any other
      assignment comes after the pair of its smaller index. */
  lemma {:induction false} SelfGreedy(D: Diagram, s: seq<Triple>, k: nat)
    requires Schedule(D, D, s) && k <= |s|
    ensures forall t :: t in Greedy(s[..k]) <==> t in s[..k] && t.i == t.j
  {
    if k > 0 {
      SelfGreedy(D, s, k - 1);
      var t := s[k - 1];
      assert s[..k][..k - 1] == s[..k - 1] && s[..k] == s[..k - 1] + [t];
      assert t in s;
      if t.i == t.j {
        forall x | x in Greedy(s[..k - 1]) ensures !Clash(x, t) {
          assert x in s[..k - 1];
          assert x in s && x.i == x.j;
          var l := IndexOf(s[..k - 1], x);
          assert s[l] == x && s[l] != s[k - 1];
        }
      } else {
        var m := if t.i < t.j then t.i else t.j;
        var x := Triple(0.0, m, m);
        assert IsAssignment(D, D, x);
        var l := IndexOf(s, x);
        assert !LexLeq(t, x);
        assert l < k - 1 && s[..k - 1][l] == x;
        assert x in Greedy(s[..k - 1]) && Clash(x, t);
      }
    }
  }

  lemma {:induction false} ZeroTotal(m: seq<Triple>)
    requires forall t :: t in m ==> t.w == 0.0
    ensures Total(m) == 0.0
  {
    if |m| > 0 { ZeroTotal(m[..|m| - 1]); }
  }

  /** Every diagram is at greedy distance exactly 0 from itself. */
  lemma SelfDistance(D: Diagram, s: seq<Triple>)
    requires Schedule(D, D, s)
    ensures Total(Greedy(s)) == 0.0
  {
    SelfGreedy(D, s, |s|);
    assert s[..|s|] == s;
    ZeroTotal(Greedy(s));
  }

  // ---- the algorithm ----

  /** The augmented cost matrix, points before diagonal slots. */
  method CostMatrix(A: Diagram, B: Diagram) returns (cost: array2<real>)
    ensures fresh(cost)
    ensures cost.Length0 == cost.Length1 == |A| + |B|
    ensures forall i: nat, j: nat :: i < |A| + |B| && j < |A| + |B| && Allowed(A, B, i, j) ==>
                                       cost[i, j] == CostOf(A, B, i, j)
    ensures forall i, j :: 0 <= i < |A| && 0 <= j < |B| ==>
              IsSpread(cost[i, j], A[i].birth - B[j].birth, A[i].death - B[j].death)
    ensures forall i :: 0 <= i < |A| ==> IsLifetime(2.0 * cost[i, |B| + i], A[i])
    ensures forall j :: 0 <= j < |B| ==> IsLifetime(2.0 * cost[|A| + j, j], B[j])
  {
    var n1, n2 := |A|, |B|;
    cost := new real[n1 + n2, n1 + n2]((_, _) => 0.0);
    for i := 0 to n1
      invariant forall k: nat, j: nat :: k < i && j < n1 + n2 && Allowed(A, B, k, j) ==>
                                           cost[k, j] == CostOf(A, B, k, j)
    {
      for j := 0 to n2
        invariant forall k: nat, l: nat :: k < i && l < n1 + n2 && Allowed(A, B, k, l) ==>
                                             cost[k, l] == CostOf(A, B, k, l)
        invariant forall l: nat :: l < j ==> cost[i, l] == CostOf(A, B, i, l)
      {
        cost[i, j] := PointCost(A[i], B[j]);
      }
      cost[i, n2 + i] := Lifetime(A[i]) / 2.0;
    }
    for j := 0 to n2
      invariant forall k: nat, l: nat :: k < n1 && l < n1 + n2 && Allowed(A, B, k, l) ==>
                                           cost[k, l] == CostOf(A, B, k, l)
      invariant forall l: nat :: l < j ==> cost[n1 + l, l] == Lifetime(B[l]) / 2.0
    {
      cost[n1 + j, j] := Lifetime(B[j]) / 2.0;
    }
    for i := n1 to n1 + n2
      invariant forall k: nat, l: nat :: k < n1 + n2 && l < n1 + n2 && Allowed(A, B, k, l) ==>
                                           cost[k, l] == CostOf(A, B, k, l)
    {
      for j := n2 to n1 + n2
        invariant forall k: nat, l: nat :: k < n1 + n2 && l < n1 + n2 && Allowed(A, B, k, l) ==>
                                             cost[k, l] == CostOf(A, B, k, l)
      {
        cost[i, j] := 1000000000000000000.0;
      }
    }
  }

  method Assignments(A: Diagram, B: Diagram) returns (s: seq<Triple>)
    ensures Schedule(A, B, s)
  {
    var cost := CostMatrix(A, B);
    var n1, n2 := |A|, |B|;
    s := [];
    for i := 0 to n1 + n2
      invariant Distinct(s)
      invariant forall t :: t in s <==> IsAssignment(A, B, t) && t.i < i
    {
      for j := 0 to n1 + n2
        invariant Distinct(s)
        invariant forall t :: t in s <==> IsAssignment(A, B, t) && (t.i < i || (t.i == i && t.j < j))
      {
        if i < n1 && j < n2 {
          s := s + [Triple(cost[i, j], i, j)];
        } else if i < n1 && j >= n2 && j - n2 == i {
          s := s + [Triple(cost[i, j], i, j)];
        } else if i >= n1 && j < n2 && i - n1 == j {
          s := s + [Triple(cost[i, j], i, j)];
        }
      }
    }
    SortTriplesCorrect(s);
    s := SortTriples(s);
  }

  /** A row and column test is enough to decide one assignment. */
  lemma GreedyStep(s: seq<Triple>, t: Triple)
    ensures var c := Greedy(s); var d := Greedy(s + [t]);
            if t.i !in Rows(c) && t.j !in Columns(c) then
              d == c + [t] && Rows(d) == Rows(c) + {t.i} && Columns(d) == Columns(c) + {t.j}
            else d == c
  {
    var c := Greedy(s);
    assert (s + [t])[..|s|] == s;
    assert Free(c, t) <==> t.i !in Rows(c) && t.j !in Columns(c);
    if Free(c, t) {
      GreedyFrom(s + [t]);
      Snoc(c, t);
    }
  }

  /** What the greedy choice costs. */
  ghost predicate IsGreedyCost(A: Diagram, B: Diagram, total: real) {
    exists s :: Schedule(A, B, s) && total == Total(Greedy(s))
  }

  lemma GreedyCostUnique(A: Diagram, B: Diagram, v: real, w: real)
    requires IsGreedyCost(A, B, v) && IsGreedyCost(A, B, w)
    ensures v == w
    ensures A == B ==> v == 0.0
  {
    var s :| Schedule(A, B, s) && v == Total(Greedy(s));
    var t :| Schedule(A, B, t) && w == Total(Greedy(t));
    SortedUnique(s, t);
    if A == B {
      SelfDistance(A, s);
    }
  }

  /** The cost is that of a matching which uses every point once, so at least the least such
      cost; it is at least half the difference of the total persistences and at most half their sum. */
  method GreedyCost(A: Diagram, B: Diagram) returns (total: real)
    ensures IsGreedyCost(A, B, total)
    ensures exists m :: IsMatching(A, B, m) && total == Total(m)
    ensures exists v :: IsLeastCost(A, B, v) && v <= total
    ensures -2.0 * total <= TotalLife(A) - TotalLife(B) <= 2.0 * total
    ensures 0.0 <= total <= (TotalLife(A) + TotalLife(B)) / 2.0
    ensures A == B ==> total == 0.0
  {
    var assignments := Assignments(A, B);
    ghost var s := assignments;
    var usedRows: set<nat>, usedCols: set<nat> := {}, {};
    total := 0.0;
    for k := 0 to |assignments|
      invariant usedRows == Rows(Greedy(s[..k])) && usedCols == Columns(Greedy(s[..k]))
      invariant total == Total(Greedy(s[..k]))
    {
      var t := assignments[k];
      GreedyStep(s[..k], t);
      assert s[..k + 1] == s[..k] + [t];
      if t.i !in usedRows && t.j !in usedCols {
        total := total + t.w;
        usedRows := usedRows + {t.i};
        usedCols := usedCols + {t.j};
      }
    }
    assert s[..|s|] == s;
    hide *;
    CostFacts(A, B, s);
  }

  lemma CostFacts(A: Diagram, B: Diagram, s: seq<Triple>)
    requires Schedule(A, B, s)
    ensures IsGreedyCost(A, B, Total(Greedy(s)))
    ensures exists m :: IsMatching(A, B, m) && Total(Greedy(s)) == Total(m)
    ensures exists v :: IsLeastCost(A, B, v) && v <= Total(Greedy(s))
    ensures -2.0 * Total(Greedy(s)) <= TotalLife(A) - TotalLife(B) <= 2.0 * Total(Greedy(s))
    ensures 0.0 <= Total(Greedy(s)) <= (TotalLife(A) + TotalLife(B)) / 2.0
    ensures A == B ==> Total(Greedy(s)) == 0.0
  {
    GreedyBounds(A, B, s);
    MatchingGap(A, B, Greedy(s));
    var v := LeastCostExists(A, B, s);
    assert v <= Total(Greedy(s));
    if A == B {
      SelfDistance(A, s);
    }
    hide Greedy, Total, IsMatching, TotalLife;
  }

  /** The largest coordinate, and 0. */
  function MaxCoordinate(D: Diagram): (m: real)
    ensures m >= 0.0 && forall b :: b in D ==> b.birth <= m && b.death <= m
    ensures m == 0.0 || exists b :: b in D && (m == b.birth || m == b.death)
  {
    if |D| == 0 then 0.0
    else
      var m := MaxCoordinate(D[..|D| - 1]);
      var b := D[|D| - 1];
      var n := if b.birth > m then b.birth else m;
      if b.death > n then b.death else n
  }

  /** Half of the largest coordinate, or of 1, for each of n points. */
  ghost function Estimate(maxDeath: real, n: nat): (v: real)
    ensures 2.0 * v == (if maxDeath > 1.0 then maxDeath else 1.0) * n as real
  {
    (if maxDeath > 1.0 then maxDeath else 1.0) * 0.5 * n as real
  }

  /** What one dimension contributes. */
  ghost predicate IsPairwise(A: Diagram, B: Diagram, v: real) {
    if |A| == 0 || |B| == 0 then
      v == if |A| == |B| then 0.0
           else Estimate(MaxCoordinate(A + B), if |A| < |B| then |B| - |A| else |A| - |B|)
    else
      IsGreedyCost(A, B, v)
  }

  /** m bounds all coordinates, and is 1 or one of them if that is more. */
  ghost predicate IsScale(D: Diagram, m: real) {
    && m >= 1.0 && (forall b :: b in D ==> b.birth <= m && b.death <= m)
    && (m == 1.0 || exists b :: b in D && (b.birth == m || b.death == m))
  }

  /** When one diagram is empty each point of the other counts half the scale. */
  lemma OneEmpty(D: Diagram, v: real, w: real)
    requires |D| > 0 && IsPairwise(D, [], v) && IsPairwise([], D, w)
    ensures exists m :: IsScale(D, m) && 2.0 * v == m * |D| as real && v == w
  {
    assert D + [] == D && [] + D == D;
    var c := MaxCoordinate(D);
    var m := if c > 1.0 then c else 1.0;
    assert IsScale(D, m);
    hide MaxCoordinate, IsScale, Estimate;
    assert v == Estimate(c, |D|) == w;
  }

  method Pairwise(A: Diagram, B: Diagram) returns (v: real)
    ensures IsPairwise(A, B, v)
  {
    if |A| == 0 || |B| == 0 {
      if |A| == 0 && |B| == 0 {
        return 0.0;
      }
      var maxDeath := MaxCoordinate(A + B);
      hide MaxCoordinate, IsGreedyCost;
      var maxPers := (if maxDeath > 1.0 then maxDeath else 1.0) * 0.5;
      return maxPers * (if |A| < |B| then |B| - |A| else |A| - |B|) as real;
    }
    v := GreedyCost(A, B);
  }

  lemma PairwiseUnique(A: Diagram, B: Diagram, v: real, w: real)
    requires IsPairwise(A, B, v) && IsPairwise(A, B, w)
    ensures v == w
    ensures A == B ==> v == 0.0
  {
    if |A| > 0 && |B| > 0 {
      GreedyCostUnique(A, B, v, w);
    }
  }

  ghost function Sum(s: seq<real>): real {
    if |s| == 0 then 0.0 else Sum(s[..|s| - 1]) + s[|s| - 1]
  }

  /** One number for each dimension both have. */
  ghost predicate AreParts(ds1: seq<Diagram>, ds2: seq<Diagram>, parts: seq<real>) {
    && |parts| == (if |ds1| < |ds2| then |ds1| else |ds2|)
    && (forall k :: 0 <= k < |parts| ==> IsPairwise(ds1[k], ds2[k], parts[k]))
  }

  /** The distance of two lists of diagrams: the sum over the dimensions both have. */
  ghost predicate IsDistance(ds1: seq<Diagram>, ds2: seq<Diagram>, total: real) {
    exists parts :: AreParts(ds1, ds2, parts) && total == Sum(parts)
  }

  method Distance(ds1: seq<Diagram>, ds2: seq<Diagram>) returns (total: real)
    ensures IsDistance(ds1, ds2, total)
    ensures ds1 == ds2 ==> total == 0.0
  {
    var maxDim := if |ds1| < |ds2| then |ds1| else |ds2|;
    total := 0.0;
    ghost var parts: seq<real> := [];
    for k := 0 to maxDim
      invariant |parts| == k
      invariant forall l :: 0 <= l < k ==> IsPairwise(ds1[l], ds2[l], parts[l])
      invariant total == Sum(parts)
    {
      var v := Pairwise(ds1[k], ds2[k]);
      total := total + v;
      parts := parts + [v];
    }
    hide IsPairwise;
    assert AreParts(ds1, ds2, parts);
    if ds1 == ds2 {
      SelfDistanceZero(ds1, total);
    }
  }

  lemma DistanceUnique(ds1: seq<Diagram>, ds2: seq<Diagram>, v: real, w: real)
    requires IsDistance(ds1, ds2, v) && IsDistance(ds1, ds2, w)
    ensures v == w
  {
    hide IsPairwise;
    var p :| AreParts(ds1, ds2, p) && v == Sum(p);
    var q :| AreParts(ds1, ds2, q) && w == Sum(q);
    forall k | 0 <= k < |p| ensures p[k] == q[k] {
      PairwiseUnique(ds1[k], ds2[k], p[k], q[k]);
    }
    assert p == q;
  }

  lemma {:induction false} ZeroSum(parts: seq<real>)
    requires forall k :: 0 <= k < |parts| ==> parts[k] == 0.0
    ensures Sum(parts) == 0.0
  {
    if |parts| > 0 { ZeroSum(parts[..|parts| - 1]); }
  }

  /** Against itself every list of diagrams is at distance 0. */
  lemma SelfDistanceZero(ds: seq<Diagram>, total: real)
    requires IsDistance(ds, ds, total)
    ensures total == 0.0
  {
    hide IsPairwise;
    var parts :| AreParts(ds, ds, parts) && total == Sum(parts);
    forall k | 0 <= k < |parts| ensures parts[k] == 0.0 {
      PairwiseUnique(ds[k], ds[k], parts[k], parts[k]);
    }
    ZeroSum(parts);
  }

  /** An empty second dimension adds nothing. */
  lemma SecondEmpty(A: Diagram, B: Diagram, total: real)
    requires |A| > 0 && |B| > 0 && IsDistance([A, []], [B, []], total)
    ensures IsGreedyCost(A, B, total)
  {
    hide IsGreedyCost;
    var parts :| AreParts([A, []], [B, []], parts) && total == Sum(parts);
    assert IsPairwise([A, []][0], [B, []][0], parts[0]) && IsPairwise([A, []][1], [B, []][1], parts[1]);
    assert Sum(parts) == Sum(parts[..1]) + parts[1] && Sum(parts[..1]) == Sum(parts[..1][..0]) + parts[0];
  }

  lemma GreedyGap(A: Diagram, B: Diagram, total: real)
    requires IsGreedyCost(A, B, total)
    ensures -2.0 * total <= TotalLife(A) - TotalLife(B) <= 2.0 * total
  {
    var s :| Schedule(A, B, s) && total == Total(Greedy(s));
    GreedyMatching(A, B, s);
    MatchingGap(A, B, Greedy(s));
  }
}
