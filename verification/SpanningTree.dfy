/** The merge edges of the H0 computation are a minimum spanning tree. */
module SpanningTree {
  import opened Connectivity
  import opened Diagrams
  import opened Persistence
  import opened Sorting

  /** No edge closes a cycle. */
  ghost predicate Acyclic(T: set<Pair>) {
    forall e :: e in T ==> !Connected(T - {e}, e.0, e.1)
  }

  ghost predicate Bounded(n: nat, T: set<Pair>) {
    forall e :: e in T ==> e.0 < n && e.1 < n
  }

  ghost predicate IsSpanningTree(n: nat, T: set<Pair>) {
    && (forall e :: e in T ==> e.0 < e.1 < n)
    && Acyclic(T)
    && Spans(n, T)
  }

  lemma AcyclicSubset(T: set<Pair>, S: set<Pair>)
    requires Acyclic(T) && S <= T
    ensures Acyclic(S)
  {
    forall e | e in S ensures !Connected(S - {e}, e.0, e.1) {
      if Connected(S - {e}, e.0, e.1) {
        Monotone(S - {e}, T - {e}, e.0, e.1);
      }
    }
  }

  lemma RemoveEdge(n: nat, T: set<Pair>, e: Pair)
    requires Bounded(n, T) && e in T
    ensures Components(n, T) == Components(n, T - {e}) - (if Connected(T - {e}, e.0, e.1) then 0 else 1)
  {
    AddEdgeComponents(n, T - {e}, e.0, e.1);
    assert T - {e} + {(e.0, e.1)} == T;
  }

  /** A graph has at least n - |T| components. */
  lemma {:induction false} ComponentsBound(n: nat, T: set<Pair>)
    requires Bounded(n, T)
    ensures Components(n, T) + |T| >= n
    decreases T
  {
    if T == {} {
      EmptyComponents(n);
    } else {
      var e :| e in T;
      RemoveEdge(n, T, e);
      ComponentsBound(n, T - {e});
    }
  }

  /** Acyclic graphs are those with exactly n - |T| components. */
  lemma {:induction false} AcyclicIff(n: nat, T: set<Pair>)
    requires Bounded(n, T)
    ensures Acyclic(T) <==> Components(n, T) + |T| == n
    decreases T
  {
    if Acyclic(T) {
      if T == {} {
        EmptyComponents(n);
      } else {
        var e :| e in T;
        AcyclicSubset(T, T - {e});
        AcyclicIff(n, T - {e});
        RemoveEdge(n, T, e);
      }
    }
    if Components(n, T) + |T| == n {
      forall e | e in T ensures !Connected(T - {e}, e.0, e.1) {
        RemoveEdge(n, T, e);
        ComponentsBound(n, T - {e});
      }
    }
  }

  // ---- weights ----

  /** The length of the pair e. */
  ghost function Length(d: Matrix, e: Pair): real {
    if e.0 < |d| && e.1 < |d[e.0]| then d[e.0][e.1] else 0.0
  }

  ghost function Weight(d: Matrix, T: set<Pair>): real
    decreases T
  {
    if T == {} then 0.0
    else
      var e :| e in T;
      Length(d, e) + Weight(d, T - {e})
  }

  lemma {:induction false} WeightRemove(d: Matrix, T: set<Pair>, e: Pair)
    requires e in T
    ensures Weight(d, T) == Length(d, e) + Weight(d, T - {e})
    decreases T
  {
    var x :| x in T && Weight(d, T) == Length(d, x) + Weight(d, T - {x});
    if x != e {
      WeightRemove(d, T - {x}, e);
      WeightRemove(d, T - {e}, x);
      assert T - {x} - {e} == T - {e} - {x};
    }
  }

  lemma WeightAdd(d: Matrix, T: set<Pair>, e: Pair)
    requires e !in T
    ensures Weight(d, T + {e}) == Length(d, e) + Weight(d, T)
  {
    WeightRemove(d, T + {e}, e);
    assert T + {e} - {e} == T;
  }

  /** A list of edges of d without repetition, nearest first. */
  ghost predicate Ordered(d: Matrix, es: seq<Triple>)
    requires Square(d)
  {
    && Distinct(es)
    && (forall e :: e in es ==> IsEdge(d, e))
    && (forall a, b :: 0 <= a < b < |es| ==> LexLeq(es[a], es[b]))
  }

  lemma OrderedSplit(d: Matrix, es: seq<Triple>)
    requires Square(d) && Ordered(d, es) && |es| > 0
    ensures var e := es[|es| - 1]; var before := es[..|es| - 1];
            && es == before + [e]
            && Ordered(d, before) && IsEdge(d, e)
            && (e.i, e.j) !in Pairs(before)
            && Pairs(es) == Pairs(before) + {(e.i, e.j)}
            && (forall x :: x in before ==> x.w <= e.w)
            && Length(d, (e.i, e.j)) == e.w
  {
    var e, before := es[|es| - 1], es[..|es| - 1];
    assert es == before + [e] && e in es;
    PairsSnoc(before, e);
    forall x | x in before ensures x.w <= e.w && x != e && x in es {
      var k :| 0 <= k < |before| && before[k] == x;
      assert LexLeq(es[k], es[|es| - 1]) && es[k] == x;
    }
    forall x | x in before ensures (x.i, x.j) != (e.i, e.j) {
      assert IsEdge(d, x) && IsEdge(d, e);
    }
  }

  /** The merges among a prefix outnumber the edges of any acyclic graph there. */
  lemma PrefixDominates(d: Matrix, es: seq<Triple>, T: set<Pair>)
    requires Square(d) && Ordered(d, es)
    requires Acyclic(T) && Bounded(|d|, T)
    ensures |T * Pairs(es)| <= |Kept(es)|
  {
    var n := |d|;
    var S := T * Pairs(es);
    AcyclicSubset(T, S);
    AcyclicIff(n, S);
    MonotoneComponents(n, S, Pairs(es));
    KeptComponents(n, es);
  }

  /** How the last edge changes the merges. */
  lemma KeptStep(d: Matrix, es: seq<Triple>)
    requires Square(d) && Ordered(d, es) && |es| > 0
    ensures var e := es[|es| - 1]; var before := es[..|es| - 1];
            var kept := !Connected(Pairs(before), e.i, e.j);
            && Kept(es) == Kept(before) + (if kept then [e] else [])
            && Weight(d, Pairs(Kept(es))) == Weight(d, Pairs(Kept(before))) + (if kept then e.w else 0.0)
            && |Pairs(Kept(es))| == |Pairs(Kept(before))| + (if kept then 1 else 0)
  {
    var e, before := es[|es| - 1], es[..|es| - 1];
    OrderedSplit(d, es);
    KeptFrom(before);
    if !Connected(Pairs(before), e.i, e.j) {
      PairsSnoc(Kept(before), e);
      assert (e.i, e.j) !in Pairs(Kept(before));
      WeightAdd(d, Pairs(Kept(before)), (e.i, e.j));
    } else {
      assert Kept(before) + [] == Kept(before);
    }
  }

  /** How the last edge changes the part of T seen so far. */
  lemma TreeStep(d: Matrix, es: seq<Triple>, T: set<Pair>)
    requires Square(d) && Ordered(d, es) && |es| > 0
    ensures var e := es[|es| - 1]; var before := es[..|es| - 1];
            var taken := (e.i, e.j) in T;
            && Weight(d, T * Pairs(es)) == Weight(d, T * Pairs(before)) + (if taken then e.w else 0.0)
            && |T * Pairs(es)| == |T * Pairs(before)| + (if taken then 1 else 0)
  {
    var e, before := es[|es| - 1], es[..|es| - 1];
    var p := (e.i, e.j);
    OrderedSplit(d, es);
    if p in T {
      assert T * Pairs(es) == T * Pairs(before) + {p};
      WeightAdd(d, T * Pairs(before), p);
    } else {
      assert T * Pairs(es) == T * Pairs(before);
    }
  }

  ghost predicate AtMost(es: seq<Triple>, w: real) {
    forall e :: e in es ==> e.w <= w
  }

  /** The weight of the merges less that of T, and the slack in number, over a prefix. */
  ghost function Excess(d: Matrix, es: seq<Triple>, T: set<Pair>): real {
    Weight(d, Pairs(Kept(es))) - Weight(d, T * Pairs(es))
  }

  ghost function Slack(es: seq<Triple>, T: set<Pair>): int {
    |Kept(es)| - |T * Pairs(es)|
  }

  /** k payments of w. */
  ghost function Pay(k: nat, w: real): real {
    if k == 0 then 0.0 else Pay(k - 1, w) + w
  }

  lemma {:induction false} PayMore(k: nat, v: real, w: real)
    requires v <= w
    ensures Pay(k, v) <= Pay(k, w)
  {
    if k > 0 { PayMore(k - 1, v, w); }
  }

  lemma PayStep(k: nat, x: real, l: nat, y: real, v: real, w: real, kept: bool, taken: bool)
    requires x <= Pay(k, v) && v <= w
    requires y == x + (if kept then v else 0.0) - (if taken then v else 0.0)
    requires l == k + (if kept then 1 else 0) - (if taken then 1 else 0)
    ensures y <= Pay(l, w)
  {
    PayMore(l, v, w);
  }

  lemma PrefixStep(d: Matrix, es: seq<Triple>, T: set<Pair>) returns (kept: bool, taken: bool)
    requires Square(d) && Ordered(d, es) && |es| > 0
    ensures Ordered(d, es[..|es| - 1]) && AtMost(es[..|es| - 1], es[|es| - 1].w)
    ensures Excess(d, es, T) == Excess(d, es[..|es| - 1], T)
      + (if kept then es[|es| - 1].w else 0.0) - (if taken then es[|es| - 1].w else 0.0)
    ensures Slack(es, T) == Slack(es[..|es| - 1], T)
      + (if kept then 1 else 0) - (if taken then 1 else 0)
  {
    var e, before := es[|es| - 1], es[..|es| - 1];
    kept, taken := !Connected(Pairs(before), e.i, e.j), (e.i, e.j) in T;
    OrderedSplit(d, es);
    KeptStep(d, es);
    TreeStep(d, es, T);
  }

  /** Abel summation: merges come no later than the edges of T, so they weigh no more.
      The slack is paid at any rate w above the weights seen so far. */
  lemma {:induction false} PrefixWeight(d: Matrix, es: seq<Triple>, T: set<Pair>, w: real)
    requires Square(d) && Ordered(d, es)
    requires Acyclic(T) && Bounded(|d|, T)
    requires AtMost(es, w)
    ensures Slack(es, T) >= 0 && Excess(d, es, T) <= Pay(Slack(es, T), w)
    decreases |es|
  {
    PrefixDominates(d, es, T);
    if |es| == 0 {
      assert Pairs(es) == {} && T * Pairs(es) == {} && Kept(es) == [];
    } else {
      var before, v := es[..|es| - 1], es[|es| - 1].w;
      var kept, taken := PrefixStep(d, es, T);
      PrefixWeight(d, before, T, v);
      assert es[|es| - 1] in es;
      PayStep(Slack(before, T), Excess(d, before, T), Slack(es, T), Excess(d, es, T), v, w, kept, taken);
    }
  }

  lemma {:induction false} KeptDistinct(d: Matrix, es: seq<Triple>)
    requires Square(d) && Ordered(d, es)
    ensures |Pairs(Kept(es))| == |Kept(es)|
  {
    if |es| > 0 {
      OrderedSplit(d, es);
      KeptStep(d, es);
      KeptDistinct(d, es[..|es| - 1]);
    } else {
      assert Pairs(Kept(es)) == {};
    }
  }

  ghost function TotalDeath(bars: seq<Bar>): real {
    if |bars| == 0 then 0.0 else TotalDeath(bars[..|bars| - 1]) + bars[|bars| - 1].death
  }

  lemma {:induction false} DeathsTotal(d: Matrix, es: seq<Triple>)
    requires Square(d) && Ordered(d, es)
    ensures TotalDeath(MergeBars(Kept(es))) == Weight(d, Pairs(Kept(es)))
  {
    if |es| == 0 {
      assert Pairs(Kept(es)) == {};
    } else {
      var before := es[..|es| - 1];
      OrderedSplit(d, es);
      KeptStep(d, es);
      DeathsTotal(d, before);
      var bars := MergeBars(Kept(es));
      if |Kept(es)| > |Kept(before)| {
        assert bars[..|bars| - 1] == MergeBars(Kept(before));
      }
    }
  }

  lemma HeaviestLast(es: seq<Triple>) returns (w: real)
    requires forall a, b :: 0 <= a < b < |es| ==> LexLeq(es[a], es[b])
    ensures AtMost(es, w)
  {
    w := if |es| == 0 then 0.0 else es[|es| - 1].w;
    forall e | e in es ensures e.w <= w {
      var k :| 0 <= k < |es| && es[k] == e;
      assert k < |es| - 1 ==> LexLeq(es[k], es[|es| - 1]);
    }
  }

  /** The merge edges span, without a cycle. */
  lemma MergesSpan(d: Matrix, es: seq<Triple>)
    requires |d| >= 1 && Square(d) && Filtration(d, es)
    ensures IsSpanningTree(|d|, Pairs(Kept(es)))
  {
    var n, K := |d|, Pairs(Kept(es));
    CompleteSpans(d, es);
    forall x: nat, y: nat | x < n && y < n { KeptConnects(es, x, y); }
    SpansIff(n, K);
    KeptFrom(es);
    BarCount(d, es);
    KeptDistinct(d, es);
    AcyclicIff(n, K);
  }

  /** Every spanning tree uses only listed edges, and n - 1 of them. */
  lemma TreeEdges(d: Matrix, es: seq<Triple>, T: set<Pair>)
    requires |d| >= 1 && Square(d) && Filtration(d, es)
    requires IsSpanningTree(|d|, T)
    ensures T * Pairs(es) == T
    ensures |T| == |d| - 1
  {
    AcyclicIff(|d|, T);
    SpansIff(|d|, T);
    forall e | e in T ensures e in Pairs(es) {
      var x := Triple(d[e.0][e.1], e.0, e.1);
      assert IsEdge(d, x);
      assert x in es;
    }
  }

  /** The merge bars' deaths add up to the least weight of any spanning tree. */
  lemma MinimumSpanningTree(d: Matrix, es: seq<Triple>, T: set<Pair>)
    requires |d| >= 1 && Square(d) && Filtration(d, es)
    requires IsSpanningTree(|d|, T)
    ensures TotalDeath(MergeBars(Kept(es))) == Weight(d, Pairs(Kept(es))) <= Weight(d, T)
  {
    DeathsTotal(d, es);
    TreeEdges(d, es, T);
    BarCount(d, es);
    var w := HeaviestLast(es);
    PrefixWeight(d, es, T, w);
  }

  /** The deaths of the merge bars add up to the weight of a minimum spanning tree. */
  lemma LeastWeight(d: Matrix, h0: seq<Bar>)
    requires |d| >= 1 && Square(d) && IsH0(d, h0)
    ensures |h0| == |d|
    ensures exists K :: IsSpanningTree(|d|, K) && TotalDeath(h0[..|d| - 1]) == Weight(d, K)
    ensures forall T :: IsSpanningTree(|d|, T) ==> TotalDeath(h0[..|d| - 1]) <= Weight(d, T)
  {
    var es :| Filtration(d, es) && h0 == MergeBars(Kept(es)) + EssentialBars(d);
    BarCount(d, es);
    assert h0[..|d| - 1] == MergeBars(Kept(es));
    MergesSpan(d, es);
    MinimumSpanningTree(d, es, Pairs(Kept(es)));
    forall T | IsSpanningTree(|d|, T) ensures TotalDeath(h0[..|d| - 1]) <= Weight(d, T) {
      MinimumSpanningTree(d, es, T);
    }
  }
}
