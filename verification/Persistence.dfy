/** The H0 diagram of topology.py:157-216: the merges of the pairs nearest first
    describe connectivity at every threshold. */
module Persistence {
  import opened Connectivity
  import opened Diagrams
  import opened Sorting

  type Matrix = seq<seq<real>>

  predicate Square(d: Matrix) {
    forall i :: 0 <= i < |d| ==> |d[i]| == |d|
  }

  /** np.max of a non-empty square matrix. */
  function MaxOf(s: seq<real>): (m: real)
    requires |s| > 0
    ensures m in s && forall x :: x in s ==> x <= m
  {
    if |s| == 1 then s[0]
    else
      var m := MaxOf(s[1..]);
      assert s == [s[0]] + s[1..];
      if s[0] > m then s[0] else m
  }

  function MaxEntry(d: Matrix): (m: real)
    requires |d| > 0 && Square(d)
    ensures exists i, j :: 0 <= i < |d| && 0 <= j < |d| && d[i][j] == m
    ensures forall i, j :: 0 <= i < |d| && 0 <= j < |d| ==> d[i][j] <= m
  {
    var rows := seq(|d|, i requires 0 <= i < |d| => MaxOf(d[i]));
    var m := MaxOf(rows);
    assert forall i :: 0 <= i < |d| ==> rows[i] in rows;
    assert forall i, j :: 0 <= i < |d| && 0 <= j < |d| ==> d[i][j] in d[i] && rows[i] == MaxOf(d[i]);
    m
  }

  // ---- the edge list ----

  /** e is the pair (i, j), i < j, with its distance. */
  ghost predicate IsEdge(d: Matrix, e: Triple)
    requires Square(d)
  {
    e.i < e.j < |d| && e.w == d[e.i][e.j]
  }

  /** es lists every pair of vertices once, nearest first. */
  ghost predicate Filtration(d: Matrix, es: seq<Triple>)
    requires Square(d)
  {
    && Distinct(es)
    && (forall e :: e in es <==> IsEdge(d, e))
    && (forall a, b :: 0 <= a < b < |es| ==> LexLeq(es[a], es[b]))
  }

  /** The vertex pairs of a list of edges. */
  ghost function Pairs(es: seq<Triple>): set<Pair> {
    set e | e in es :: (e.i, e.j)
  }

  lemma PairsSnoc(es: seq<Triple>, e: Triple)
    ensures Pairs(es + [e]) == Pairs(es) + {(e.i, e.j)}
  {
    assert forall x :: x in es + [e] <==> x in es || x == e;
  }

  // ---- the merges of Kruskal's loop, by connectivity alone ----

  /** The edges that join two components of the edges before them. */
  ghost function Kept(es: seq<Triple>): seq<Triple> {
    if |es| == 0 then []
    else
      var before, e := es[..|es| - 1], es[|es| - 1];
      if Connected(Pairs(before), e.i, e.j) then Kept(before) else Kept(before) + [e]
  }

  ghost predicate InRange(n: nat, es: seq<Triple>) {
    forall e :: e in es ==> e.i < n && e.j < n
  }

  lemma {:induction false} KeptFrom(es: seq<Triple>)
    ensures forall e :: e in Kept(es) ==> e in es
  {
    if |es| > 0 {
      KeptFrom(es[..|es| - 1]);
    }
  }

  /** Every merge removes exactly one component. */
  lemma {:induction false} KeptComponents(n: nat, es: seq<Triple>)
    requires InRange(n, es)
    ensures |Kept(es)| + Components(n, Pairs(es)) == n
  {
    if |es| == 0 {
      assert Pairs(es) == {};
      EmptyComponents(n);
    } else {
      var before, e := es[..|es| - 1], es[|es| - 1];
      assert es == before + [e];
      assert e in es;
      KeptComponents(n, before);
      PairsSnoc(before, e);
      AddEdgeComponents(n, Pairs(before), e.i, e.j);
    }
  }

  /** The merges alone connect what all the edges connect. */
  lemma {:induction false} KeptConnects(es: seq<Triple>, x: nat, y: nat)
    ensures Connected(Pairs(Kept(es)), x, y) <==> Connected(Pairs(es), x, y)
  {
    if |es| > 0 {
      var before, e := es[..|es| - 1], es[|es| - 1];
      assert es == before + [e];
      PairsSnoc(before, e);
      AddEdge(Pairs(before), e.i, e.j, x, y);
      KeptConnects(before, x, y);
      if Connected(Pairs(before), e.i, e.j) {
        if Via(Pairs(before), e.i, e.j, x, y) {
          Shortcut(Pairs(before), e.i, e.j, x, y);
        }
      } else {
        PairsSnoc(Kept(before), e);
        AddEdge(Pairs(Kept(before)), e.i, e.j, x, y);
        KeptConnects(before, x, e.i);
        KeptConnects(before, x, e.j);
        KeptConnects(before, e.i, y);
        KeptConnects(before, e.j, y);
      }
    }
  }

  lemma Shortcut(E: set<Pair>, u: nat, v: nat, x: nat, y: nat)
    requires Connected(E, u, v) && Via(E, u, v, x, y)
    ensures Connected(E, x, y)
  {
    Symmetric(E, u, v);
    if Connected(E, x, u) && Connected(E, v, y) {
      Transitive(E, x, u, v);
      Transitive(E, x, v, y);
    } else if Connected(E, x, v) && Connected(E, u, y) {
      Transitive(E, x, v, u);
      Transitive(E, x, u, y);
    }
  }

  // ---- the diagram ----

  ghost function MergeBars(kept: seq<Triple>): seq<Bar> {
    seq(|kept|, k requires 0 <= k < |kept| => Bar(0.0, kept[k].w))
  }

  /** The essential bars: one if there is a vertex at all. */
  ghost function EssentialBars(d: Matrix): seq<Bar>
    requires Square(d)
  {
    if |d| == 0 then [] else [Bar(0.0, MaxEntry(d) * 1.5)]
  }

  /** The graph at scale t: i - j when their distance is at most t. */
  ghost function Within(d: Matrix, t: real): set<Pair>
    requires Square(d)
  {
    set i: nat, j: nat | i < j < |d| && d[i][j] <= t :: (i, j)
  }

  /** How many bars have died by scale t. */
  ghost function Deaths(bars: seq<Bar>, t: real): nat {
    if |bars| == 0 then 0
    else Deaths(bars[..|bars| - 1], t) + (if bars[|bars| - 1].death <= t then 1 else 0)
  }

  ghost function UpTo(es: seq<Triple>, t: real): set<Pair> {
    set e | e in es && e.w <= t :: (e.i, e.j)
  }

  /** In a sorted list an edge within t comes after edges within t only. */
  lemma UpToStep(before: seq<Triple>, e: Triple, t: real)
    requires forall a, b :: 0 <= a < b < |before + [e]| ==> LexLeq((before + [e])[a], (before + [e])[b])
    ensures e.w <= t ==> UpTo(before, t) == Pairs(before) && UpTo(before + [e], t) == Pairs(before) + {(e.i, e.j)}
    ensures e.w > t ==> UpTo(before + [e], t) == UpTo(before, t)
  {
    assert forall x :: x in before + [e] <==> x in before || x == e;
    if e.w <= t {
      forall x | x in before ensures x.w <= t {
        var k :| 0 <= k < |before| && before[k] == x;
        assert LexLeq((before + [e])[k], (before + [e])[|before|]);
      }
    }
  }

  lemma DeathsStep(before: seq<Triple>, e: Triple, t: real)
    ensures Deaths(MergeBars(Kept(before + [e])), t)
         == Deaths(MergeBars(Kept(before)), t) + (if e.w <= t && !Connected(Pairs(before), e.i, e.j) then 1 else 0)
  {
    assert (before + [e])[..|before|] == before;
    if !Connected(Pairs(before), e.i, e.j) {
      var bars := MergeBars(Kept(before) + [e]);
      assert bars[..|bars| - 1] == MergeBars(Kept(before));
    }
  }

  lemma {:induction false} PrefixThreshold(n: nat, es: seq<Triple>, t: real)
    requires InRange(n, es)
    requires forall a, b :: 0 <= a < b < |es| ==> LexLeq(es[a], es[b])
    ensures Deaths(MergeBars(Kept(es)), t) + Components(n, UpTo(es, t)) == n
  {
    if |es| == 0 {
      assert UpTo(es, t) == {};
      EmptyComponents(n);
    } else {
      var before, e := es[..|es| - 1], es[|es| - 1];
      assert es == before + [e] && e in es;
      PrefixThreshold(n, before, t);
      UpToStep(before, e, t);
      AddEdgeComponents(n, Pairs(before), e.i, e.j);
      DeathsStep(before, e, t);
      hide Connected, Components, UpTo, Pairs, Kept, Deaths, MergeBars;
    }
  }

  /** At every scale the number of components is n minus the merge bars that have died. */
  lemma ThresholdTheorem(d: Matrix, es: seq<Triple>, t: real)
    requires Square(d) && Filtration(d, es)
    ensures Components(|d|, Within(d, t)) == |d| - Deaths(MergeBars(Kept(es)), t)
  {
    PrefixThreshold(|d|, es, t);
    forall p: Pair ensures p in Within(d, t) <==> p in UpTo(es, t) {
      if p in Within(d, t) {
        var e := Triple(d[p.0][p.1], p.0, p.1);
        assert IsEdge(d, e);
        assert e in es && e.w <= t;
      }
    }
    assert Within(d, t) == UpTo(es, t);
  }

  /** All pairs together connect everything. */
  lemma CompleteSpans(d: Matrix, es: seq<Triple>)
    requires Square(d) && Filtration(d, es)
    ensures Spans(|d|, Pairs(es))
  {
    forall x: nat, y: nat | x < |d| && y < |d| ensures Connected(Pairs(es), x, y) {
      if x == y {
        Reflexive(Pairs(es), x);
      } else {
        var e := if x < y then Triple(d[x][y], x, y) else Triple(d[y][x], y, x);
        assert IsEdge(d, e);
        assert e in es;
        EdgeConnects(Pairs(es), x, y);
      }
    }
  }

  /** n - 1 merge bars, in nondecreasing order of death. */
  lemma BarCount(d: Matrix, es: seq<Triple>)
    requires |d| >= 1 && Square(d) && Filtration(d, es)
    ensures |Kept(es)| == |d| - 1
    ensures forall a, b :: 0 <= a < b < |Kept(es)| ==> MergeBars(Kept(es))[a].death <= MergeBars(Kept(es))[b].death
  {
    CompleteSpans(d, es);
    SpansIff(|d|, Pairs(es));
    KeptComponents(|d|, es);
    KeptSorted(es);
  }

  /** The bars of the merges of some nearest-first order of all pairs, then the essential bar. */
  ghost predicate IsH0(d: Matrix, h0: seq<Bar>)
    requires Square(d)
  {
    exists es :: Filtration(d, es) && h0 == MergeBars(Kept(es)) + EssentialBars(d)
  }

  ghost predicate AscendingBars(bars: seq<Bar>) {
    && (forall k :: 0 <= k < |bars| ==> bars[k].birth == 0.0)
    && (forall a, b :: 0 <= a < b < |bars| ==> bars[a].death <= bars[b].death)
  }

  ghost predicate CountsComponents(d: Matrix, bars: seq<Bar>)
    requires Square(d)
  {
    forall t: real :: Components(|d|, Within(d, t)) == |d| - Deaths(bars, t)
  }

  /** n - 1 ascending bars from 0 that count the components at every scale, and one essential bar. */
  ghost predicate Describes(d: Matrix, h0: seq<Bar>)
    requires Square(d)
  {
    if |d| == 0 then h0 == []
    else
      && |h0| == |d|
      && AscendingBars(h0[..|d| - 1])
      && CountsComponents(d, h0[..|d| - 1])
      && h0[|d| - 1] == Bar(0.0, MaxEntry(d) * 1.5)
  }

  lemma H0Describes(d: Matrix, h0: seq<Bar>)
    requires Square(d) && IsH0(d, h0)
    ensures Describes(d, h0)
  {
    var es :| Filtration(d, es) && h0 == MergeBars(Kept(es)) + EssentialBars(d);
    if |d| == 0 {
      KeptComponents(0, es);
    } else {
      MergesDescribe(d, es);
      hide Filtration, Kept, MaxEntry, AscendingBars, CountsComponents;
      assert h0[..|d| - 1] == MergeBars(Kept(es));
    }
  }

  lemma MergesDescribe(d: Matrix, es: seq<Triple>)
    requires |d| >= 1 && Square(d) && Filtration(d, es)
    ensures |Kept(es)| == |d| - 1
    ensures AscendingBars(MergeBars(Kept(es))) && CountsComponents(d, MergeBars(Kept(es)))
  {
    BarCount(d, es);
    hide Filtration, Kept, Components, Within, Deaths;
    forall t: real ensures Components(|d|, Within(d, t)) == |d| - Deaths(MergeBars(Kept(es)), t) {
      ThresholdTheorem(d, es, t);
    }
  }

  lemma {:induction false} DeathsBound(bars: seq<Bar>, t: real)
    ensures Deaths(bars, t) <= |bars|
    ensures (forall k :: 0 <= k < |bars| ==> bars[k].death <= t) ==> Deaths(bars, t) == |bars|
  {
    if |bars| > 0 {
      DeathsBound(bars[..|bars| - 1], t);
    }
  }

  lemma LastDeath(a: seq<Bar>, b: seq<Bar>)
    requires AscendingBars(a) && |a| == |b| > 0 && (forall t: real :: Deaths(a, t) == Deaths(b, t))
    ensures a[|a| - 1].death >= b[|b| - 1].death
  {
    var t := a[|a| - 1].death;
    DeathsBound(a, t);
    assert Deaths(a, t) == Deaths(b, t);
    DeathsBound(b[..|b| - 1], t);
  }

  /** Ascending bars are determined by how many have died at every scale. */
  lemma {:induction false} CountsDetermine(a: seq<Bar>, b: seq<Bar>)
    requires AscendingBars(a) && AscendingBars(b) && |a| == |b|
    requires forall t: real :: Deaths(a, t) == Deaths(b, t)
    ensures a == b
  {
    if |a| > 0 {
      var n := |a| - 1;
      LastDeath(a, b);
      LastDeath(b, a);
      forall t: real ensures Deaths(a[..n], t) == Deaths(b[..n], t) {
        assert Deaths(a, t) == Deaths(b, t);
      }
      CountsDetermine(a[..n], b[..n]);
      assert a == a[..n] + [a[n]] && b == b[..n] + [b[n]];
    }
  }

  /** The description leaves no choice: a matrix has one diagram. */
  lemma DescribesUnique(d: Matrix, a: seq<Bar>, b: seq<Bar>)
    requires Square(d) && Describes(d, a) && Describes(d, b)
    ensures a == b
  {
    if |d| > 0 {
      var n := |d| - 1;
      forall t: real ensures Deaths(a[..n], t) == Deaths(b[..n], t) {
        assert Components(|d|, Within(d, t)) == |d| - Deaths(a[..n], t);
        assert Components(|d|, Within(d, t)) == |d| - Deaths(b[..n], t);
      }
      CountsDetermine(a[..n], b[..n]);
      assert a == a[..n] + [a[n]] && b == b[..n] + [b[n]];
    }
  }

  lemma {:induction false} KeptSorted(es: seq<Triple>)
    requires forall a, b :: 0 <= a < b < |es| ==> LexLeq(es[a], es[b])
    ensures forall a, b :: 0 <= a < b < |Kept(es)| ==> LexLeq(Kept(es)[a], Kept(es)[b])
  {
    if |es| > 0 {
      var before, e := es[..|es| - 1], es[|es| - 1];
      KeptSorted(before);
      KeptFrom(before);
      forall x | x in before ensures LexLeq(x, e) {
        var k :| 0 <= k < |before| && before[k] == x;
        assert es[k] == x;
      }
    }
  }
}
