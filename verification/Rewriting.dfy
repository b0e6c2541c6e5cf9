/** Double-pushout rewriting of category.py:138-269, on graph shapes. */
module Rewriting {
  import opened Matching
  import opened Multigraph
  import opened Sorting

  /** Left side L, right side R, and the node indices of the interface K. */
  datatype Rule = Rule(lhs: Pattern, rhs: Pattern, kept: set<nat>)

  /** A rule with the match it is applied at. */
  datatype Step = Step(rule: Rule, match_: map<nat, Id>)

  /** The result of a rewrite, or the exception it raises. */
  datatype Outcome = Rewritten(shape: Shape) | GluingViolation | MissingKey

  predicate WellFormedStep(step: Step) {
    WellFormed(step.rule.lhs) && WellFormed(step.rule.rhs)
  }

  predicate AllWellFormed(steps: seq<Step>) {
    forall k :: 0 <= k < |steps| ==> WellFormedStep(steps[k])
  }

  // ---- one rewrite, as a function ----

  /** The indices of L \ K. */
  function DeletedIndices(r: Rule): set<nat> {
    set i: nat | i < |r.lhs.nodes| && i !in r.kept
  }

  /** Every index of L and K is matched. */
  predicate Covered(step: Step) {
    DeletedIndices(step.rule) <= step.match_.Keys && step.rule.kept <= step.match_.Keys
  }

  function DeletedIds(step: Step): set<Id>
    requires Covered(step)
  {
    set i | i in DeletedIndices(step.rule) :: step.match_[i]
  }

  function KeptIds(step: Step): set<Id>
    requires Covered(step)
  {
    set i | i in step.rule.kept :: step.match_[i]
  }

  lemma CoveredIndex(step: Step, i: nat)
    requires Covered(step) && i < |step.rule.lhs.nodes|
    ensures i in step.match_
  {
    if i !in step.rule.kept { assert i in DeletedIndices(step.rule); }
  }

  /** L has an edge between u and v, in either direction. */
  ghost predicate InLhs(step: Step, u: Id, v: Id)
    requires WellFormedStep(step) && Covered(step)
  {
    exists e :: e in step.rule.lhs.edges &&
      (CoveredIndex(step, e.source); CoveredIndex(step, e.target);
       var a, b := step.match_[e.source], step.match_[e.target];
       (a == u && b == v) || (b == u && a == v))
  }

  /** Every edge from a deleted to a preserved node is in L. */
  ghost predicate Glued(s: Shape, step: Step)
    requires WellFormedStep(step) && Covered(step)
  {
    forall e :: e in s.edges && e.source in DeletedIds(step) && e.target in KeptIds(step) ==>
                  InLhs(step, e.source, e.target)
  }

  function RemoveShape(s: Shape, ids: set<Id>): Shape {
    Shape(Outside(s.order, ids), s.nodes - ids, AvoidingEdges(s.edges, ids))
  }

  function AddShapeNode(s: Shape, id: Id, node: Node): Shape {
    s.(order := if id in s.nodes then s.order else s.order + [id], nodes := s.nodes[id := node])
  }

  /** How many of the indices below i are outside K. */
  function Rank(r: Rule, i: nat): nat {
    if i == 0 then 0 else Rank(r, i - 1) + (if i - 1 in r.kept then 0 else 1)
  }

  /** The graph, and the node of each index of R, after the indices below i. */
  function Grow(s: Shape, step: Step, i: nat): (r: (Shape, seq<Id>))
    requires Covered(step) && i <= |step.rule.rhs.nodes|
    ensures |r.1| == i && r.0.edges == s.edges
  {
    if i == 0 then (s, [])
    else
      var (t, ids) := Grow(s, step, i - 1);
      if i - 1 in step.rule.kept then (t, ids + [step.match_[i - 1]])
      else
        var id := Generated(|t.order|, i - 1);
        var rn := step.rule.rhs.nodes[i - 1];
        (AddShapeNode(t, id, Node(rn.tag, rn.props, Draw(42, Rank(step.rule, i - 1)))), ids + [id])
  }

  /** e runs as the pattern edge says, from its source's node to its target's. */
  predicate RunsAs(e: Edge, pe: PatternEdge, ids: seq<Id>)
    requires pe.source < |ids| && pe.target < |ids|
  {
    e.source == ids[pe.source] && e.target == ids[pe.target] && e.relation == pe.relation && e.props == pe.props
  }

  /** The edges of R between the nodes `ids`. */
  function RhsEdges(p: Pattern, ids: seq<Id>): (r: seq<Edge>)
    requires WellFormed(p) && |ids| == |p.nodes|
    ensures |r| == |p.edges|
    ensures forall k :: 0 <= k < |r| ==> (assert p.edges[k] in p.edges; RunsAs(r[k], p.edges[k], ids))
  {
    seq(|p.edges|, k requires 0 <= k < |p.edges| =>
      assert p.edges[k] in p.edges;
      Edge(ids[p.edges[k].source], ids[p.edges[k].target], p.edges[k].relation, p.edges[k].props))
  }

  predicate EndsIn(es: seq<Edge>, nodes: map<Id, Node>) {
    forall e :: e in es ==> e.source in nodes && e.target in nodes
  }

  // ---- what a rewrite does ----

  lemma {:induction false} AvoidingCounts(es: seq<Edge>, ids: set<Id>, e: Edge)
    ensures multiset(AvoidingEdges(es, ids))[e] == if Touches(e, ids) then 0 else multiset(es)[e]
    ensures e in AvoidingEdges(es, ids) <==> e in es && !Touches(e, ids)
  {
    if |es| > 0 {
      var t, y := es[..|es| - 1], es[|es| - 1];
      assert es == t + [y];
      AvoidingCounts(t, ids, e);
    }
  }

  lemma RemoveShapeValid(s: Shape, ids: set<Id>)
    requires ValidShape(s)
    ensures ValidShape(RemoveShape(s, ids))
  {
    OutsideElements(s.order, ids);
    forall e { AvoidingCounts(s.edges, ids, e); }
  }

  ghost predicate GeneratedBelow(x: Id, i: nat) {
    x.Generated? && x.index < i
  }

  /** Growing keeps every node that is not overwritten and adds only generated ids. */
  lemma {:induction false} GrowNodes(s: Shape, step: Step, i: nat)
    requires ValidShape(s) && Covered(step) && i <= |step.rule.rhs.nodes|
    ensures var (t, ids) := Grow(s, step, i);
            && ValidShape(t)
            && (forall x :: x in s.nodes ==> x in t.nodes)
            && (forall x :: x in t.nodes && x !in ids ==> x in s.nodes && t.nodes[x] == s.nodes[x])
            && (forall x :: x in t.nodes && x !in s.nodes ==> GeneratedBelow(x, i))
  {
    if i > 0 {
      GrowNodes(s, step, i - 1);
      var (t, ids) := Grow(s, step, i - 1);
      var (t', ids') := Grow(s, step, i);
      assert ids' == ids + [ids'[i - 1]];
      assert forall x :: x in ids ==> x in ids';
      assert ids'[i - 1] in ids';
    }
  }

  /** The indices below i outside K. */
  ghost function NewBelow(r: Rule, i: nat): set<nat> {
    set k: nat | k < i && k !in r.kept
  }

  lemma {:induction false} RankCounts(r: Rule, i: nat)
    ensures Rank(r, i) == |NewBelow(r, i)|
  {
    if i > 0 {
      RankCounts(r, i - 1);
      assert NewBelow(r, i) == NewBelow(r, i - 1) + (if i - 1 in r.kept then {} else {i - 1});
    }
  }

  /** The first |ids| indices of R are where they should be: those of K at their matched nodes,
      every other one at a node of its own with R's label and properties and the next vector drawn. */
  ghost predicate Placed(step: Step, nodes: map<Id, Node>, ids: seq<Id>)
    requires Covered(step) && |ids| <= |step.rule.rhs.nodes|
  {
    forall j :: 0 <= j < |ids| ==>
      if j in step.rule.kept then ids[j] == step.match_[j]
      else OwnNode(nodes, ids[j], j, step.rule)
  }

  ghost predicate OwnNode(nodes: map<Id, Node>, id: Id, j: nat, r: Rule)
    requires j < |r.rhs.nodes|
  {
    && id.Generated? && id.index == j && id in nodes
    && nodes[id] == Node(r.rhs.nodes[j].tag, r.rhs.nodes[j].props, Draw(42, |NewBelow(r, j)|))
  }

  lemma PlacedKept(step: Step, nodes: map<Id, Node>, ids: seq<Id>, id: Id)
    requires Covered(step) && |ids| < |step.rule.rhs.nodes| && Placed(step, nodes, ids)
    requires |ids| in step.rule.kept && id == step.match_[|ids|]
    ensures Placed(step, nodes, ids + [id])
  {
    hide OwnNode;
  }

  lemma PlacedNew(step: Step, nodes: map<Id, Node>, ids: seq<Id>, id: Id, node: Node)
    requires Covered(step) && |ids| < |step.rule.rhs.nodes| && Placed(step, nodes, ids)
    requires |ids| !in step.rule.kept && id.Generated? && id.index == |ids|
    requires var rn := step.rule.rhs.nodes[|ids|];
             node == Node(rn.tag, rn.props, Draw(42, |NewBelow(step.rule, |ids|)|))
    ensures Placed(step, nodes[id := node], ids + [id])
  {
    forall j | 0 <= j < |ids| && j !in step.rule.kept
      ensures OwnNode(nodes[id := node], ids[j], j, step.rule)
    {
      assert OwnNode(nodes, ids[j], j, step.rule);
    }
  }

  lemma {:induction false} GrowAdds(s: Shape, step: Step, i: nat)
    requires ValidShape(s) && Covered(step) && i <= |step.rule.rhs.nodes|
    ensures Placed(step, Grow(s, step, i).0.nodes, Grow(s, step, i).1)
  {
    if i > 0 {
      GrowAdds(s, step, i - 1);
      var (t, ids) := Grow(s, step, i - 1);
      var (t', ids') := Grow(s, step, i);
      var id := ids'[i - 1];
      assert ids' == ids + [id];
      RankCounts(step.rule, i - 1);
      hide Placed, OwnNode, NewBelow;
      if i - 1 in step.rule.kept {
        PlacedKept(step, t.nodes, ids, id);
      } else {
        PlacedNew(step, t.nodes, ids, id, t'.nodes[id]);
      }
    }
  }

  /** x is the node of an index outside K. */
  ghost predicate IsNew(r: Rule, ids: seq<Id>, x: Id) {
    exists j :: 0 <= j < |ids| && j !in r.kept && ids[j] == x
  }

  lemma NewSnoc(r: Rule, ids: seq<Id>, id: Id, x: Id)
    ensures IsNew(r, ids + [id], x) <==> IsNew(r, ids, x) || (|ids| !in r.kept && id == x)
  {
    var all := ids + [id];
    if IsNew(r, ids, x) {
      var j :| 0 <= j < |ids| && j !in r.kept && ids[j] == x;
      assert all[j] == x;
    }
    if |ids| !in r.kept && id == x {
      assert all[|ids|] == x;
    }
  }

  /** `after` has the nodes of `before` and the new ones, and keeps the data of all others. */
  ghost predicate Adds(r: Rule, before: map<Id, Node>, after: map<Id, Node>, ids: seq<Id>) {
    && (forall x :: x in after <==> x in before || IsNew(r, ids, x))
    && (forall x :: x in before && !IsNew(r, ids, x) ==> x in after && after[x] == before[x])
  }

  lemma AddsSnoc(r: Rule, before: map<Id, Node>, after: map<Id, Node>, ids: seq<Id>, id: Id, node: Node)
    requires Adds(r, before, after, ids)
    ensures |ids| in r.kept ==> Adds(r, before, after, ids + [id])
    ensures |ids| !in r.kept ==> Adds(r, before, after[id := node], ids + [id])
  {
    forall x ensures IsNew(r, ids + [id], x) <==> IsNew(r, ids, x) || (|ids| !in r.kept && id == x) {
      NewSnoc(r, ids, id, x);
    }
    hide IsNew;
  }

  /** Growing adds the nodes of the indices outside K and touches no other. */
  lemma {:induction false} GrowKeeps(s: Shape, step: Step, i: nat)
    requires ValidShape(s) && Covered(step) && i <= |step.rule.rhs.nodes|
    ensures Adds(step.rule, s.nodes, Grow(s, step, i).0.nodes, Grow(s, step, i).1)
  {
    if i > 0 {
      GrowKeeps(s, step, i - 1);
      var (t, ids) := Grow(s, step, i - 1);
      var (t', ids') := Grow(s, step, i);
      var id := ids'[i - 1];
      hide Adds;
      AddsSnoc(step.rule, s.nodes, t.nodes, ids, id,
               if id in t'.nodes then t'.nodes[id] else Node("", map[], Draw(0, 0)));
      assert ids' == ids + [id];
    }
  }

  ghost function Rewrite(s: Shape, step: Step): (r: Outcome)
    requires ValidShape(s) && WellFormedStep(step)
    ensures r.Rewritten? ==> ValidShape(r.shape)
  {
    if !Covered(step) then MissingKey
    else if !Glued(s, step) then GluingViolation
    else
      RemoveShapeValid(s, DeletedIds(step));
      GrowNodes(RemoveShape(s, DeletedIds(step)), step, |step.rule.rhs.nodes|);
      var (t, ids) := Grow(RemoveShape(s, DeletedIds(step)), step, |step.rule.rhs.nodes|);
      var added := RhsEdges(step.rule.rhs, ids);
      if !EndsIn(added, t.nodes) then MissingKey
      else Rewritten(t.(edges := t.edges + added))
  }

  /** The id generated for index i when no earlier one was taken. */
  function ExpectedId(base: nat, r: Rule, i: nat): Id {
    Generated(base + Rank(r, i), i)
  }

  /** None of the ids generated for indices below i is in the graph already. */
  ghost predicate AllFresh(s: Shape, r: Rule, i: nat) {
    forall j: nat {:trigger ExpectedId(|s.order|, r, j)} :: j < i && j !in r.kept ==>
      ExpectedId(|s.order|, r, j) !in s.nodes
  }

  lemma AllFreshStep(s: Shape, r: Rule, i: nat)
    ensures AllFresh(s, r, i + 1) <==>
            AllFresh(s, r, i) && (i in r.kept || ExpectedId(|s.order|, r, i) !in s.nodes)
  {
  }

  /** The number of nodes after the indices below i. */
  ghost function Grown(s: Shape, step: Step, i: nat): nat
    requires Covered(step) && i <= |step.rule.rhs.nodes|
  {
    |Grow(s, step, i).0.order|
  }

  /** Index i adds a node unless it is in K or its id is in the graph already. */
  lemma GrowStep(s: Shape, step: Step, i: nat)
    requires ValidShape(s) && Covered(step) && i < |step.rule.rhs.nodes|
    ensures var n := Grown(s, step, i);
            Grown(s, step, i + 1) == n + (if i in step.rule.kept || Generated(n, i) in s.nodes then 0 else 1)
  {
    FreshNext(s, step, i, Grown(s, step, i));
  }

  /** One node more per index outside K exactly when every generated id is new. */
  lemma {:induction false} GrowCount(s: Shape, step: Step, i: nat)
    requires ValidShape(s) && Covered(step) && i <= |step.rule.rhs.nodes|
    ensures Grown(s, step, i) <= |s.order| + Rank(step.rule, i)
    ensures Grown(s, step, i) == |s.order| + Rank(step.rule, i) <==> AllFresh(s, step.rule, i)
  {
    if i > 0 {
      hide AllFresh, Grown, ValidShape, Covered;
      GrowCount(s, step, i - 1);
      AllFreshStep(s, step.rule, i - 1);
      GrowStep(s, step, i - 1);
      CountStep(s, |s.order| + Rank(step.rule, i - 1), Grown(s, step, i - 1), Grown(s, step, i), i - 1,
        i - 1 in step.rule.kept, AllFresh(s, step.rule, i - 1), AllFresh(s, step.rule, i));
    }
  }

  lemma CountStep(s: Shape, expected: nat, n: nat, m: nat, i: nat, kept: bool, freshBefore: bool, freshAfter: bool)
    requires n <= expected && (n == expected <==> freshBefore)
    requires freshAfter <==> freshBefore && (kept || Generated(expected, i) !in s.nodes)
    requires m == n + (if kept || Generated(n, i) in s.nodes then 0 else 1)
    ensures m <= expected + (if kept then 0 else 1)
    ensures m == expected + (if kept then 0 else 1) <==> freshAfter
  {
  }

  /** The next generated id was not made by an earlier index. */
  lemma FreshNext(s: Shape, step: Step, i: nat, n: nat)
    requires ValidShape(s) && Covered(step) && i <= |step.rule.rhs.nodes|
    ensures Generated(n, i) in Grow(s, step, i).0.nodes <==> Generated(n, i) in s.nodes
  {
    GrowNodes(s, step, i);
  }

  /** x is the matched node of an index of L outside K. */
  ghost predicate Deleted(step: Step, x: Id) {
    exists i :: i in step.match_ && i < |step.rule.lhs.nodes| && i !in step.rule.kept && step.match_[i] == x
  }

  lemma DeletedIff(step: Step, x: Id)
    requires Covered(step)
    ensures x in DeletedIds(step) <==> Deleted(step, x)
  {
    if Deleted(step, x) {
      var i :| i in step.match_ && i < |step.rule.lhs.nodes| && i !in step.rule.kept && step.match_[i] == x;
      assert i in DeletedIndices(step.rule);
    }
  }

  /** x is the matched node of an index of K. */
  ghost predicate Preserved(step: Step, x: Id) {
    exists i :: i in step.match_ && i in step.rule.kept && step.match_[i] == x
  }

  /** Some edge of L is matched to one from u to v or to one from v to u. */
  ghost predicate MatchedEdge(step: Step, u: Id, v: Id) {
    exists k :: 0 <= k < |step.rule.lhs.edges| && (
      var a, b := step.rule.lhs.edges[k].source, step.rule.lhs.edges[k].target;
      && a in step.match_ && b in step.match_
      && ((step.match_[a] == u && step.match_[b] == v) || (step.match_[a] == v && step.match_[b] == u)))
  }

  lemma InLhsIff(step: Step, u: Id, v: Id)
    requires WellFormedStep(step) && Covered(step)
    ensures InLhs(step, u, v) <==> MatchedEdge(step, u, v)
  {
    var es := step.rule.lhs.edges;
    forall k | 0 <= k < |es| ensures es[k] in es && es[k].source in step.match_ && es[k].target in step.match_ {
      assert es[k] in es;
      CoveredIndex(step, es[k].source);
      CoveredIndex(step, es[k].target);
    }
    if InLhs(step, u, v) {
      var e :| e in es && (
        CoveredIndex(step, e.source); CoveredIndex(step, e.target);
        var a, b := step.match_[e.source], step.match_[e.target];
        (a == u && b == v) || (b == u && a == v));
      var k :| 0 <= k < |es| && es[k] == e;
    }
    if MatchedEdge(step, u, v) {
      var k :| 0 <= k < |es| && (
        var a, b := es[k].source, es[k].target;
        && a in step.match_ && b in step.match_
        && ((step.match_[a] == u && step.match_[b] == v) || (step.match_[a] == v && step.match_[b] == u)));
      assert es[k] in es;
    }
  }

  /** The gluing condition: an edge from a deleted to a preserved node must be one of L's, in
      either direction. */
  lemma GluedIff(s: Shape, step: Step)
    requires WellFormedStep(step) && Covered(step)
    ensures Glued(s, step) <==>
            forall e :: e in s.edges && Deleted(step, e.source) && Preserved(step, e.target) ==>
                          MatchedEdge(step, e.source, e.target)
  {
    forall e | e in s.edges
      ensures e.source in DeletedIds(step) <==> Deleted(step, e.source)
      ensures e.target in KeptIds(step) <==> Preserved(step, e.target)
      ensures InLhs(step, e.source, e.target) <==> MatchedEdge(step, e.source, e.target)
    {
      DeletedIff(step, e.source);
      InLhsIff(step, e.source, e.target);
    }
    hide Deleted, Preserved, InLhs, MatchedEdge;
  }

  /** The nodes are the host's that are not deleted and one for each index outside K; the latter
      are R's, all others, preserved ones included, keep their data. */
  ghost predicate NodesRewritten(s: Shape, step: Step, nodes: map<Id, Node>, ids: seq<Id>)
    requires Covered(step) && |ids| <= |step.rule.rhs.nodes|
  {
    && Placed(step, nodes, ids)
    && (forall x :: x in nodes <==> (x in s.nodes && !Deleted(step, x)) || IsNew(step.rule, ids, x))
    && (forall x :: x in s.nodes && !Deleted(step, x) && !IsNew(step.rule, ids, x) ==> nodes[x] == s.nodes[x])
  }

  /** Exactly the host's edges with neither end deleted, as often as there. */
  ghost predicate EdgesKept(s: Shape, step: Step, kept: seq<Edge>) {
    forall e :: multiset(kept)[e]
      == (if Deleted(step, e.source) || Deleted(step, e.target) then 0 else multiset(s.edges)[e])
  }

  /** After the kept edges one for every edge of R, in order. */
  ghost predicate EdgesAppended(edges: seq<Edge>, kept: seq<Edge>, R: Pattern, ids: seq<Id>)
    requires WellFormed(R) && |ids| == |R.nodes|
  {
    && |edges| == |kept| + |R.edges| && edges[..|kept|] == kept
    && forall k :: 0 <= k < |R.edges| ==> (assert R.edges[k] in R.edges; RunsAs(edges[|kept| + k], R.edges[k], ids))
  }

  lemma NodesAfter(s: Shape, step: Step)
    requires ValidShape(s) && Covered(step)
    ensures var (t, ids) := Grow(RemoveShape(s, DeletedIds(step)), step, |step.rule.rhs.nodes|);
            NodesRewritten(s, step, t.nodes, ids)
  {
    var D := DeletedIds(step);
    var s0, n := RemoveShape(s, D), |step.rule.rhs.nodes|;
    RemoveShapeValid(s, D);
    GrowAdds(s0, step, n);
    GrowKeeps(s0, step, n);
    forall x ensures x in D <==> Deleted(step, x) {
      DeletedIff(step, x);
    }
    hide Deleted, IsNew, Placed, Grow;
  }

  lemma KeptAfter(s: Shape, step: Step)
    requires Covered(step)
    ensures EdgesKept(s, step, RemoveShape(s, DeletedIds(step)).edges)
  {
    var D := DeletedIds(step);
    forall e ensures multiset(AvoidingEdges(s.edges, D))[e]
                  == if Deleted(step, e.source) || Deleted(step, e.target) then 0 else multiset(s.edges)[e]
    {
      AvoidingCounts(s.edges, D, e);
      DeletedIff(step, e.source);
      DeletedIff(step, e.target);
    }
  }

  lemma AppendedAfter(kept: seq<Edge>, R: Pattern, ids: seq<Id>)
    requires WellFormed(R) && |ids| == |R.nodes|
    ensures EdgesAppended(kept + RhsEdges(R, ids), kept, R, ids)
  {
    var all := kept + RhsEdges(R, ids);
    forall k | 0 <= k < |R.edges| ensures R.edges[k] in R.edges && RunsAs(all[|kept| + k], R.edges[k], ids) {
      assert all[|kept| + k] == RhsEdges(R, ids)[k];
    }
  }

  /** What an accepted rewrite does: `ids` are the nodes of R's indices, `kept` the edges that
      stay. No edge dangles. */
  lemma RewriteCorrect(s: Shape, step: Step) returns (ids: seq<Id>, kept: seq<Edge>)
    requires ValidShape(s) && WellFormedStep(step) && Rewrite(s, step).Rewritten?
    ensures Covered(step) && |ids| == |step.rule.rhs.nodes| && ValidShape(Rewrite(s, step).shape)
    ensures ids == Grow(RemoveShape(s, DeletedIds(step)), step, |step.rule.rhs.nodes|).1
    ensures NodesRewritten(s, step, Rewrite(s, step).shape.nodes, ids)
    ensures EdgesKept(s, step, kept)
    ensures EdgesAppended(Rewrite(s, step).shape.edges, kept, step.rule.rhs, ids)
  {
    hide NodesRewritten, EdgesKept, EdgesAppended, Glued;
    var s0 := RemoveShape(s, DeletedIds(step));
    ids, kept := Grow(s0, step, |step.rule.rhs.nodes|).1, s0.edges;
    NodesAfter(s, step);
    KeptAfter(s, step);
    AppendedAfter(kept, step.rule.rhs, ids);
  }

  // ---- when a rewrite raises ----

  ghost predicate AllMatched(step: Step) {
    forall i: nat :: i < |step.rule.lhs.nodes| || i in step.rule.kept ==> i in step.match_
  }

  lemma AllMatchedIff(step: Step)
    ensures Covered(step) <==> AllMatched(step)
  {
    if Covered(step) {
      forall i: nat | i < |step.rule.lhs.nodes| || i in step.rule.kept ensures i in step.match_ {
        if i < |step.rule.lhs.nodes| {
          CoveredIndex(step, i);
        }
      }
    }
  }

  /** Some edge from a deleted to a preserved node is not one of L's. */
  ghost predicate Dangles(s: Shape, step: Step) {
    exists e :: e in s.edges && Deleted(step, e.source) && Preserved(step, e.target)
                && !MatchedEdge(step, e.source, e.target)
  }

  /** Some edge of R has an end that is neither a node that stays nor a new one. */
  ghost predicate EndMissing(s: Shape, step: Step, ids: seq<Id>)
    requires WellFormedStep(step) && |ids| == |step.rule.rhs.nodes|
  {
    exists k :: 0 <= k < |step.rule.rhs.edges| && (
      var pe := step.rule.rhs.edges[k];
      assert pe in step.rule.rhs.edges;
      !Standing(s, step, ids, ids[pe.source]) || !Standing(s, step, ids, ids[pe.target]))
  }

  ghost predicate Standing(s: Shape, step: Step, ids: seq<Id>, x: Id) {
    (x in s.nodes && !Deleted(step, x)) || IsNew(step.rule, ids, x)
  }

  lemma EndsInIff(s: Shape, step: Step, nodes: map<Id, Node>, ids: seq<Id>)
    requires WellFormedStep(step) && |ids| == |step.rule.rhs.nodes|
    requires forall x :: x in nodes <==> Standing(s, step, ids, x)
    ensures EndsIn(RhsEdges(step.rule.rhs, ids), nodes) <==> !EndMissing(s, step, ids)
  {
    hide Standing;
    var R, added := step.rule.rhs, RhsEdges(step.rule.rhs, ids);
    if EndsIn(added, nodes) {
      forall k | 0 <= k < |R.edges| ensures R.edges[k] in R.edges
        ensures Standing(s, step, ids, ids[R.edges[k].source]) && Standing(s, step, ids, ids[R.edges[k].target])
      {
        assert added[k] in added && RunsAs(added[k], R.edges[k], ids);
      }
    } else {
      var e :| e in added && !(e.source in nodes && e.target in nodes);
      var k :| 0 <= k < |added| && added[k] == e;
      assert RunsAs(added[k], R.edges[k], ids);
    }
  }

  /** A gluing violation is raised iff all indices are matched and an edge from a deleted to a
      preserved node is not one of L's; a key is missing iff an index is unmatched or, with that
      condition met, an edge of R would dangle. */
  lemma RewriteOutcome(s: Shape, step: Step)
    requires ValidShape(s) && WellFormedStep(step)
    ensures Rewrite(s, step).GluingViolation? <==> AllMatched(step) && Dangles(s, step)
    ensures AllMatched(step) ==> Covered(step)
    ensures Rewrite(s, step).MissingKey? <==>
              !AllMatched(step) ||
              (!Rewrite(s, step).GluingViolation? &&
               EndMissing(s, step, Grow(RemoveShape(s, DeletedIds(step)), step, |step.rule.rhs.nodes|).1))
  {
    AllMatchedIff(step);
    if Covered(step) {
      GluedIff(s, step);
      NodesAfter(s, step);
      var (t, ids) := Grow(RemoveShape(s, DeletedIds(step)), step, |step.rule.rhs.nodes|);
      assert forall x :: x in t.nodes <==> Standing(s, step, ids, x);
      EndsInIff(s, step, t.nodes, ids);
      assert Glued(s, step) <==> !Dangles(s, step);
      hide Glued, EndMissing, EndsIn, Dangles, Deleted, Preserved, MatchedEdge;
      hide NodesRewritten, Standing, Grow, RemoveShape;
    }
  }

  ghost predicate InjectiveOn(m: map<nat, Id>, idx: set<nat>) {
    forall i, j :: i in idx && j in idx && i in m && j in m && m[i] == m[j] ==> i == j
  }

  lemma {:induction false} ImageSize(m: map<nat, Id>, idx: set<nat>)
    requires idx <= m.Keys && InjectiveOn(m, idx)
    ensures |set i | i in idx :: m[i]| == |idx|
    decreases idx
  {
    if idx == {} {
      assert (set i | i in idx :: m[i]) == {};
    } else {
      var x :| x in idx;
      ImageSize(m, idx - {x});
      assert (set i | i in idx :: m[i]) == (set i | i in idx - {x} :: m[i]) + {m[x]};
      assert m[x] !in (set i | i in idx - {x} :: m[i]);
    }
  }

  lemma {:induction false} OutsideSize(order: seq<Id>, ids: set<Id>)
    requires Distinct(order) && forall x :: x in ids ==> x in order
    ensures |Outside(order, ids)| == |order| - |ids|
  {
    if |order| == 0 {
      assert ids == {};
    } else {
      var t, y := order[..|order| - 1], order[|order| - 1];
      assert order == t + [y];
      assert y !in t;
      OutsideSize(t, ids - {y});
      OutsideAgree(t, ids, ids - {y});
    }
  }

  lemma {:induction false} OutsideAgree(s: seq<Id>, a: set<Id>, b: set<Id>)
    requires forall x :: x in s ==> (x in a <==> x in b)
    ensures Outside(s, a) == Outside(s, b)
  {
    if |s| > 0 {
      assert s == s[..|s| - 1] + [s[|s| - 1]];
      OutsideAgree(s[..|s| - 1], a, b);
    }
  }

  /** |V'| = |V| - |L \ K| + |R \ K| exactly when no generated id survives from the host. */
  lemma RewriteCount(s: Shape, step: Step)
    requires ValidShape(s) && WellFormedStep(step) && Rewrite(s, step).Rewritten?
    requires InjectiveOn(step.match_, DeletedIndices(step.rule)) && DeletedIds(step) <= s.nodes.Keys
    ensures |RemoveShape(s, DeletedIds(step)).order| == |s.order| - |DeletedIndices(step.rule)|
    ensures |Rewrite(s, step).shape.order|
         == |s.order| - |DeletedIndices(step.rule)| + Rank(step.rule, |step.rule.rhs.nodes|)
       <==> AllFresh(RemoveShape(s, DeletedIds(step)), step.rule, |step.rule.rhs.nodes|)
  {
    var D := DeletedIds(step);
    ImageSize(step.match_, DeletedIndices(step.rule));
    OutsideSize(s.order, D);
    RemoveShapeValid(s, D);
    GrowCount(RemoveShape(s, D), step, |step.rule.rhs.nodes|);
  }
}
