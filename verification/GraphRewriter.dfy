/** The rewriter object of category.py, proved against Rewriting
    and RewriteCheck. */
module GraphRewriter {
  import opened Matching
  import opened MemoryGraph
  import opened Multigraph
  import opened RewriteCheck
  import opened Rewriting

  datatype Trace = Trace(step: Step, deleted: set<Id>, added: set<Id>)

  /** How a call ends: normally, with the gluing ValueError, or with a KeyError. */
  datatype Status = Done | Violation | KeyError

  lemma ShapeOfRemoval(g: Graph, ids: set<Id>)
    ensures ShapeOf(RemoveNodes(g, ids)) == RemoveShape(ShapeOf(g), ids)
  {
    StripAvoiding(g.edges, ids);
  }

  /** The node of each index of R. */
  ghost function RhsIds(s: Shape, step: Step): seq<Id>
    requires Covered(step)
  {
    Grow(RemoveShape(s, DeletedIds(step)), step, |step.rule.rhs.nodes|).1
  }

  /** The nodes of R \ K. */
  function AddedIds(step: Step, ids: seq<Id>): set<Id> {
    set i | 0 <= i < |ids| && i !in step.rule.kept :: ids[i]
  }

  class GraphRewriter {
    var graph: SpectralMemoryGraph
    var proofTraces: seq<Trace>

    constructor (graph: SpectralMemoryGraph)
      ensures this.graph == graph && proofTraces == []
    {
      this.graph, proofTraces := graph, [];
    }

    ghost function Host(): Shape
      reads this, graph
    {
      ShapeOf(graph.State())
    }

    ghost predicate Ready()
      reads this, graph
    {
      Valid(graph.State()) && ValidShape(Host())
    }

    method EdgeInLhs(step: Step, u: Id, v: Id) returns (found: bool)
      requires WellFormedStep(step) && Covered(step)
      ensures found <==> InLhs(step, u, v)
    {
      var es := step.rule.lhs.edges;
      for k := 0 to |es|
        invariant forall l :: 0 <= l < k ==>
          (CoveredIndex(step, es[l].source); CoveredIndex(step, es[l].target);
           var a, b := step.match_[es[l].source], step.match_[es[l].target];
           !((a == u && b == v) || (b == u && a == v)))
      {
        assert es[k] in es;
        CoveredIndex(step, es[k].source);
        CoveredIndex(step, es[k].target);
        var a, b := step.match_[es[k].source], step.match_[es[k].target];
        if (a == u && b == v) || (b == u && a == v) {
          return true;
        }
      }
      return false;
    }

    /** Looks at every edge from a deleted node to a preserved one. */
    method CheckGluing(step: Step) returns (ok: bool)
      requires Ready() && WellFormedStep(step) && Covered(step)
      ensures ok <==> Glued(Host(), step)
      ensures ok <==> forall e :: e in Host().edges && Deleted(step, e.source) && Preserved(step, e.target) ==>
                                    MatchedEdge(step, e.source, e.target)
    {
      GluedIff(Host(), step);
      hide Deleted, Preserved, MatchedEdge;
      var deleted, kept := DeletedIds(step), KeptIds(step);
      var es := Strip(graph.edges);
      for k := 0 to |es|
        invariant forall l :: 0 <= l < k && es[l].source in deleted && es[l].target in kept ==>
          InLhs(step, es[l].source, es[l].target)
      {
        if es[k].source in deleted && es[k].target in kept {
          var found := EdgeInLhs(step, es[k].source, es[k].target);
          if !found {
            assert es[k] in es;
            return false;
          }
        }
      }
      return true;
    }

    /** The ids matched by the deleted indices below i. */
    ghost function DeletedBelow(step: Step, i: nat): set<Id>
      requires Covered(step)
    {
      set j | j in DeletedIndices(step.rule) && j < i :: step.match_[j]
    }

    lemma DeletedBelowStep(step: Step, i: nat)
      requires Covered(step) && i < |step.rule.lhs.nodes|
      ensures DeletedBelow(step, i + 1) == DeletedBelow(step, i)
                + (if i in step.rule.kept then {} else (CoveredIndex(step, i); {step.match_[i]}))
      ensures DeletedBelow(step, 0) == {}
    {
    }

    method DeleteNodes(step: Step, g: SpectralMemoryGraph)
      requires Valid(g.State()) && Covered(step)
      modifies g
      ensures g.drawn == old(g.drawn) && Valid(g.State())
      ensures g.State() == RemoveNodes(old(g.State()), DeletedIds(step))
    {
      ghost var s := g.State();
      RemoveAbsent(s, {});
      assert DeletedBelow(step, 0) == {};
      for i := 0 to |step.rule.lhs.nodes|
        invariant g.drawn == old(g.drawn)
        invariant g.State() == RemoveNodes(s, DeletedBelow(step, i)) && Valid(g.State())
      {
        DeletedBelowStep(step, i);
        if i !in step.rule.kept {
          CoveredIndex(step, i);
          var nid := step.match_[i];
          RemoveTwice(s, DeletedBelow(step, i), {nid});
          RemoveNodesValid(g.State(), {nid});
          if nid in g.nodes {
            var found := g.RemoveNode(nid);
          } else {
            RemoveAbsent(g.State(), {nid});
          }
        } else {
          assert DeletedBelow(step, i + 1) == DeletedBelow(step, i);
        }
      }
      assert DeletedBelow(step, |step.rule.lhs.nodes|) == DeletedIds(step);
    }

    method AddNodes(step: Step, g: SpectralMemoryGraph) returns (ids: seq<Id>)
      requires Valid(g.State()) && Covered(step) && g.drawn == 0 && g.seed == 42
      modifies g
      ensures Valid(g.State()) && g.edges == old(g.edges)
      ensures |ids| == |step.rule.rhs.nodes|
      ensures (ShapeOf(g.State()), ids) == Grow(old(ShapeOf(g.State())), step, |step.rule.rhs.nodes|)
    {
      ids := [];
      for i := 0 to |step.rule.rhs.nodes|
        invariant Valid(g.State()) && g.edges == old(g.edges)
        invariant g.drawn == Rank(step.rule, i)
        invariant |ids| == i
        invariant (ShapeOf(g.State()), ids) == Grow(old(ShapeOf(g.State())), step, i)
      {
        if i in step.rule.kept {
          ids := ids + [step.match_[i]];
        } else {
          var id := Generated(|g.order|, i);
          var rn := step.rule.rhs.nodes[i];
          ids := ids + [id];
          g.AddNode(id, rn.tag, Some(rn.props), None);
        }
      }
    }

    method AddEdges(step: Step, ids: seq<Id>, g: SpectralMemoryGraph, keys: KeySource) returns (ok: bool)
      requires Valid(g.State()) && KeysBelow(g.State(), keys.next)
      requires WellFormedStep(step) && |ids| == |step.rule.rhs.nodes|
      modifies g, keys
      ensures keys.next >= old(keys.next)
      ensures ok <==> EndsIn(RhsEdges(step.rule.rhs, ids), old(g.nodes))
      ensures ok ==> Valid(g.State()) && KeysBelow(g.State(), keys.next)
      ensures ok ==> var s := old(ShapeOf(g.State()));
                     ShapeOf(g.State()) == s.(edges := s.edges + RhsEdges(step.rule.rhs, ids))
    {
      ghost var added := RhsEdges(step.rule.rhs, ids);
      var es := step.rule.rhs.edges;
      for k := 0 to |es|
        invariant keys.next >= old(keys.next)
        invariant Valid(g.State()) && KeysBelow(g.State(), keys.next)
        invariant g.order == old(g.order) && g.nodes == old(g.nodes)
        invariant Strip(g.edges) == old(Strip(g.edges)) + added[..k]
        invariant EndsIn(added[..k], g.nodes)
      {
        assert es[k] in es;
        var u, v := ids[es[k].source], ids[es[k].target];
        ghost var before := g.State();
        assert added[k] == Edge(u, v, es[k].relation, es[k].props);
        var key := g.AddEdge(keys, u, v, es[k].relation, Some(es[k].props));
        if key == None {
          assert added[k] in added;
          return false;
        }
        AddEdgeValid(before, key.value, added[k]);
        StripSnoc(before.edges, Keyed(key.value, added[k]));
        assert added[..k + 1] == added[..k] + [added[k]];
      }
      assert added[..|es|] == added;
      return true;
    }

    /** Copies the graph, deletes L \ K and adds R \ K. */
    method Build(step: Step, keys: KeySource) returns (g: SpectralMemoryGraph, ids: seq<Id>, ok: bool)
      requires Ready() && WellFormedStep(step) && Covered(step) && Glued(Host(), step)
      modifies keys
      ensures fresh(g) && ids == RhsIds(Host(), step)
      ensures ok <==> Rewrite(Host(), step).Rewritten?
      ensures !ok ==> Rewrite(Host(), step) == MissingKey
      ensures ok ==> Valid(g.State()) && Rewrite(Host(), step) == Rewritten(ShapeOf(g.State()))
    {
      g := CopyWithout(graph, {}, keys, 42);
      RemoveAbsent(graph.State(), {});
      ghost var copied := g.State();
      DeleteNodes(step, g);
      ShapeOfRemoval(copied, DeletedIds(step));
      ids := AddNodes(step, g);
      assert KeysBelow(g.State(), keys.next) by {
        AvoidingElements(copied.edges, DeletedIds(step));
      }
      ok := AddEdges(step, ids, g, keys);
    }

    /** A failed rewrite leaves the rewriter as it was; an accepted one installs the
        rewritten graph and records one trace. */
    method ApplyDpoRewrite(step: Step, keys: KeySource) returns (status: Status)
      requires Ready() && WellFormedStep(step)
      modifies this, keys
      ensures Ready()
      ensures var r := Rewrite(old(Host()), step);
              && status == (if r.Rewritten? then Done else if r.GluingViolation? then Violation else KeyError)
              && (status == Done ==> Host() == r.shape && fresh(graph))
      ensures status == Done ==> |proofTraces| == |old(proofTraces)| + 1 && old(proofTraces) <= proofTraces
      ensures status == Done ==> Covered(step)
      ensures status == Done ==>
        proofTraces[|old(proofTraces)|] == Trace(step, DeletedIds(step), AddedIds(step, RhsIds(old(Host()), step)))
      ensures status == Done ==> var trace := proofTraces[|old(proofTraces)|];
                                 && (forall x :: x in trace.deleted <==> Deleted(step, x))
                                 && (forall x :: x in trace.added <==> IsNew(step.rule, RhsIds(old(Host()), step), x))
      ensures status != Done ==> graph == old(graph) && proofTraces == old(proofTraces)
    {
      if !Covered(step) {
        return KeyError;
      }
      var glued := CheckGluing(step);
      if !glued {
        return Violation;
      }
      var g, ids, ok := Build(step, keys);
      if !ok {
        return KeyError;
      }
      ValidShapeOf(g.State());
      forall x ensures x in DeletedIds(step) <==> Deleted(step, x) {
        DeletedIff(step, x);
      }
      proofTraces := proofTraces + [Trace(step, DeletedIds(step), AddedIds(step, ids))];
      graph := g;
      return Done;
    }

    /** Replays the steps on a copy; the rewriter itself is not in the frame. */
    method VerifyRewriteSequence(steps: seq<Step>, keys: KeySource) returns (verdict: Verdict)
      requires Ready() && AllWellFormed(steps)
      modifies keys
      ensures verdict == Check(Host(), steps)
    {
      RemoveAbsent(graph.State(), {});
      var copy := CopyWithout(graph, {}, keys, 42);
      var test := new GraphRewriter(copy);
      for k := 0 to |steps|
        invariant fresh(test) && fresh(test.graph) && test.Ready()
        invariant Check(Host(), steps) == Check(test.Host(), steps[k..])
      {
        assert WellFormedStep(steps[k]);
        assert steps[k..][0] == steps[k] && steps[k..][1..] == steps[k + 1..];
        var matches := MatchPattern(ShapeOf(test.graph.State()), steps[k].rule.lhs);
        if |matches| == 0 {
          return Rejected;
        }
        var status := test.ApplyDpoRewrite(steps[k], keys);
        if status == Violation {
          return Rejected;
        } else if status == KeyError {
          return Raised;
        }
      }
      return Accepted;
    }

    /** Applies the steps to the rewriter itself, in order: after an accepted check
        nothing raises and the replayed graph is reached, up to edge keys. */
    method ApplySequence(steps: seq<Step>, keys: KeySource) returns (status: Status)
      requires Ready() && AllWellFormed(steps)
      modifies this, keys
      ensures status == Done <==> Run(old(Host()), steps).Some?
      ensures status == Done ==> Run(old(Host()), steps) == Some(Host())
      ensures Check(old(Host()), steps) == Accepted ==> status == Done
    {
      AcceptedIff(Host(), steps);
      for k := 0 to |steps|
        invariant graph == old(graph) || fresh(graph)
        invariant Ready()
        invariant Run(old(Host()), steps) == Run(Host(), steps[k..])
      {
        assert WellFormedStep(steps[k]);
        assert steps[k..][0] == steps[k] && steps[k..][1..] == steps[k + 1..];
        status := ApplyDpoRewrite(steps[k], keys);
        if status != Done {
          return;
        }
      }
      return Done;
    }
  }
}
