/** The sequence check of category.py:271-329, on graph shapes. */
module RewriteCheck {
  import opened Matching
  import opened Multigraph
  import opened Rewriting

  datatype Verdict = Accepted | Rejected | Raised

  /** verify_rewrite_sequence, on shapes. */
  ghost function Check(s: Shape, steps: seq<Step>): Verdict
    requires ValidShape(s) && AllWellFormed(steps)
    decreases |steps|
  {
    if |steps| == 0 then Accepted
    else if assert WellFormedStep(steps[0]); |Matches(s, steps[0].rule.lhs)| == 0 then Rejected
    else match Rewrite(s, steps[0])
      case Rewritten(t) => Check(t, steps[1..])
      case GluingViolation => Rejected
      case MissingKey => Raised
  }

  /** Applying steps one after the other; None as soon as one raises. */
  ghost function Run(s: Shape, steps: seq<Step>): (r: Option<Shape>)
    requires ValidShape(s) && AllWellFormed(steps)
    ensures r.Some? ==> ValidShape(r.value)
    decreases |steps|
  {
    if |steps| == 0 then Some(s)
    else
      assert WellFormedStep(steps[0]);
      match Rewrite(s, steps[0])
      case Rewritten(t) => Run(t, steps[1..])
      case _ => None
  }

  /** Step k is applied to a graph in which its left side has some match, and succeeds. */
  ghost predicate GoodStep(s: Shape, steps: seq<Step>, k: nat)
    requires ValidShape(s) && k < |steps| && AllWellFormed(steps)
  {
    assert WellFormedStep(steps[k]);
    var r := Run(s, steps[..k]);
    && r.Some?
    && |Matches(r.value, steps[k].rule.lhs)| > 0
    && Rewrite(r.value, steps[k]).Rewritten?
  }

  /** Later steps see the graph the first one leaves. */
  lemma GoodShift(s: Shape, steps: seq<Step>, t: Shape, k: nat)
    requires ValidShape(s) && k + 1 < |steps| && AllWellFormed(steps)
    requires Rewrite(s, steps[0]) == Rewritten(t) && ValidShape(t)
    ensures GoodStep(s, steps, k + 1) <==> GoodStep(t, steps[1..], k)
  {
    assert WellFormedStep(steps[0]);
    assert steps[..k + 1][1..] == steps[1..][..k];
  }

  lemma GoodFirst(s: Shape, steps: seq<Step>)
    requires ValidShape(s) && |steps| > 0 && AllWellFormed(steps)
    ensures WellFormedStep(steps[0])
    ensures GoodStep(s, steps, 0) <==> |Matches(s, steps[0].rule.lhs)| > 0 && Rewrite(s, steps[0]).Rewritten?
  {
    assert steps[..0] == [];
  }

  ghost predicate AllGood(s: Shape, steps: seq<Step>)
    requires ValidShape(s) && AllWellFormed(steps)
  {
    forall k: nat :: k < |steps| ==> GoodStep(s, steps, k)
  }

  lemma AllGoodSplit(s: Shape, steps: seq<Step>, t: Shape)
    requires ValidShape(s) && |steps| > 0 && AllWellFormed(steps)
    requires Rewrite(s, steps[0]) == Rewritten(t) && ValidShape(t)
    ensures AllGood(s, steps) <==> GoodStep(s, steps, 0) && AllGood(t, steps[1..])
  {
    forall k: nat | k + 1 < |steps| ensures GoodStep(s, steps, k + 1) <==> GoodStep(t, steps[1..], k) {
      GoodShift(s, steps, t, k);
    }
    if GoodStep(s, steps, 0) && AllGood(t, steps[1..]) {
      forall k: nat | k < |steps| ensures GoodStep(s, steps, k) {
        if k > 0 { assert GoodStep(t, steps[1..], k - 1); GoodShift(s, steps, t, k - 1); }
      }
    }
  }

  /** A sequence is accepted iff every step, run for real, finds a match and succeeds. */
  lemma {:induction false} AcceptedIff(s: Shape, steps: seq<Step>)
    requires ValidShape(s) && AllWellFormed(steps)
    ensures Check(s, steps) == Accepted <==> AllGood(s, steps)
    ensures Check(s, steps) == Accepted ==> Run(s, steps).Some?
    decreases |steps|
  {
    if |steps| > 0 {
      GoodFirst(s, steps);
      if GoodStep(s, steps, 0) {
        var t := Rewrite(s, steps[0]).shape;
        AllGoodSplit(s, steps, t);
        AcceptedIff(t, steps[1..]);
      }
    }
  }

  /** Step k raises the KeyError, after its left side was found. */
  ghost predicate RaisesAt(s: Shape, steps: seq<Step>, k: nat)
    requires ValidShape(s) && k < |steps| && AllWellFormed(steps)
  {
    assert WellFormedStep(steps[k]);
    var r := Run(s, steps[..k]);
    && r.Some?
    && |Matches(r.value, steps[k].rule.lhs)| > 0
    && Rewrite(r.value, steps[k]).MissingKey?
  }

  ghost predicate FirstRaise(s: Shape, steps: seq<Step>, k: nat)
    requires ValidShape(s) && k < |steps| && AllWellFormed(steps)
  {
    RaisesAt(s, steps, k) && forall l: nat :: l < k ==> GoodStep(s, steps, l)
  }

  lemma RaiseFirst(s: Shape, steps: seq<Step>)
    requires ValidShape(s) && |steps| > 0 && AllWellFormed(steps)
    ensures WellFormedStep(steps[0])
    ensures FirstRaise(s, steps, 0) <==> |Matches(s, steps[0].rule.lhs)| > 0 && Rewrite(s, steps[0]).MissingKey?
  {
    assert steps[..0] == [];
  }

  lemma RaiseShift(s: Shape, steps: seq<Step>, t: Shape, k: nat)
    requires ValidShape(s) && k + 1 < |steps| && AllWellFormed(steps)
    requires Rewrite(s, steps[0]) == Rewritten(t) && ValidShape(t) && GoodStep(s, steps, 0)
    ensures FirstRaise(s, steps, k + 1) <==> FirstRaise(t, steps[1..], k)
  {
    assert WellFormedStep(steps[0]);
    assert steps[..k + 1][1..] == steps[1..][..k];
    assert RaisesAt(s, steps, k + 1) <==> RaisesAt(t, steps[1..], k);
    hide RaisesAt;
    forall l: nat | l < k ensures GoodStep(s, steps, l + 1) <==> GoodStep(t, steps[1..], l) {
      GoodShift(s, steps, t, l);
    }
    hide GoodStep;
    if FirstRaise(t, steps[1..], k) {
      forall l: nat | l < k + 1 ensures GoodStep(s, steps, l) {
        if l > 0 {
          assert GoodStep(t, steps[1..], l - 1);
          GoodShift(s, steps, t, l - 1);
        }
      }
    }
  }

  /** The check raises iff some step raises a KeyError after its left side was found and all
      steps before it succeeded; in all other cases that are not accepted it says False. */
  lemma {:induction false} RaisedIff(s: Shape, steps: seq<Step>)
    requires ValidShape(s) && AllWellFormed(steps)
    ensures Check(s, steps) == Raised <==> exists k: nat :: k < |steps| && FirstRaise(s, steps, k)
    decreases |steps|
  {
    if |steps| > 0 {
      GoodFirst(s, steps);
      RaiseFirst(s, steps);
      if GoodStep(s, steps, 0) {
        var t := Rewrite(s, steps[0]).shape;
        RaisedIff(t, steps[1..]);
        forall k: nat | k + 1 < |steps| ensures FirstRaise(s, steps, k + 1) <==> FirstRaise(t, steps[1..], k) {
          RaiseShift(s, steps, t, k);
        }
        hide GoodStep, FirstRaise;
        if exists k: nat :: k < |steps| && FirstRaise(s, steps, k) {
          var k: nat :| k < |steps| && FirstRaise(s, steps, k);
          assert k > 0 && FirstRaise(t, steps[1..], k - 1);
        }
        if exists k: nat :: k < |steps[1..]| && FirstRaise(t, steps[1..], k) {
          var k: nat :| k < |steps[1..]| && FirstRaise(t, steps[1..], k);
          assert FirstRaise(s, steps, k + 1);
        }
      } else {
        assert forall k: nat :: 0 < k < |steps| ==> !FirstRaise(s, steps, k);
      }
    }
  }

  // ---- checking the supplied matches too ----

  /** A match as match_pattern returns it: from pattern indices to nodes. */
  function AsMap(m: seq<Id>): map<nat, Id> {
    map i: nat | i < |m| :: m[i]
  }

  /** The step comes with one of the matches match_pattern finds. */
  ghost predicate Supplied(s: Shape, step: Step)
    requires ValidShape(s) && WellFormedStep(step)
  {
    exists m :: m in Matches(s, step.rule.lhs) && step.match_ == AsMap(m)
  }

  /** verify_rewrite_sequence with the supplied match in place of any match. */
  ghost function StrictCheck(s: Shape, steps: seq<Step>): Verdict
    requires ValidShape(s) && AllWellFormed(steps)
    decreases |steps|
  {
    if |steps| == 0 then Accepted
    else if assert WellFormedStep(steps[0]); !Supplied(s, steps[0]) then Rejected
    else match Rewrite(s, steps[0])
      case Rewritten(t) => StrictCheck(t, steps[1..])
      case GluingViolation => Rejected
      case MissingKey => Raised
  }

  /** Step k, if it is reached, is supplied with a match in the graph it is applied to. */
  ghost predicate SuppliedAt(s: Shape, steps: seq<Step>, k: nat)
    requires ValidShape(s) && k < |steps| && AllWellFormed(steps)
  {
    assert WellFormedStep(steps[k]);
    var r := Run(s, steps[..k]);
    r.Some? ==> Supplied(r.value, steps[k])
  }

  ghost predicate AllSupplied(s: Shape, steps: seq<Step>)
    requires ValidShape(s) && AllWellFormed(steps)
  {
    forall k: nat :: k < |steps| ==> SuppliedAt(s, steps, k)
  }

  lemma SuppliedFirst(s: Shape, steps: seq<Step>)
    requires ValidShape(s) && |steps| > 0 && AllWellFormed(steps)
    ensures WellFormedStep(steps[0])
    ensures SuppliedAt(s, steps, 0) <==> Supplied(s, steps[0])
  {
    assert steps[..0] == [];
  }

  lemma SuppliedShift(s: Shape, steps: seq<Step>, k: nat)
    requires ValidShape(s) && k + 1 < |steps| && AllWellFormed(steps)
    ensures WellFormedStep(steps[0])
    ensures var r := Rewrite(s, steps[0]);
            SuppliedAt(s, steps, k + 1) <==> (r.Rewritten? ==> SuppliedAt(r.shape, steps[1..], k))
  {
    assert WellFormedStep(steps[0]);
    assert steps[..k + 1][1..] == steps[1..][..k];
  }

  lemma AllSuppliedSplit(s: Shape, steps: seq<Step>)
    requires ValidShape(s) && |steps| > 0 && AllWellFormed(steps)
    ensures WellFormedStep(steps[0])
    ensures var r := Rewrite(s, steps[0]);
            AllSupplied(s, steps) <==> Supplied(s, steps[0]) && (r.Rewritten? ==> AllSupplied(r.shape, steps[1..]))
  {
    SuppliedFirst(s, steps);
    var r := Rewrite(s, steps[0]);
    forall k: nat | k + 1 < |steps|
      ensures SuppliedAt(s, steps, k + 1) <==> (r.Rewritten? ==> SuppliedAt(r.shape, steps[1..], k))
    {
      SuppliedShift(s, steps, k);
    }
    if Supplied(s, steps[0]) && (r.Rewritten? ==> AllSupplied(r.shape, steps[1..])) {
      forall k: nat | k < |steps| ensures SuppliedAt(s, steps, k) {
        if k > 0 { SuppliedShift(s, steps, k - 1); }
      }
    }
  }

  /** An accepted sequence has valid matches exactly when every step is supplied with one that
      match_pattern returns; the two checks differ only where a step reached is not. */
  lemma {:induction false} StrictIff(s: Shape, steps: seq<Step>)
    requires ValidShape(s) && AllWellFormed(steps)
    ensures StrictCheck(s, steps) == Accepted <==> Check(s, steps) == Accepted && AllSupplied(s, steps)
    ensures StrictCheck(s, steps) == Check(s, steps) <==> Check(s, steps) == Rejected || AllSupplied(s, steps)
    decreases |steps|
  {
    if |steps| > 0 {
      AllSuppliedSplit(s, steps);
      hide AllSupplied, Rewrite;
      var r := Rewrite(s, steps[0]);
      if Supplied(s, steps[0]) && r.Rewritten? {
        StrictIff(r.shape, steps[1..]);
      }
    }
  }

  /** What is supplied is an injective assignment that satisfies labels, constraints and edges. */
  lemma SuppliedIff(s: Shape, step: Step)
    requires ValidShape(s) && WellFormedStep(step)
    ensures Supplied(s, step) <==>
            |step.rule.lhs.nodes| > 0 && exists m :: IsMatch(s, step.rule.lhs, m) && step.match_ == AsMap(m)
  {
    if Supplied(s, step) {
      var m :| m in Matches(s, step.rule.lhs) && step.match_ == AsMap(m);
      MatchesExact(s, step.rule.lhs, m);
    }
    forall m | IsMatch(s, step.rule.lhs, m) && |step.rule.lhs.nodes| > 0 ensures m in Matches(s, step.rule.lhs) {
      MatchesExact(s, step.rule.lhs, m);
    }
  }

  // ---- the supplied match is not checked ----

  const Fitting := Named("a")
  const Unfitting := Named("b")

  function TwoNodes(): Shape {
    Shape([Fitting, Unfitting], map[Fitting := Node("p", map[], Data(0)), Unfitting := Node("q", map[], Data(1))], [])
  }

  /** The identity rule on one node with label "p", applied at a node with label "q". */
  function BadStep(): Step {
    var l := Pattern("rule", [PatternNode("p", map[], map[])], []);
    Step(Rule(l, l, {0}), map[0 := Unfitting])
  }

  lemma BadStepRuns()
    ensures ValidShape(TwoNodes()) && WellFormedStep(BadStep())
    ensures Rewrite(TwoNodes(), BadStep()).Rewritten?
  {
    var s, step := TwoNodes(), BadStep();
    assert DeletedIndices(step.rule) == {};
    assert Covered(step) && Glued(s, step);
    var s0 := RemoveShape(s, DeletedIds(step));
    assert Grow(s0, step, 1).0 == Grow(s0, step, 0).0;
    assert RhsEdges(step.rule.rhs, Grow(s0, step, 1).1) == [];
  }

  /** The supplied match is never compared with L: a step at a node that
      does not fit the pattern is accepted. */
  lemma AcceptedWithoutMatch()
    ensures ValidShape(TwoNodes()) && WellFormedStep(BadStep()) && AllWellFormed([BadStep()])
    ensures Check(TwoNodes(), [BadStep()]) == Accepted
    ensures !IsMatch(TwoNodes(), BadStep().rule.lhs, [BadStep().match_[0]])
    ensures StrictCheck(TwoNodes(), [BadStep()]) == Rejected
  {
    var s, step := TwoNodes(), BadStep();
    BadStepRuns();
    MatchesExact(s, step.rule.lhs, [Fitting]);
    assert IsMatch(s, step.rule.lhs, [Fitting]);
    assert [step][1..] == [];
    assert !NodeOk(step.rule.lhs.nodes[0], s.nodes[Unfitting]);
    assert [step][0] == step;
    if Supplied(s, step) {
      var m :| m in Matches(s, step.rule.lhs) && step.match_ == AsMap(m);
      MatchesExact(s, step.rule.lhs, m);
    }
  }

  // ---- generated ids can collide ----

  /** Replaces one node, of any label, by a new one. */
  function Replacement(at: Id): Step {
    var one := Pattern("replace", [PatternNode("", map[], map[])], []);
    Step(Rule(one, one, {}), map[0 := at])
  }

  /** The graph after replacing a node of a graph without edges. */
  function Replaced(s: Shape, at: Id): Shape {
    var rest := RemoveShape(s, {at});
    AddShapeNode(rest, Generated(|rest.order|, 0), Node("", map[], Draw(42, 0)))
  }

  lemma ReplaceOne(s: Shape, at: Id)
    requires ValidShape(s) && s.edges == [] && at in s.nodes
    ensures Rewrite(s, Replacement(at)) == Rewritten(Replaced(s, at))
    ensures |Matches(s, Replacement(at).rule.lhs)| > 0
  {
    var step := Replacement(at);
    assert DeletedIndices(step.rule) == {0};
    assert DeletedIds(step) == {at};
    var s0 := RemoveShape(s, {at});
    assert Grow(s0, step, 0) == (s0, []);
    assert RhsEdges(step.rule.rhs, Grow(s0, step, 1).1) == [];
    assert s0.edges + [] == [];
    MatchesExact(s, step.rule.lhs, [at]);
    assert IsMatch(s, step.rule.lhs, [at]);
  }

  /** Two nodes, no edge. */
  function Pair(x: Id, y: Id, m: Node, n: Node): Shape {
    Shape([x, y], map[x := m, y := n], [])
  }

  /** The second replacement generates the id of the first. */
  lemma SameIdTwice(x: Id, y: Id, m: Node, n: Node)
    requires x != y && Generated(1, 0) !in {x, y}
    ensures var t := Replaced(Pair(x, y, m, n), x);
            t.edges == [] && y in t.nodes && Replaced(t, y).order == [Generated(1, 0)]
  {
    var s := Pair(x, y, m, n);
    assert Outside([x], {x}) == [];
    assert s.order[..1] == [x];
    assert RemoveShape(s, {x}).order == [y];
    var t := Replaced(s, x);
    assert t.order == [y, Generated(1, 0)] && t.order[..1] == [y];
    assert Outside([y], {y}) == [];
    assert RemoveShape(t, {y}).order == [Generated(1, 0)];
  }

  lemma TwoSteps(s: Shape, steps: seq<Step>, t: Shape, u: Shape)
    requires ValidShape(s) && ValidShape(t) && ValidShape(u) && |steps| == 2 && AllWellFormed(steps)
    requires WellFormedStep(steps[0]) && WellFormedStep(steps[1])
    requires Rewrite(s, steps[0]) == Rewritten(t) && Rewrite(t, steps[1]) == Rewritten(u)
    requires |Matches(s, steps[0].rule.lhs)| > 0 && |Matches(t, steps[1].rule.lhs)| > 0
    ensures Check(s, steps) == Accepted && Run(s, steps) == Some(u)
  {
    hide Rewrite, Matches, ValidShape, WellFormedStep;
    var rest := steps[1..];
    assert rest[0] == steps[1] && rest[1..] == [];
    assert Check(u, []) == Accepted && Run(u, []) == Some(u);
    assert Check(t, rest) == Accepted && Run(t, rest) == Some(u);
  }

  lemma ReplaceTwice(s: Shape, a: Id, b: Id, t: Shape, steps: seq<Step>)
    requires ValidShape(s) && s.edges == [] && a in s.nodes
    requires t == Replaced(s, a) && t.edges == [] && b in t.nodes
    requires steps == [Replacement(a), Replacement(b)]
    ensures AllWellFormed(steps)
    ensures Check(s, steps) == Accepted && Run(s, steps) == Some(Replaced(t, b))
  {
    assert WellFormedStep(Replacement(a)) && WellFormedStep(Replacement(b));
    assert AllWellFormed(steps);
    hide *;
    ReplaceOne(s, a);
    ReplaceOne(t, b);
    TwoSteps(s, steps, t, Replaced(t, b));
  }

  /** Any two nodes replaced one for one, one after the other: accepted, and a single node is left. */
  lemma ReplacementCollides(x: Id, y: Id, m: Node, n: Node)
    requires x != y && Generated(1, 0) !in {x, y}
    ensures var s, steps := Pair(x, y, m, n), [Replacement(x), Replacement(y)];
            && ValidShape(s) && AllWellFormed(steps)
            && Check(s, steps) == Accepted
            && Run(s, steps) == Some(Replaced(Replaced(s, x), y))
            && Replaced(Replaced(s, x), y).order == [Generated(1, 0)]
  {
    var s := Pair(x, y, m, n);
    assert ValidShape(s) && s.edges == [] && x in s.nodes;
    SameIdTwice(x, y, m, n);
    var t, steps := Replaced(s, x), [Replacement(x), Replacement(y)];
    hide *;
    ReplaceTwice(s, x, y, t, steps);
  }
}
