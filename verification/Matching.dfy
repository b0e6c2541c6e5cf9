/** The backtracking pattern matcher of category.py:51-136. */
module Matching {
  import opened Multigraph
  import opened Sorting

  datatype PatternNode = PatternNode(tag: string, constraints: map<string, Value>, props: Props)

  datatype PatternEdge = PatternEdge(source: nat, target: nat, relation: string, props: Props)

  datatype Pattern = Pattern(name: string, nodes: seq<PatternNode>, edges: seq<PatternEdge>)

  /** Edge ends index the node list; a vector cannot be compared with `!=`. */
  predicate WellFormed(p: Pattern) {
    && (forall e :: e in p.edges ==> e.source < |p.nodes| && e.target < |p.nodes|)
    && (forall n :: n in p.nodes ==> "vector" !in n.constraints)
  }

  // ---- what a match is ----

  function FieldOf(data: Node, key: string): Value {
    if key == "label" then Text(data.tag) else if key == "properties" then Dict(data.props) else Null
  }

  function Lookup(props: Props, key: string): Value {
    if key in props then props[key] else Null
  }

  /** One constraint: properties are compared entry by entry, any other field as a whole. */
  predicate Satisfies(data: Node, key: string, expected: Value) {
    if key == "properties" && expected.Dict? then
      forall k :: k in expected.entries ==> Lookup(data.props, k) == expected.entries[k]
    else FieldOf(data, key) == expected
  }

  predicate NodeOk(pn: PatternNode, data: Node) {
    && (pn.tag == "" || data.tag == pn.tag)
    && forall key :: key in pn.constraints ==> Satisfies(data, key, pn.constraints[key])
  }

  predicate EdgeFound(s: Shape, u: Id, v: Id, relation: string) {
    exists e :: e in s.edges && e.source == u && e.target == v && e.relation == relation
  }

  predicate EdgesOk(s: Shape, p: Pattern, m: seq<Id>)
    requires WellFormed(p) && |m| == |p.nodes|
  {
    forall e :: e in p.edges ==> EdgeFound(s, m[e.source], m[e.target], e.relation)
  }

  /** The nodes chosen so far are different and each fits its pattern node. */
  ghost predicate Partial(s: Shape, p: Pattern, m: seq<Id>) {
    && |m| <= |p.nodes|
    && Distinct(m)
    && forall i :: 0 <= i < |m| ==> m[i] in s.nodes && NodeOk(p.nodes[i], s.nodes[m[i]])
  }

  ghost predicate IsMatch(s: Shape, p: Pattern, m: seq<Id>)
    requires WellFormed(p)
  {
    |m| == |p.nodes| && Partial(s, p, m) && EdgesOk(s, p, m)
  }

  ghost predicate ValidShape(s: Shape) {
    && Distinct(s.order)
    && (forall x :: x in s.order <==> x in s.nodes)
    && (forall e :: e in s.edges ==> e.source in s.nodes && e.target in s.nodes)
  }

  lemma ValidShapeOf(g: Graph)
    requires Valid(g)
    ensures ValidShape(ShapeOf(g))
  {
    forall e | e in Strip(g.edges) ensures e.source in g.nodes && e.target in g.nodes {
      var k :| 0 <= k < |g.edges| && Strip(g.edges)[k] == e;
      assert g.edges[k] in g.edges;
    }
  }

  // ---- the search order ----

  function Candidates(s: Shape, pn: PatternNode, order: seq<Id>): (r: seq<Id>)
    requires forall x :: x in order ==> x in s.nodes
    ensures |r| <= |order|
  {
    if |order| == 0 then []
    else (if NodeOk(pn, s.nodes[order[0]]) then [order[0]] else []) + Candidates(s, pn, order[1..])
  }

  ghost predicate Ascending(order: seq<Id>, c: seq<Id>) {
    forall a, b :: 0 <= a < b < |c| ==> Before(order, c[a], c[b])
  }

  /** The candidates are the fitting nodes, in node order. */
  lemma {:induction false} CandidatesCorrect(s: Shape, pn: PatternNode, order: seq<Id>)
    requires forall x :: x in order ==> x in s.nodes
    ensures forall x :: x in Candidates(s, pn, order) <==> x in order && NodeOk(pn, s.nodes[x])
    ensures Ascending(order, Candidates(s, pn, order))
  {
    if |order| > 0 {
      var x, rest := order[0], order[1..];
      CandidatesCorrect(s, pn, rest);
      var c, d := Candidates(s, pn, order), Candidates(s, pn, rest);
      forall a, b | 0 <= a < b < |d| ensures Before(order, d[a], d[b]) {
        assert Before(rest, d[a], d[b]);
        var i, j :| 0 <= i < j < |rest| && rest[i] == d[a] && rest[j] == d[b];
        assert order[i + 1] == d[a] && order[j + 1] == d[b];
      }
      if NodeOk(pn, s.nodes[x]) {
        forall b | 0 <= b < |d| ensures Before(order, x, d[b]) {
          assert d[b] in rest;
          var j :| 0 <= j < |rest| && rest[j] == d[b];
          assert order[0] == x && order[j + 1] == d[b];
        }
      }
    }
  }

  // ---- the matches, as a function ----

  /** All matches that extend `cur`, in candidate order. */
  ghost function Completions(s: Shape, p: Pattern, cur: seq<Id>): seq<seq<Id>>
    requires ValidShape(s) && WellFormed(p) && |cur| <= |p.nodes|
    decreases |p.nodes| - |cur|, |s.order| + 1
  {
    if |cur| == |p.nodes| then
      if EdgesOk(s, p, cur) then [cur] else []
    else CompletionsVia(s, p, cur, Candidates(s, p.nodes[|cur|], s.order))
  }

  /** Those whose next node is one of cands. */
  ghost function CompletionsVia(s: Shape, p: Pattern, cur: seq<Id>, cands: seq<Id>): seq<seq<Id>>
    requires ValidShape(s) && WellFormed(p) && |cur| < |p.nodes|
    decreases |p.nodes| - |cur|, |cands|
  {
    if |cands| == 0 then []
    else (if cands[0] in cur then [] else Completions(s, p, cur + [cands[0]]))
         + CompletionsVia(s, p, cur, cands[1..])
  }

  ghost function Matches(s: Shape, p: Pattern): seq<seq<Id>>
    requires ValidShape(s) && WellFormed(p)
  {
    if |p.nodes| == 0 then [] else Completions(s, p, [])
  }

  // ---- exactness ----

  lemma {:induction false} CompletionsExact(s: Shape, p: Pattern, cur: seq<Id>, m: seq<Id>)
    requires ValidShape(s) && WellFormed(p) && Partial(s, p, cur)
    ensures m in Completions(s, p, cur) <==> IsMatch(s, p, m) && cur <= m
    decreases |p.nodes| - |cur|, |s.order| + 1
  {
    if |cur| == |p.nodes| {
      if IsMatch(s, p, m) && cur <= m {
        assert m == cur;
      }
    } else {
      var cands := Candidates(s, p.nodes[|cur|], s.order);
      CandidatesCorrect(s, p.nodes[|cur|], s.order);
      ViaExact(s, p, cur, cands, m);
      if IsMatch(s, p, m) {
        assert m[|cur|] in s.order;
      }
    }
  }

  lemma PartialSnoc(s: Shape, p: Pattern, cur: seq<Id>, x: Id)
    requires Partial(s, p, cur) && |cur| < |p.nodes| && x !in cur && x in s.nodes && NodeOk(p.nodes[|cur|], s.nodes[x])
    ensures Partial(s, p, cur + [x])
  {
  }

  lemma NotRepeated(cur: seq<Id>, m: seq<Id>, x: Id)
    requires cur <= m && |cur| < |m| && Distinct(m) && x in cur
    ensures m[|cur|] != x
  {
    var k :| 0 <= k < |cur| && cur[k] == x;
    assert m[k] == x;
  }

  lemma {:induction false} ViaExact(s: Shape, p: Pattern, cur: seq<Id>, cands: seq<Id>, m: seq<Id>)
    requires ValidShape(s) && WellFormed(p) && Partial(s, p, cur) && |cur| < |p.nodes|
    requires forall x :: x in cands ==> x in s.nodes && NodeOk(p.nodes[|cur|], s.nodes[x])
    ensures m in CompletionsVia(s, p, cur, cands) <==> IsMatch(s, p, m) && cur <= m && m[|cur|] in cands
    decreases |p.nodes| - |cur|, |cands|
  {
    if |cands| > 0 {
      var x := cands[0];
      ViaExact(s, p, cur, cands[1..], m);
      hide NodeOk, EdgesOk, ValidShape, Completions;
      if x !in cur {
        PartialSnoc(s, p, cur, x);
        CompletionsExact(s, p, cur + [x], m);
        hide Partial;
        if cur <= m && |cur| < |m| {
          assert cur + [x] <= m <==> m[|cur|] == x;
        }
      } else if IsMatch(s, p, m) && cur <= m {
        NotRepeated(cur, m, x);
      }
    }
  }

  /** match_pattern finds exactly the matches. */
  lemma MatchesExact(s: Shape, p: Pattern, m: seq<Id>)
    requires ValidShape(s) && WellFormed(p)
    ensures m in Matches(s, p) <==> |p.nodes| > 0 && IsMatch(s, p, m)
  {
    CompletionsExact(s, p, [], m);
  }

  // ---- order ----

  /** a comes before b: at their first difference, in node order. */
  ghost predicate LexBefore(order: seq<Id>, a: seq<Id>, b: seq<Id>) {
    exists d :: 0 <= d < |a| && d < |b| && a[..d] == b[..d] && Before(order, a[d], b[d])
  }

  ghost predicate LexOrdered(order: seq<Id>, ms: seq<seq<Id>>) {
    forall a, b :: 0 <= a < b < |ms| ==> LexBefore(order, ms[a], ms[b])
  }

  lemma {:induction false} CompletionsOrdered(s: Shape, p: Pattern, cur: seq<Id>)
    requires ValidShape(s) && WellFormed(p) && Partial(s, p, cur)
    ensures LexOrdered(s.order, Completions(s, p, cur))
    decreases |p.nodes| - |cur|, |s.order| + 1
  {
    if |cur| < |p.nodes| {
      CandidatesCorrect(s, p.nodes[|cur|], s.order);
      ViaOrdered(s, p, cur, Candidates(s, p.nodes[|cur|], s.order));
    }
  }

  lemma OrderedConcat(order: seq<Id>, l: seq<seq<Id>>, r: seq<seq<Id>>)
    requires LexOrdered(order, l) && LexOrdered(order, r)
    requires forall a, b :: a in l && b in r ==> LexBefore(order, a, b)
    ensures LexOrdered(order, l + r)
  {
  }

  /** Matches through the first candidate come before those through later ones. */
  lemma FirstDifference(s: Shape, p: Pattern, cur: seq<Id>, cands: seq<Id>, a: seq<Id>, b: seq<Id>)
    requires ValidShape(s) && WellFormed(p) && Partial(s, p, cur) && |cur| < |p.nodes| && |cands| > 0
    requires forall x :: x in cands ==> x in s.nodes && NodeOk(p.nodes[|cur|], s.nodes[x])
    requires Ascending(s.order, cands) && cands[0] !in cur
    requires a in Completions(s, p, cur + [cands[0]]) && b in CompletionsVia(s, p, cur, cands[1..])
    ensures LexBefore(s.order, a, b)
  {
    PartialSnoc(s, p, cur, cands[0]);
    hide Partial, ValidShape, Completions, CompletionsVia, NodeOk, EdgesOk, Ascending;
    CompletionsExact(s, p, cur + [cands[0]], a);
    ViaExact(s, p, cur, cands[1..], b);
    hide *;
    BranchesOrdered(s.order, cur, cands, a, b);
  }

  lemma BranchesOrdered(order: seq<Id>, cur: seq<Id>, cands: seq<Id>, a: seq<Id>, b: seq<Id>)
    requires |cands| > 0 && Ascending(order, cands)
    requires cur + [cands[0]] <= a && cur <= b && |cur| < |b| && b[|cur|] in cands[1..]
    ensures LexBefore(order, a, b)
  {
    var d := |cur|;
    assert a[..d] == cur == b[..d] && a[d] == (cur + [cands[0]])[d];
    var k :| 0 <= k < |cands[1..]| && cands[1..][k] == b[d];
    assert Before(order, cands[0], cands[k + 1]);
  }

  lemma {:induction false} ViaOrdered(s: Shape, p: Pattern, cur: seq<Id>, cands: seq<Id>)
    requires ValidShape(s) && WellFormed(p) && Partial(s, p, cur) && |cur| < |p.nodes|
    requires forall x :: x in cands ==> x in s.nodes && NodeOk(p.nodes[|cur|], s.nodes[x])
    requires Ascending(s.order, cands)
    ensures LexOrdered(s.order, CompletionsVia(s, p, cur, cands))
    decreases |p.nodes| - |cur|, |cands|
  {
    if |cands| > 0 {
      var x, rest := cands[0], cands[1..];
      ViaOrdered(s, p, cur, rest);
      if x !in cur {
        assert Partial(s, p, cur + [x]);
        CompletionsOrdered(s, p, cur + [x]);
        var l, r := Completions(s, p, cur + [x]), CompletionsVia(s, p, cur, rest);
        forall a, b | a in l && b in r ensures LexBefore(s.order, a, b) {
          FirstDifference(s, p, cur, cands, a, b);
        }
        OrderedConcat(s.order, l, r);
      }
    }
  }

  /** match_pattern lists its matches in lexicographic candidate order, each once. */
  lemma MatchesOrdered(s: Shape, p: Pattern)
    requires ValidShape(s) && WellFormed(p)
    ensures LexOrdered(s.order, Matches(s, p))
    ensures Distinct(Matches(s, p))
  {
    CompletionsOrdered(s, p, []);
    var ms := Matches(s, p);
    forall a, b | 0 <= a < b < |ms| ensures ms[a] != ms[b] {
      assert LexBefore(s.order, ms[a], ms[b]);
    }
  }

  // ---- what a match is, spelled out ----

  /** Every expected entry is there with its value, or is None and absent. */
  ghost predicate HasEntries(props: Props, expected: Props) {
    forall k :: k in expected ==> (k in props && props[k] == expected[k]) || (k !in props && expected[k] == Null)
  }

  /** A label is compared as text, properties entry by entry; other fields are absent, so only
      None is met by them. */
  ghost predicate Meets(data: Node, key: string, expected: Value) {
    if key == "label" then expected == Text(data.tag)
    else if key == "properties" then expected.Dict? && HasEntries(data.props, expected.entries)
    else expected == Null
  }

  /** Different nodes that meet every label and constraint, and for every pattern edge a host
      edge between its nodes, in its direction and with its relation. */
  ghost predicate Embeds(s: Shape, p: Pattern, m: seq<Id>)
    requires WellFormed(p)
  {
    && |m| == |p.nodes|
    && (forall i, j :: 0 <= i < j < |m| ==> m[i] != m[j])
    && (forall i :: 0 <= i < |m| ==> m[i] in s.nodes && Fits(s.nodes[m[i]], p.nodes[i]))
    && (forall k :: 0 <= k < |p.edges| ==> (assert p.edges[k] in p.edges; HostEdge(s, p.edges[k], m)))
  }

  ghost predicate Fits(data: Node, pn: PatternNode) {
    && (pn.tag != "" ==> data.tag == pn.tag)
    && forall key :: key in pn.constraints ==> Meets(data, key, pn.constraints[key])
  }

  ghost predicate HostEdge(s: Shape, pe: PatternEdge, m: seq<Id>)
    requires pe.source < |m| && pe.target < |m|
  {
    exists k :: 0 <= k < |s.edges| && s.edges[k].source == m[pe.source] && s.edges[k].target == m[pe.target]
                && s.edges[k].relation == pe.relation
  }

  lemma EntriesIff(props: Props, expected: Props)
    ensures (forall k :: k in expected ==> Lookup(props, k) == expected[k]) <==> HasEntries(props, expected)
  {
  }

  lemma SatisfiesIff(data: Node, key: string, expected: Value)
    ensures Satisfies(data, key, expected) <==> Meets(data, key, expected)
  {
    if expected.Dict? {
      EntriesIff(data.props, expected.entries);
    }
  }

  lemma FitsIff(data: Node, pn: PatternNode)
    ensures NodeOk(pn, data) <==> Fits(data, pn)
  {
    forall key | key in pn.constraints
      ensures Satisfies(data, key, pn.constraints[key]) <==> Meets(data, key, pn.constraints[key])
    {
      SatisfiesIff(data, key, pn.constraints[key]);
    }
  }

  lemma HostEdgeIff(s: Shape, pe: PatternEdge, m: seq<Id>)
    requires pe.source < |m| && pe.target < |m|
    ensures EdgeFound(s, m[pe.source], m[pe.target], pe.relation) <==> HostEdge(s, pe, m)
  {
    if EdgeFound(s, m[pe.source], m[pe.target], pe.relation) {
      var e :| e in s.edges && e.source == m[pe.source] && e.target == m[pe.target] && e.relation == pe.relation;
      var k :| 0 <= k < |s.edges| && s.edges[k] == e;
    }
  }

  lemma EmbedsIff(s: Shape, p: Pattern, m: seq<Id>)
    requires WellFormed(p)
    ensures IsMatch(s, p, m) <==> Embeds(s, p, m)
  {
    if |m| == |p.nodes| {
      forall i | 0 <= i < |m| && m[i] in s.nodes
        ensures NodeOk(p.nodes[i], s.nodes[m[i]]) <==> Fits(s.nodes[m[i]], p.nodes[i])
      {
        FitsIff(s.nodes[m[i]], p.nodes[i]);
      }
      forall k | 0 <= k < |p.edges|
        ensures p.edges[k] in p.edges
        ensures EdgeFound(s, m[p.edges[k].source], m[p.edges[k].target], p.edges[k].relation)
           <==> HostEdge(s, p.edges[k], m)
      {
        assert p.edges[k] in p.edges;
        HostEdgeIff(s, p.edges[k], m);
      }
      hide NodeOk, Fits, EdgeFound, HostEdge;
    }
  }

  // ---- the algorithm ----

  method CheckConstraints(pn: PatternNode, data: Node) returns (valid: bool)
    ensures valid <==> forall key :: key in pn.constraints ==> Satisfies(data, key, pn.constraints[key])
    ensures valid <==> forall key :: key in pn.constraints ==> Meets(data, key, pn.constraints[key])
  {
    forall key | key in pn.constraints
      ensures Satisfies(data, key, pn.constraints[key]) <==> Meets(data, key, pn.constraints[key])
    {
      SatisfiesIff(data, key, pn.constraints[key]);
    }
    valid := true;
    var keys := pn.constraints.Keys;
    while keys != {}
      invariant keys <= pn.constraints.Keys
      invariant valid <==>
                    forall key :: key in pn.constraints && key !in keys ==> Satisfies(data, key, pn.constraints[key])
      decreases keys
    {
      var key :| key in keys;
      keys := keys - {key};
      var expected := pn.constraints[key];
      if key == "properties" && expected.Dict? {
        var same := CheckEntries(expected.entries, data.props);
        if !same {
          valid := false;
        }
      } else if FieldOf(data, key) != expected {
        valid := false;
      }
    }
  }

  method CheckEntries(expected: Props, props: Props) returns (same: bool)
    ensures same <==> forall k :: k in expected ==> Lookup(props, k) == expected[k]
    ensures same <==> HasEntries(props, expected)
  {
    EntriesIff(props, expected);
    var keys := expected.Keys;
    while keys != {}
      invariant keys <= expected.Keys
      invariant forall k :: k in expected && k !in keys ==> Lookup(props, k) == expected[k]
      decreases keys
    {
      var k :| k in keys;
      keys := keys - {k};
      if Lookup(props, k) != expected[k] {
        return false;
      }
    }
    return true;
  }

  lemma {:induction false} CandidatesSnoc(s: Shape, pn: PatternNode, order: seq<Id>, x: Id)
    requires forall y :: y in order ==> y in s.nodes
    requires x in s.nodes
    ensures Candidates(s, pn, order + [x]) == Candidates(s, pn, order) + (if NodeOk(pn, s.nodes[x]) then [x] else [])
  {
    if |order| > 0 {
      assert (order + [x])[1..] == order[1..] + [x];
      CandidatesSnoc(s, pn, order[1..], x);
    }
  }

  method FindCandidates(s: Shape, pn: PatternNode) returns (cands: seq<Id>)
    requires ValidShape(s)
    ensures cands == Candidates(s, pn, s.order)
  {
    cands := [];
    for k := 0 to |s.order|
      invariant cands == Candidates(s, pn, s.order[..k])
    {
      var nid := s.order[k];
      CandidatesSnoc(s, pn, s.order[..k], nid);
      assert s.order[..k + 1] == s.order[..k] + [nid];
      if pn.tag == "" || s.nodes[nid].tag == pn.tag {
        var valid := CheckConstraints(pn, s.nodes[nid]);
        if valid {
          cands := cands + [nid];
        }
      }
    }
    assert s.order[..|s.order|] == s.order;
  }

  lemma ViaStep(s: Shape, p: Pattern, cur: seq<Id>, cands: seq<Id>, k: nat, found: seq<seq<Id>>)
    requires ValidShape(s) && WellFormed(p) && |cur| < |p.nodes| && k < |cands|
    ensures found + CompletionsVia(s, p, cur, cands[k..])
         == (if cands[k] in cur then found else found + Completions(s, p, cur + [cands[k]]))
            + CompletionsVia(s, p, cur, cands[k + 1..])
  {
    hide Completions;
    assert cands[k..][0] == cands[k] && cands[k..][1..] == cands[k + 1..];
    var via := CompletionsVia(s, p, cur, cands[k + 1..]);
    if cands[k] in cur {
      assert CompletionsVia(s, p, cur, cands[k..]) == [] + via == via;
    }
  }

  /** The state shared by the recursive calls of `backtrack`. */
  class Matcher {
    const host: Shape
    const pattern: Pattern
    const candidates: seq<seq<Id>>
    var current: seq<Id>
    var matches: seq<seq<Id>>

    ghost predicate Ready() {
      && ValidShape(host) && WellFormed(pattern) && |candidates| == |pattern.nodes|
      && forall i :: 0 <= i < |candidates| ==> candidates[i] == Candidates(host, pattern.nodes[i], host.order)
    }

    constructor (host: Shape, pattern: Pattern, candidates: seq<seq<Id>>)
      ensures this.host == host && this.pattern == pattern && this.candidates == candidates
      ensures current == [] && matches == []
    {
      this.host, this.pattern, this.candidates := host, pattern, candidates;
      current, matches := [], [];
    }

    method EdgesMatch() returns (ok: bool)
      requires Ready() && |current| == |pattern.nodes|
      ensures ok <==> EdgesOk(host, pattern, current)
    {
      for k := 0 to |pattern.edges|
        invariant forall l :: 0 <= l < k ==>
          var e := pattern.edges[l]; EdgeFound(host, current[e.source], current[e.target], e.relation)
      {
        var e := pattern.edges[k];
        var u, v := current[e.source], current[e.target];
        var found := false;
        for l := 0 to |host.edges|
          invariant !found ==> forall i :: 0 <= i < l ==>
            !(host.edges[i].source == u && host.edges[i].target == v && host.edges[i].relation == e.relation)
          invariant found ==> EdgeFound(host, u, v, e.relation)
        {
          if host.edges[l].source == u && host.edges[l].target == v && host.edges[l].relation == e.relation {
            found := true;
            break;
          }
        }
        if !found {
          assert !EdgeFound(host, u, v, e.relation);
          return false;
        }
      }
      return true;
    }

    method Backtrack(idx: nat)
      requires Ready() && |current| == idx <= |pattern.nodes|
      modifies this
      ensures current == old(current)
      ensures matches == old(matches) + Completions(host, pattern, old(current))
      decreases |pattern.nodes| - idx
    {
      if idx == |pattern.nodes| {
        var ok := EdgesMatch();
        if ok {
          matches := matches + [current];
        }
        return;
      }
      ghost var before, all := current, old(matches) + Completions(host, pattern, current);
      var cands := candidates[idx];
      assert cands[0..] == cands;
      for k := 0 to |cands|
        invariant current == before
        invariant matches + CompletionsVia(host, pattern, before, cands[k..]) == all
      {
        var cand := cands[k];
        ghost var found := matches;
        ViaStep(host, pattern, before, cands, k, found);
        if cand !in current {
          current := current + [cand];
          Backtrack(idx + 1);
          assert current[..idx] == before;
          current := current[..idx];
        }
      }
    }
  }

  method MatchPattern(host: Shape, pattern: Pattern) returns (matches: seq<seq<Id>>)
    requires ValidShape(host) && WellFormed(pattern)
    ensures matches == Matches(host, pattern)
    ensures forall m :: m in matches <==> |pattern.nodes| > 0 && Embeds(host, pattern, m)
  {
    forall m ensures m in Matches(host, pattern) <==> |pattern.nodes| > 0 && Embeds(host, pattern, m) {
      MatchesExact(host, pattern, m);
      EmbedsIff(host, pattern, m);
    }
    hide IsMatch, Embeds;
    if |pattern.nodes| == 0 {
      return [];
    }
    var candidates: seq<seq<Id>> := [];
    for i := 0 to |pattern.nodes|
      invariant |candidates| == i
      invariant forall l :: 0 <= l < i ==> candidates[l] == Candidates(host, pattern.nodes[l], host.order)
    {
      var cands := FindCandidates(host, pattern.nodes[i]);
      candidates := candidates + [cands];
    }
    var m := new Matcher(host, pattern, candidates);
    m.Backtrack(0);
    return m.matches;
  }
}
