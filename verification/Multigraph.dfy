/** The property multigraph of graph.py: ordered nodes, keyed edges. */
module Multigraph {
  import opened Sorting

  datatype Option<+T> = None | Some(value: T)

  /** A node id; `Generated(c, i)` is the string "gen_{c}_{i}", `Named` any other. */
  datatype Id = Named(name: string) | Generated(count: nat, index: nat)

  datatype Value = Null | Text(text: string) | Number(n: int) | Dict(entries: map<string, Value>)

  type Props = map<string, Value>

  /** Either given data or the k-th draw of a seeded engine. */
  datatype Vector = Data(code: int) | Draw(seed: int, k: nat)

  datatype Node = Node(tag: string, props: Props, vector: Vector)

  datatype Edge = Edge(source: Id, target: Id, relation: string, props: Props)

  datatype Keyed = Keyed(key: nat, edge: Edge)

  /** The state of a graph. Edges are listed oldest first. */
  datatype Graph = Graph(order: seq<Id>, nodes: map<Id, Node>, edges: seq<Keyed>)

  const Empty := Graph([], map[], [])

  ghost predicate Valid(g: Graph) {
    && Distinct(g.order)
    && (forall x :: x in g.order <==> x in g.nodes)
    && (forall e :: e in g.edges ==> e.edge.source in g.nodes && e.edge.target in g.nodes)
    && (forall a, b :: 0 <= a < b < |g.edges| ==> g.edges[a].key != g.edges[b].key)
  }

  function OrEmpty(p: Option<Props>): Props {
    if p.Some? then p.value else map[]
  }

  /** What is stored for properties that were given, or not given. */
  ghost predicate Stored(given: Option<Props>, stored: Props) {
    (given.Some? ==> stored == given.value) && (given.None? ==> |stored| == 0)
  }

  /** An existing node keeps its place and its edges and gets the new data. */
  function AddNode(g: Graph, id: Id, node: Node): Graph {
    g.(order := if id in g.nodes then g.order else g.order + [id], nodes := g.nodes[id := node])
  }

  function AddEdge(g: Graph, key: nat, e: Edge): Graph {
    g.(edges := g.edges + [Keyed(key, e)])
  }

  function Outside(s: seq<Id>, ids: set<Id>): seq<Id> {
    if |s| == 0 then [] else Outside(s[..|s| - 1], ids) + (if s[|s| - 1] in ids then [] else [s[|s| - 1]])
  }

  predicate Touches(e: Edge, ids: set<Id>) {
    e.source in ids || e.target in ids
  }

  /** The edges with no end in ids. */
  function Avoiding(es: seq<Keyed>, ids: set<Id>): seq<Keyed> {
    if |es| == 0 then []
    else Avoiding(es[..|es| - 1], ids) + (if Touches(es[|es| - 1].edge, ids) then [] else [es[|es| - 1]])
  }

  /** Removes nodes and all their incident edges. */
  function RemoveNodes(g: Graph, ids: set<Id>): Graph {
    Graph(Outside(g.order, ids), g.nodes - ids, Avoiding(g.edges, ids))
  }

  function Dropping(es: seq<Keyed>, key: nat): seq<Keyed> {
    if |es| == 0 then []
    else Dropping(es[..|es| - 1], key) + (if es[|es| - 1].key == key then [] else [es[|es| - 1]])
  }

  function RemoveEdge(g: Graph, key: nat): Graph {
    g.(edges := Dropping(g.edges, key))
  }

  /** The edges without their keys. */
  function Strip(es: seq<Keyed>): (r: seq<Edge>)
    ensures |r| == |es|
    ensures forall k :: 0 <= k < |r| ==> r[k] == es[k].edge
  {
    seq(|es|, k requires 0 <= k < |es| => es[k].edge)
  }

  /** The same for edges without keys. */
  function AvoidingEdges(es: seq<Edge>, ids: set<Id>): seq<Edge> {
    if |es| == 0 then []
    else AvoidingEdges(es[..|es| - 1], ids) + (if Touches(es[|es| - 1], ids) then [] else [es[|es| - 1]])
  }

  /** A graph up to its edge keys. */
  datatype Shape = Shape(order: seq<Id>, nodes: map<Id, Node>, edges: seq<Edge>)

  function ShapeOf(g: Graph): Shape {
    Shape(g.order, g.nodes, Strip(g.edges))
  }

  ghost predicate KeyUsed(g: Graph, key: nat) {
    exists k :: 0 <= k < |g.edges| && g.edges[k].key == key
  }

  /** Every key is below `next`, so `next` is fresh. */
  ghost predicate KeysBelow(g: Graph, next: nat) {
    forall e :: e in g.edges ==> e.key < next
  }

  // ---- facts about the list operations ----

  lemma {:induction false} OutsideElements(s: seq<Id>, ids: set<Id>)
    ensures forall y :: y in Outside(s, ids) <==> y in s && y !in ids
    ensures Distinct(s) ==> Distinct(Outside(s, ids))
  {
    if |s| > 0 {
      var t, y := s[..|s| - 1], s[|s| - 1];
      assert s == t + [y];
      OutsideElements(t, ids);
      if Distinct(s) {
        assert y !in t;
      }
    }
  }

  lemma {:induction false} OutsideTwice(s: seq<Id>, a: set<Id>, b: set<Id>)
    ensures Outside(Outside(s, a), b) == Outside(s, a + b)
  {
    if |s| > 0 {
      var t, y := s[..|s| - 1], s[|s| - 1];
      OutsideTwice(t, a, b);
      if y !in a {
        assert (Outside(t, a) + [y])[..|Outside(t, a)|] == Outside(t, a);
      } else {
        assert Outside(s, a) == Outside(t, a);
      }
    }
  }

  lemma {:induction false} AvoidingTwice(es: seq<Keyed>, a: set<Id>, b: set<Id>)
    ensures Avoiding(Avoiding(es, a), b) == Avoiding(es, a + b)
  {
    if |es| > 0 {
      var t, y := es[..|es| - 1], es[|es| - 1];
      AvoidingTwice(t, a, b);
      if !Touches(y.edge, a) {
        assert (Avoiding(t, a) + [y])[..|Avoiding(t, a)|] == Avoiding(t, a);
      } else {
        assert Avoiding(es, a) == Avoiding(t, a);
      }
    }
  }

  lemma RemoveTwice(g: Graph, a: set<Id>, b: set<Id>)
    ensures RemoveNodes(RemoveNodes(g, a), b) == RemoveNodes(g, a + b)
  {
    OutsideTwice(g.order, a, b);
    AvoidingTwice(g.edges, a, b);
    assert g.nodes - a - b == g.nodes - (a + b);
  }

  lemma {:induction false} OutsideNothing(s: seq<Id>, ids: set<Id>)
    requires forall x :: x in s ==> x !in ids
    ensures Outside(s, ids) == s
  {
    if |s| > 0 {
      assert s == s[..|s| - 1] + [s[|s| - 1]];
      OutsideNothing(s[..|s| - 1], ids);
    }
  }

  lemma {:induction false} AvoidingNothing(es: seq<Keyed>, ids: set<Id>)
    requires forall e :: e in es ==> !Touches(e.edge, ids)
    ensures Avoiding(es, ids) == es
  {
    if |es| > 0 {
      assert es == es[..|es| - 1] + [es[|es| - 1]];
      AvoidingNothing(es[..|es| - 1], ids);
    }
  }

  /** Removing ids the graph does not have changes nothing. */
  lemma RemoveAbsent(g: Graph, ids: set<Id>)
    requires Valid(g) && g.nodes.Keys !! ids
    ensures RemoveNodes(g, ids) == g
  {
    OutsideNothing(g.order, ids);
    AvoidingNothing(g.edges, ids);
  }

  lemma {:induction false} AvoidingElements(es: seq<Keyed>, ids: set<Id>)
    ensures forall e :: e in Avoiding(es, ids) <==> e in es && !Touches(e.edge, ids)
  {
    if |es| > 0 {
      var t, y := es[..|es| - 1], es[|es| - 1];
      assert es == t + [y];
      AvoidingElements(t, ids);
    }
  }

  ghost predicate DistinctKeys(es: seq<Keyed>) {
    forall a, b :: 0 <= a < b < |es| ==> es[a].key != es[b].key
  }

  lemma {:induction false} AvoidingKeys(es: seq<Keyed>, ids: set<Id>)
    requires DistinctKeys(es)
    ensures DistinctKeys(Avoiding(es, ids))
  {
    if |es| > 0 {
      var t, y := es[..|es| - 1], es[|es| - 1];
      AvoidingKeys(t, ids);
      AvoidingElements(t, ids);
      assert forall e :: e in t ==> e.key != y.key;
    }
  }

  lemma {:induction false} DroppingElements(es: seq<Keyed>, key: nat)
    ensures forall e :: e in Dropping(es, key) <==> e in es && e.key != key
    ensures DistinctKeys(es) ==> DistinctKeys(Dropping(es, key))
  {
    if |es| > 0 {
      var t, y := es[..|es| - 1], es[|es| - 1];
      assert es == t + [y];
      DroppingElements(t, key);
      if DistinctKeys(es) {
        assert forall e :: e in t ==> e.key != y.key;
      }
    }
  }

  lemma AddNodeValid(g: Graph, id: Id, node: Node)
    requires Valid(g)
    ensures Valid(AddNode(g, id, node))
  {
  }

  lemma AddEdgeValid(g: Graph, key: nat, e: Edge)
    requires Valid(g) && e.source in g.nodes && e.target in g.nodes && KeysBelow(g, key)
    ensures Valid(AddEdge(g, key, e)) && KeysBelow(AddEdge(g, key, e), key + 1)
  {
  }

  lemma RemoveNodesValid(g: Graph, ids: set<Id>)
    requires Valid(g)
    ensures Valid(RemoveNodes(g, ids))
  {
    OutsideElements(g.order, ids);
    AvoidingElements(g.edges, ids);
    AvoidingKeys(g.edges, ids);
  }

  lemma RemoveEdgeValid(g: Graph, key: nat)
    requires Valid(g)
    ensures Valid(RemoveEdge(g, key))
  {
    DroppingElements(g.edges, key);
  }

  lemma {:induction false} DropNone(es: seq<Keyed>, key: nat)
    requires forall k :: 0 <= k < |es| ==> es[k].key != key
    ensures Dropping(es, key) == es
  {
    if |es| > 0 {
      DropNone(es[..|es| - 1], key);
    }
  }

  lemma {:induction false} DropOne(es: seq<Keyed>, key: nat, k: nat)
    requires DistinctKeys(es) && k < |es| && es[k].key == key
    ensures Dropping(es, key) == es[..k] + es[k + 1..]
  {
    var t := es[..|es| - 1];
    if k == |es| - 1 {
      DropNone(t, key);
    } else {
      DropOne(t, key, k);
      assert t[k + 1..] + [es[|es| - 1]] == es[k + 1..];
    }
  }

  lemma {:induction false} StripAvoiding(es: seq<Keyed>, ids: set<Id>)
    ensures Strip(Avoiding(es, ids)) == AvoidingEdges(Strip(es), ids)
  {
    if |es| == 0 {
    } else {
      var t, y := es[..|es| - 1], es[|es| - 1];
      StripAvoiding(t, ids);
      assert Strip(es)[..|es| - 1] == Strip(t);
    }
  }
}
