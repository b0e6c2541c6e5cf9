/** The graph class of graph.py, proved against the operations of Multigraph. */
module MemoryGraph {
  import opened Multigraph

  /** Stands for uuid4: every key is new in all graphs sharing the source. */
  class KeySource {
    var next: nat

    constructor ()
      ensures next == 0
    {
      next := 0;
    }

    method Fresh() returns (key: nat)
      modifies this
      ensures key == old(next) && next == old(next) + 1
    {
      key := next;
      next := next + 1;
    }
  }

  class SpectralMemoryGraph {
    const seed: int
    var drawn: nat
    var order: seq<Id>
    var nodes: map<Id, Node>
    var edges: seq<Keyed>

    function State(): Graph
      reads this
    {
      Graph(order, nodes, edges)
    }

    constructor (seed: int)
      ensures State() == Empty && drawn == 0 && this.seed == seed
    {
      this.seed := seed;
      drawn, order, nodes, edges := 0, [], map[], [];
    }

    method AddNode(id: Id, tag: string, props: Option<Props>, vector: Option<Vector>)
      modifies this
      ensures vector.Some? ==> drawn == old(drawn)
      ensures vector.None? ==> drawn == old(drawn) + 1
      ensures State() == Multigraph.AddNode(old(State()), id,
                           Node(tag, OrEmpty(props), if vector.Some? then vector.value else Draw(seed, old(drawn))))
    {
      var v := if vector.Some? then vector.value else Draw(seed, drawn);
      if vector.None? {
        drawn := drawn + 1;
      }
      if id !in nodes {
        order := order + [id];
      }
      nodes := nodes[id := Node(tag, OrEmpty(props), v)];
    }

    /** `None` is the KeyError for a missing end. */
    method AddEdge(keys: KeySource, source: Id, target: Id, relation: string, props: Option<Props>)
      returns (key: Option<nat>)
      modifies this, keys
      ensures drawn == old(drawn)
      ensures key.Some? <==> source in old(nodes) && target in old(nodes)
      ensures key.Some? ==> key.value == old(keys.next) && keys.next == old(keys.next) + 1
      ensures key.Some? ==>
              State() == Multigraph.AddEdge(old(State()), key.value, Edge(source, target, relation, OrEmpty(props)))
      ensures key.None? ==> State() == old(State()) && keys.next == old(keys.next)
    {
      if source !in nodes {
        return None;
      }
      if target !in nodes {
        return None;
      }
      var k := keys.Fresh();
      edges := edges + [Keyed(k, Edge(source, target, relation, OrEmpty(props)))];
      return Some(k);
    }

    /** `false` is the KeyError for a missing node. */
    method RemoveNode(id: Id) returns (found: bool)
      modifies this
      ensures drawn == old(drawn)
      ensures found <==> id in old(nodes)
      ensures State() == if found then RemoveNodes(old(State()), {id}) else old(State())
    {
      if id !in nodes {
        return false;
      }
      order, nodes, edges := Outside(order, {id}), nodes - {id}, Avoiding(edges, {id});
      return true;
    }

    /** Scans for the key; `false` is the KeyError when no edge has it. */
    method RemoveEdge(key: nat) returns (found: bool)
      requires DistinctKeys(edges)
      modifies this
      ensures drawn == old(drawn)
      ensures found <==> KeyUsed(old(State()), key)
      ensures State() == Multigraph.RemoveEdge(old(State()), key)
    {
      for k := 0 to |edges|
        invariant forall l :: 0 <= l < k ==> edges[l].key != key
        invariant State() == old(State()) && drawn == old(drawn)
      {
        if edges[k].key == key {
          DropOne(edges, key, k);
          edges := edges[..k] + edges[k + 1..];
          return true;
        }
      }
      DropNone(edges, key);
      return false;
    }

    function GetNode(id: Id): Option<Node>
      reads this
    {
      if id in nodes then Some(nodes[id]) else None
    }
  }

  /** The nodes of `order` that are not removed, with their data. */
  ghost function Copied(nodes: map<Id, Node>, order: seq<Id>, removed: set<Id>): Graph {
    Graph(Outside(order, removed), map x | x in Outside(order, removed) && x in nodes :: nodes[x], [])
  }

  lemma CopySnoc(nodes: map<Id, Node>, order: seq<Id>, id: Id, removed: set<Id>)
    requires id in nodes && id !in order
    ensures var c := Copied(nodes, order, removed);
            Copied(nodes, order + [id], removed) == if id in removed then c else AddNode(c, id, nodes[id])
  {
    assert (order + [id])[..|order|] == order;
    OutsideElements(order, removed);
    if id in removed {
      assert Outside(order + [id], removed) == Outside(order, removed);
    } else {
      var c := Copied(nodes, order, removed);
      assert Outside(order + [id], removed) == Outside(order, removed) + [id];
      assert AddNode(c, id, nodes[id]).nodes == Copied(nodes, order + [id], removed).nodes;
    }
  }

  lemma CopiedAll(g: Graph, removed: set<Id>)
    requires Valid(g)
    ensures Copied(g.nodes, [], removed) == Empty
    ensures Copied(g.nodes, g.order, removed) == Graph(Outside(g.order, removed), g.nodes - removed, [])
  {
    OutsideElements(g.order, removed);
  }

  lemma OrderStep(g: Graph, k: nat)
    requires Valid(g) && k < |g.order|
    ensures g.order[k] in g.nodes && g.order[k] !in g.order[..k] && g.order[..k + 1] == g.order[..k] + [g.order[k]]
  {
    assert g.order[k] in g.order;
  }

  method CopyNodes(g: SpectralMemoryGraph, removed: set<Id>, copy: SpectralMemoryGraph)
    requires Valid(g.State()) && copy != g && copy.State() == Empty
    modifies copy
    ensures copy.drawn == old(copy.drawn)
    ensures copy.State() == Graph(Outside(g.order, removed), g.nodes - removed, [])
  {
    CopiedAll(g.State(), removed);
    for k := 0 to |g.order|
      invariant copy.drawn == old(copy.drawn)
      invariant copy.State() == Copied(g.nodes, g.order[..k], removed)
    {
      var id := g.order[k];
      OrderStep(g.State(), k);
      CopySnoc(g.nodes, g.order[..k], id, removed);
      hide Valid, Copied;
      if id !in removed {
        var data := g.GetNode(id).value;
        copy.AddNode(id, data.tag, Some(data.props), Some(data.vector));
      }
    }
    assert g.order[..|g.order|] == g.order;
  }

  lemma StripSnoc(es: seq<Keyed>, e: Keyed)
    ensures Strip(es + [e]) == Strip(es) + [e.edge]
  {
  }

  lemma CopyEdgeStep(es: seq<Keyed>, removed: set<Id>, k: nat)
    requires k < |es|
    ensures Strip(Avoiding(es[..k + 1], removed))
         == Strip(Avoiding(es[..k], removed)) + (if Touches(es[k].edge, removed) then [] else [es[k].edge])
  {
    assert es[..k + 1][..k] == es[..k];
    StripSnoc(Avoiding(es[..k], removed), es[k]);
  }

  method CopyEdges(g: SpectralMemoryGraph, removed: set<Id>, keys: KeySource, copy: SpectralMemoryGraph)
    requires Valid(g.State()) && copy != g
    requires copy.State() == Graph(Outside(g.order, removed), g.nodes - removed, [])
    modifies copy, keys
    ensures copy.drawn == old(copy.drawn) && keys.next >= old(keys.next)
    ensures Valid(copy.State()) && KeysBelow(copy.State(), keys.next)
    ensures ShapeOf(copy.State()) == ShapeOf(RemoveNodes(g.State(), removed))
  {
    OutsideElements(g.order, removed);
    for k := 0 to |g.edges|
      invariant copy.drawn == old(copy.drawn) && keys.next >= old(keys.next)
      invariant copy.order == Outside(g.order, removed) && copy.nodes == g.nodes - removed
      invariant Strip(copy.edges) == Strip(Avoiding(g.edges[..k], removed))
      invariant Valid(copy.State()) && KeysBelow(copy.State(), keys.next)
    {
      var e := g.edges[k];
      assert e in g.edges;
      ghost var before := copy.State();
      CopyEdgeStep(g.edges, removed, k);
      if !Touches(e.edge, removed) {
        AddEdgeValid(before, keys.next, e.edge);
        StripSnoc(before.edges, Keyed(keys.next, e.edge));
        hide Valid, KeysBelow, Avoiding;
        var key := copy.AddEdge(keys, e.edge.source, e.edge.target, e.edge.relation, Some(e.edge.props));
      }
    }
    assert g.edges[..|g.edges|] == g.edges;
  }

  /** A copy without some nodes; the copied edges get fresh keys. */
  method CopyWithout(g: SpectralMemoryGraph, removed: set<Id>, keys: KeySource, seed: int)
    returns (copy: SpectralMemoryGraph)
    requires Valid(g.State())
    modifies keys
    ensures fresh(copy) && copy.seed == seed && copy.drawn == 0
    ensures Valid(copy.State()) && KeysBelow(copy.State(), keys.next)
    ensures ShapeOf(copy.State()) == ShapeOf(RemoveNodes(g.State(), removed))
    ensures keys.next >= old(keys.next)
  {
    copy := new SpectralMemoryGraph(seed);
    CopyNodes(g, removed, copy);
    CopyEdges(g, removed, keys, copy);
  }
}
