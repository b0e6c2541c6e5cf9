/** The sharded graph of distributed.py: nodes live on their home shard,
    cross-shard edges are copied to both homes. */
module Sharding {
  import opened MemoryGraph
  import opened Multigraph
  import opened Ranking

  /** The edges from u to v, oldest first, without keys. */
  ghost function Between(es: seq<Keyed>, u: Id, v: Id): seq<Edge> {
    if |es| == 0 then []
    else
      var e := es[|es| - 1].edge;
      Between(es[..|es| - 1], u, v) + (if e.source == u && e.target == v then [e] else [])
  }

  lemma BetweenSnoc(es: seq<Keyed>, k: Keyed, u: Id, v: Id)
    ensures Between(es + [k], u, v)
         == Between(es, u, v) + (if k.edge.source == u && k.edge.target == v then [k.edge] else [])
  {
    assert (es + [k])[..|es|] == es;
  }

  // ---- the shards as values ----

  type Home = Id -> nat

  /** Every home shard holds its own nodes as the flat map does. */
  ghost predicate Agrees(home: Home, gs: seq<Graph>, flat: map<Id, Node>) {
    forall id :: home(id) < |gs| && AgreesAt(gs[home(id)], flat, id)
  }

  ghost predicate AgreesAt(g: Graph, flat: map<Id, Node>, id: Id) {
    (id in flat <==> id in g.nodes) && (id in flat ==> flat[id] == g.nodes[id])
  }

  /** Both home shards hold the same edges of every cross-shard pair. */
  ghost predicate Mirrored(home: Home, gs: seq<Graph>) {
    forall u, v :: home(u) < |gs| && home(v) < |gs| && home(u) != home(v) ==> MirroredAt(gs[home(u)], gs[home(v)], u, v)
  }

  ghost predicate MirroredAt(g: Graph, h: Graph, u: Id, v: Id) {
    Between(g.edges, u, v) == Between(h.edges, u, v)
  }

  /** Changing nodes but no edge keeps the copies equal. */
  lemma NodesKeepMirrored(home: Home, gs: seq<Graph>, i: nat, g: Graph)
    requires Mirrored(home, gs) && i < |gs| && g.edges == gs[i].edges
    ensures Mirrored(home, gs[i := g])
  {
    forall u, v | home(u) < |gs| && home(v) < |gs| && home(u) != home(v)
      ensures MirroredAt(gs[i := g][home(u)], gs[i := g][home(v)], u, v)
    {
      assert MirroredAt(gs[home(u)], gs[home(v)], u, v);
    }
  }

  /** A node written on its home shard is written in the flat map. */
  lemma HomeNode(home: Home, gs: seq<Graph>, flat: map<Id, Node>, id: Id, node: Node)
    requires Agrees(home, gs, flat)
    ensures home(id) < |gs|
    ensures Agrees(home, gs[home(id) := AddNode(gs[home(id)], id, node)], flat[id := node])
  {
    assert AgreesAt(gs[home(id)], flat, id);
    var gs' := gs[home(id) := AddNode(gs[home(id)], id, node)];
    forall x ensures home(x) < |gs'| && AgreesAt(gs'[home(x)], flat[id := node], x) {
      assert AgreesAt(gs[home(x)], flat, x);
    }
  }

  /** A ghost copy on another shard is invisible to the flat map. */
  lemma GhostNode(home: Home, gs: seq<Graph>, flat: map<Id, Node>, i: nat, id: Id, node: Node)
    requires Agrees(home, gs, flat) && i < |gs| && i != home(id)
    ensures Agrees(home, gs[i := AddNode(gs[i], id, node)], flat)
  {
    var gs' := gs[i := AddNode(gs[i], id, node)];
    forall x ensures home(x) < |gs'| && AgreesAt(gs'[home(x)], flat, x) {
      assert AgreesAt(gs[home(x)], flat, x);
    }
  }

  lemma EdgeKeepsAgrees(home: Home, gs: seq<Graph>, flat: map<Id, Node>, i: nat, key: nat, e: Edge)
    requires Agrees(home, gs, flat) && i < |gs|
    ensures Agrees(home, gs[i := AddEdge(gs[i], key, e)], flat)
  {
    var gs' := gs[i := AddEdge(gs[i], key, e)];
    forall x ensures home(x) < |gs'| && AgreesAt(gs'[home(x)], flat, x) {
      assert AgreesAt(gs[home(x)], flat, x);
    }
  }

  lemma HomeRemoval(home: Home, gs: seq<Graph>, flat: map<Id, Node>, id: Id)
    requires Agrees(home, gs, flat)
    ensures home(id) < |gs|
    ensures Agrees(home, gs[home(id) := RemoveNodes(gs[home(id)], {id})], flat - {id})
  {
    assert AgreesAt(gs[home(id)], flat, id);
    var gs' := gs[home(id) := RemoveNodes(gs[home(id)], {id})];
    forall x ensures home(x) < |gs'| && AgreesAt(gs'[home(x)], flat - {id}, x) {
      assert AgreesAt(gs[home(x)], flat, x);
    }
  }

  /** An edge inside one shard is no cross-shard edge. */
  lemma LocalEdge(home: Home, gs: seq<Graph>, key: nat, e: Edge)
    requires Mirrored(home, gs) && home(e.source) == home(e.target) < |gs|
    ensures Mirrored(home, gs[home(e.source) := AddEdge(gs[home(e.source)], key, e)])
  {
    var i := home(e.source);
    var gs' := gs[i := AddEdge(gs[i], key, e)];
    forall u, v | home(u) < |gs| && home(v) < |gs| && home(u) != home(v)
      ensures MirroredAt(gs'[home(u)], gs'[home(v)], u, v)
    {
      assert MirroredAt(gs[home(u)], gs[home(v)], u, v);
      BetweenSnoc(gs[i].edges, Keyed(key, e), u, v);
    }
  }

  /** A cross-shard edge is added on both sides. */
  lemma CrossEdge(home: Home, gs: seq<Graph>, k: nat, l: nat, e: Edge)
    requires Mirrored(home, gs) && home(e.source) < |gs| && home(e.target) < |gs| && home(e.source) != home(e.target)
    ensures var i, j := home(e.source), home(e.target);
            Mirrored(home, gs[i := AddEdge(gs[i], k, e)][j := AddEdge(gs[j], l, e)])
  {
    var i, j := home(e.source), home(e.target);
    var gs' := gs[i := AddEdge(gs[i], k, e)][j := AddEdge(gs[j], l, e)];
    forall u, v | home(u) < |gs| && home(v) < |gs| && home(u) != home(v)
      ensures MirroredAt(gs'[home(u)], gs'[home(v)], u, v)
    {
      assert MirroredAt(gs[home(u)], gs[home(v)], u, v);
      BetweenSnoc(gs[i].edges, Keyed(k, e), u, v);
      BetweenSnoc(gs[j].edges, Keyed(l, e), u, v);
    }
  }

  /** Removing a node empties its pairs and leaves the others alone. */
  lemma {:induction false} BetweenAvoiding(es: seq<Keyed>, id: Id, u: Id, v: Id)
    ensures Between(Avoiding(es, {id}), u, v) == if id == u || id == v then [] else Between(es, u, v)
  {
    if |es| > 0 {
      var t, y := es[..|es| - 1], es[|es| - 1];
      BetweenAvoiding(t, id, u, v);
      if Touches(y.edge, {id}) {
        assert Avoiding(es, {id}) == Avoiding(t, {id});
      } else {
        assert Avoiding(es, {id}) == Avoiding(t, {id}) + [y];
        BetweenSnoc(Avoiding(t, {id}), y, u, v);
      }
    }
  }

  ghost predicate TotalHome(home: Home, n: nat) {
    forall id :: home(id) < n
  }

  /** g has no edge, in either direction, between id and a node of another shard. */
  ghost predicate Unshared(home: Home, g: Graph, id: Id) {
    forall v :: home(v) != home(id) ==> NoEdge(g, id, v)
  }

  ghost predicate NoEdge(g: Graph, u: Id, v: Id) {
    Between(g.edges, u, v) == [] && Between(g.edges, v, u) == []
  }

  /** The home shard alone loses the node: all pairs stay mirrored exactly when the node has no
      cross-shard edge. */
  lemma RemovalMirrored(home: Home, gs: seq<Graph>, gs': seq<Graph>, id: Id)
    requires TotalHome(home, |gs|) && Mirrored(home, gs)
    requires home(id) < |gs| && gs' == gs[home(id) := RemoveNodes(gs[home(id)], {id})]
    ensures Mirrored(home, gs') <==> Unshared(home, gs[home(id)], id)
  {
    var i := home(id);
    var es := gs[i].edges;
    if Mirrored(home, gs') {
      forall v | home(v) != i ensures NoEdge(gs[i], id, v) {
        assert MirroredAt(gs'[i], gs'[home(v)], id, v) && MirroredAt(gs'[home(v)], gs'[i], v, id);
        assert MirroredAt(gs[i], gs[home(v)], id, v) && MirroredAt(gs[home(v)], gs[i], v, id);
        BetweenAvoiding(es, id, id, v);
        BetweenAvoiding(es, id, v, id);
      }
    }
    if Unshared(home, gs[i], id) {
      forall u, v | home(u) < |gs| && home(v) < |gs| && home(u) != home(v)
        ensures MirroredAt(gs'[home(u)], gs'[home(v)], u, v)
      {
        assert MirroredAt(gs[home(u)], gs[home(v)], u, v);
        BetweenAvoiding(es, id, u, v);
        assert id == u ==> NoEdge(gs[i], id, v);
        assert id == v ==> NoEdge(gs[i], id, u);
      }
    }
  }

  // ---- a removal that leaves a copy behind ----

  const Left := Named("u")
  const Right := Named("v")
  const Crossing := Edge(Left, Right, "r", map[])

  function TwoHomes(id: Id): nat {
    if id == Left then 0 else 1
  }

  /** Two shards after adding a node on each and an edge between them. */
  ghost function Crossed(): (r: seq<Graph>)
    ensures |r| == 2
  {
    var node := Node("", map[], Data(0));
    WithEdge([AddNode(Empty, Left, node), AddNode(Empty, Right, node)], 0, 1, 0, Crossing)
  }

  /** Removing the target of the edge leaves its other copy. */
  lemma RemovalLeavesCopy()
    ensures Mirrored(TwoHomes, Crossed())
    ensures !Mirrored(TwoHomes, Crossed()[1 := RemoveNodes(Crossed()[1], {Right})])
  {
    var node := Node("", map[], Data(0));
    var gs := [AddNode(Empty, Left, node), AddNode(Empty, Right, node)];
    var crossed := Crossed();
    WithEdgeMirrored(TwoHomes, gs, crossed, 0, Crossing);
    RemovalMirrored(TwoHomes, crossed, crossed[1 := RemoveNodes(crossed[1], {Right})], Right);
    assert crossed[1].edges == [] + [Keyed(1, Crossing)];
    BetweenSnoc([], Keyed(1, Crossing), Left, Right);
    assert !NoEdge(crossed[1], Right, Left);
  }

  ghost predicate AllValid(gs: seq<Graph>) {
    forall i :: 0 <= i < |gs| ==> Valid(gs[i])
  }

  ghost predicate KeysFresh(gs: seq<Graph>, next: nat) {
    forall i :: 0 <= i < |gs| ==> KeysBelow(gs[i], next)
  }

  /** The new edge is appended on shards i and j and nowhere else. */
  ghost predicate EdgeOn(gs: seq<Graph>, gs': seq<Graph>, i: nat, j: nat, e: Edge) {
    && |gs'| == |gs|
    && forall s :: 0 <= s < |gs| ==> EdgeOnAt(gs[s], gs'[s], s == i || s == j, e)
  }

  ghost predicate EdgeOnAt(g: Graph, g': Graph, here: bool, e: Edge) {
    Strip(g'.edges) == Strip(g.edges) + (if here then [e] else [])
  }

  ghost predicate SameEdges(gs: seq<Graph>, gs': seq<Graph>) {
    |gs'| == |gs| && forall s :: 0 <= s < |gs| ==> gs'[s].edges == gs[s].edges
  }

  lemma LocalEdgeOn(gs: seq<Graph>, i: nat, k: nat, e: Edge)
    requires i < |gs|
    ensures EdgeOn(gs, gs[i := AddEdge(gs[i], k, e)], i, i, e)
  {
    StripSnoc(gs[i].edges, Keyed(k, e));
  }

  lemma CrossEdgeOn(gs: seq<Graph>, i: nat, j: nat, k: nat, l: nat, e: Edge)
    requires i < |gs| && j < |gs| && i != j
    ensures EdgeOn(gs, gs[i := AddEdge(gs[i], k, e)][j := AddEdge(gs[j], l, e)], i, j, e)
  {
    StripSnoc(gs[i].edges, Keyed(k, e));
    StripSnoc(gs[j].edges, Keyed(l, e));
  }

  /** Ghost copies of the ends of an edge from shard i to shard j, where they are missing. */
  ghost function WithGhosts(gs: seq<Graph>, i: nat, j: nat, source: Id, target: Id): (r: seq<Graph>)
    requires i < |gs| && j < |gs| && i != j && source in gs[i].nodes && target in gs[j].nodes
    ensures |r| == |gs|
    ensures source in r[i].nodes && target in r[i].nodes && source in r[j].nodes && target in r[j].nodes
    ensures SameEdges(gs, r)
  {
    var g1 := if target in gs[i].nodes then gs else gs[i := AddNode(gs[i], target, gs[j].nodes[target])];
    if source in g1[j].nodes then g1 else g1[j := AddNode(g1[j], source, g1[i].nodes[source])]
  }

  /** The shards after adding an edge from home i to home j, from the first fresh key on. */
  ghost function WithEdge(gs: seq<Graph>, i: nat, j: nat, key: nat, e: Edge): (r: seq<Graph>)
    requires i < |gs| && j < |gs| && e.source in gs[i].nodes && e.target in gs[j].nodes
    ensures |r| == |gs|
  {
    if i == j then gs[i := AddEdge(gs[i], key, e)]
    else
      var g2 := WithGhosts(gs, i, j, e.source, e.target);
      g2[i := AddEdge(g2[i], key, e)][j := AddEdge(g2[j], key + 1, e)]
  }

  lemma WithEdgeCases(gs: seq<Graph>, i: nat, j: nat, key: nat, e: Edge)
    requires i < |gs| && j < |gs| && e.source in gs[i].nodes && e.target in gs[j].nodes
    ensures i == j ==> WithEdge(gs, i, j, key, e) == gs[i := AddEdge(gs[i], key, e)]
    ensures i != j ==>
              var g2 := WithGhosts(gs, i, j, e.source, e.target);
              WithEdge(gs, i, j, key, e) == g2[i := AddEdge(g2[i], key, e)][j := AddEdge(g2[j], key + 1, e)]
  {
  }

  /** The edge is appended on both homes and nowhere else. */
  lemma WithEdgeOn(gs: seq<Graph>, i: nat, j: nat, key: nat, e: Edge)
    requires i < |gs| && j < |gs| && e.source in gs[i].nodes && e.target in gs[j].nodes
    ensures EdgeOn(gs, WithEdge(gs, i, j, key, e), i, j, e)
    ensures WithEdge(gs, i, j, key, e)[i].edges == gs[i].edges + [Keyed(key, e)]
  {
    if i == j {
      LocalEdgeOn(gs, i, key, e);
    } else {
      var g2 := WithGhosts(gs, i, j, e.source, e.target);
      CrossEdgeOn(g2, i, j, key, key + 1, e);
      EdgeOnFrom(gs, g2, WithEdge(gs, i, j, key, e), i, j, e);
    }
  }

  /** x, if it was missing from shard i, is there now exactly as on its home shard j. */
  ghost predicate CopiedFrom(gs: seq<Graph>, gs': seq<Graph>, i: nat, j: nat, x: Id)
    requires i < |gs| && j < |gs| && |gs'| == |gs|
  {
    x in gs[j].nodes && x !in gs[i].nodes ==> x in gs'[i].nodes && gs'[i].nodes[x] == gs[j].nodes[x]
  }

  /** Shard s keeps all its nodes with their data and gains at most x. */
  ghost predicate GainsAtMost(g: Graph, g': Graph, x: Id) {
    && (forall y :: y in g.nodes ==> y in g'.nodes && g'.nodes[y] == g.nodes[y])
    && (forall y :: y in g'.nodes && y !in g.nodes ==> y == x)
  }

  /** Each end missing from the other's home shard i or j is copied there from its own, label,
      properties and vector; every other node of every shard stays as it was. */
  ghost predicate EndsCopied(gs: seq<Graph>, gs': seq<Graph>, i: nat, j: nat, source: Id, target: Id) {
    && i < |gs| && j < |gs| && |gs'| == |gs|
    && CopiedFrom(gs, gs', i, j, target) && CopiedFrom(gs, gs', j, i, source)
    && GainsAtMost(gs[i], gs'[i], target) && GainsAtMost(gs[j], gs'[j], source)
    && forall s :: 0 <= s < |gs| && s != i && s != j ==> gs'[s] == gs[s]
  }

  lemma GhostsCopied(gs: seq<Graph>, i: nat, j: nat, source: Id, target: Id)
    requires i < |gs| && j < |gs| && i != j && source in gs[i].nodes && target in gs[j].nodes
    ensures EndsCopied(gs, WithGhosts(gs, i, j, source, target), i, j, source, target)
  {
  }

  lemma WithEdgeCopied(gs: seq<Graph>, i: nat, j: nat, key: nat, e: Edge)
    requires i < |gs| && j < |gs| && e.source in gs[i].nodes && e.target in gs[j].nodes
    ensures EndsCopied(gs, WithEdge(gs, i, j, key, e), i, j, e.source, e.target)
  {
    if i != j {
      GhostsCopied(gs, i, j, e.source, e.target);
      hide WithGhosts;
    }
  }

  /** Adding an edge, ghosts included, keeps every pair mirrored. */
  lemma WithEdgeMirrored(home: Home, gs: seq<Graph>, gs': seq<Graph>, key: nat, e: Edge)
    requires home(e.source) < |gs| && home(e.target) < |gs|
    requires e.source in gs[home(e.source)].nodes && e.target in gs[home(e.target)].nodes
    requires gs' == WithEdge(gs, home(e.source), home(e.target), key, e)
    requires Mirrored(home, gs)
    ensures Mirrored(home, gs')
  {
    var i, j := home(e.source), home(e.target);
    WithEdgeCases(gs, i, j, key, e);
    if i == j {
      LocalEdge(home, gs, key, e);
    } else {
      GhostsMirrored(home, gs, i, j, e.source, e.target);
      var g2 := WithGhosts(gs, i, j, e.source, e.target);
      hide WithGhosts, Mirrored;
      CrossEdge(home, g2, key, key + 1, e);
    }
  }

  lemma GhostsMirrored(home: Home, gs: seq<Graph>, i: nat, j: nat, source: Id, target: Id)
    requires Mirrored(home, gs)
    requires i < |gs| && j < |gs| && i != j && source in gs[i].nodes && target in gs[j].nodes
    ensures Mirrored(home, WithGhosts(gs, i, j, source, target))
  {
    var g1 := if target in gs[i].nodes then gs else gs[i := AddNode(gs[i], target, gs[j].nodes[target])];
    if target !in gs[i].nodes {
      NodesKeepMirrored(home, gs, i, AddNode(gs[i], target, gs[j].nodes[target]));
    }
    if source !in g1[j].nodes {
      NodesKeepMirrored(home, g1, j, AddNode(g1[j], source, g1[i].nodes[source]));
    }
  }

  lemma EdgeOnFrom(gs: seq<Graph>, gs1: seq<Graph>, gs2: seq<Graph>, i: nat, j: nat, e: Edge)
    requires SameEdges(gs, gs1) && EdgeOn(gs1, gs2, i, j, e)
    ensures EdgeOn(gs, gs2, i, j, e)
  {
    forall s | 0 <= s < |gs| ensures EdgeOnAt(gs[s], gs2[s], s == i || s == j, e) {
      assert EdgeOnAt(gs1[s], gs2[s], s == i || s == j, e);
    }
  }

  // ---- the class ----

  class DistributedGraphBackend {
    const shards: seq<SpectralMemoryGraph>
    /** The hash ring: any total function into the shards. */
    const home: Home
    /** What one flat node map would hold. */
    ghost var flat: map<Id, Node>

    ghost predicate Separate() {
      forall i, j :: 0 <= i < j < |shards| ==> shards[i] != shards[j]
    }

    ghost function States(): (r: seq<Graph>)
      reads shards
      ensures |r| == |shards|
      ensures forall i :: 0 <= i < |shards| ==> r[i] == shards[i].State()
    {
      seq(|shards|, i requires 0 <= i < |shards| reads shards => shards[i].State())
    }

    ghost predicate Ready(keys: KeySource)
      reads this, shards, keys
    {
      && Separate()
      && Agrees(home, States(), flat)
      && AllValid(States())
      && KeysFresh(States(), keys.next)
    }

    constructor (shards: seq<SpectralMemoryGraph>, home: Home, keys: KeySource)
      requires |shards| >= 1 && forall i, j :: 0 <= i < j < |shards| ==> shards[i] != shards[j]
      requires forall i :: 0 <= i < |shards| ==> shards[i].State() == Empty
      requires forall id :: home(id) < |shards|
      ensures this.shards == shards && this.home == home
      ensures Ready(keys) && flat == map[] && Mirrored(home, States())
    {
      this.shards, this.home := shards, home;
      flat := map[];
    }

    method AddNode(id: Id, tag: string, props: Option<Props>, vector: Option<Vector>, keys: KeySource)
      requires Ready(keys)
      modifies this, shards
      ensures Ready(keys)
      ensures old(Mirrored(home, States())) ==> Mirrored(home, States())
      ensures id in flat && flat[id].tag == tag && Stored(props, flat[id].props)
      ensures vector.Some? ==> flat[id].vector == vector.value
      ensures flat == old(flat)[id := flat[id]] && home(id) < |shards|
      ensures States() == old(States())[home(id) := Multigraph.AddNode(old(States())[home(id)], id, flat[id])]
    {
      ghost var gs := States();
      HomeBelow(home, gs, flat, id);
      var g := shards[home(id)];
      ghost var node := Node(tag, OrEmpty(props), if vector.Some? then vector.value else Draw(g.seed, g.drawn));
      hide Agrees, AllValid, KeysFresh, Mirrored;
      g.AddNode(id, tag, props, vector);
      assert States() == gs[home(id) := Multigraph.AddNode(gs[home(id)], id, node)];
      NodeKeeps(home, gs, States(), flat, id, node, keys.next);
      flat := flat[id := node];
    }

    /** Copies a node to a shard that is not its home. */
    method Replicate(i: nat, id: Id, node: Node, keys: KeySource)
      requires Ready(keys) && i < |shards| && i != home(id)
      modifies shards[i]
      ensures Ready(keys)
      ensures States() == old(States()[i := Multigraph.AddNode(States()[i], id, node)])
    {
      ghost var gs := States();
      GhostNode(home, gs, flat, i, id, node);
      AddNodeValid(gs[i], id, node);
      shards[i].AddNode(id, node.tag, Some(node.props), Some(node.vector));
      assert States() == gs[i := Multigraph.AddNode(gs[i], id, node)];
    }

    /** Puts ghost copies of the ends where they are missing. */
    method ReplicateEnds(source: Id, target: Id, keys: KeySource)
      requires Ready(keys) && home(source) < |shards| && home(target) < |shards| && home(source) != home(target)
      requires source in shards[home(source)].nodes && target in shards[home(target)].nodes
      modifies shards
      ensures Ready(keys)
      ensures States() == WithGhosts(old(States()), home(source), home(target), source, target)
      ensures EndsCopied(old(States()), States(), home(source), home(target), source, target)
    {
      GhostsCopied(States(), home(source), home(target), source, target);
      var i, j := home(source), home(target);
      assert shards[i] != shards[j];
      hide Agrees, AllValid, KeysFresh, SameEdges;
      if target !in shards[i].nodes {
        Replicate(i, target, shards[j].nodes[target], keys);
      }
      if source !in shards[j].nodes {
        Replicate(j, source, shards[i].nodes[source], keys);
      }
    }

    /** `None` is the KeyError for an end missing on its home shard. */
    method AddEdge(source: Id, target: Id, relation: string, props: Option<Props>, keys: KeySource)
      returns (key: Option<nat>)
      requires Ready(keys)
      modifies this, shards, keys
      ensures Ready(keys) && flat == old(flat)
      ensures old(Mirrored(home, States())) ==> Mirrored(home, States())
      ensures key.Some? <==> source in flat && target in flat
      ensures key.None? ==> States() == old(States())
      ensures var i, j := home(source), home(target);
              i < |shards| && j < |shards| && source in flat && target in flat ==>
                var gs, e := old(States()), Edge(source, target, relation, OrEmpty(props));
                && source in gs[i].nodes && target in gs[j].nodes
                && key == Some(old(keys.next))
                && States() == WithEdge(gs, i, j, old(keys.next), e)
                && EdgeOn(gs, States(), i, j, e)
                && EndsCopied(gs, States(), i, j, source, target)
    {
      HomeBelow(home, States(), flat, source);
      HomeBelow(home, States(), flat, target);
      hide *;
      if source !in shards[home(source)].nodes {
        return None;
      }
      if target !in shards[home(target)].nodes {
        return None;
      }
      var e := Edge(source, target, relation, OrEmpty(props));
      var k := AddPresent(e, keys);
      return Some(k);
    }

    method AddPresent(e: Edge, keys: KeySource) returns (key: nat)
      requires Ready(keys) && home(e.source) < |shards| && home(e.target) < |shards|
      requires e.source in shards[home(e.source)].nodes && e.target in shards[home(e.target)].nodes
      modifies shards, keys
      ensures Ready(keys) && key == old(keys.next)
      ensures States() == WithEdge(old(States()), home(e.source), home(e.target), key, e)
      ensures EdgeOn(old(States()), States(), home(e.source), home(e.target), e)
      ensures EndsCopied(old(States()), States(), home(e.source), home(e.target), e.source, e.target)
      ensures old(Mirrored(home, States())) ==> Mirrored(home, States())
    {
      ghost var gs := States();
      WithEdgeCases(gs, home(e.source), home(e.target), keys.next, e);
      hide Agrees, AllValid, KeysFresh, Mirrored, WithEdge, WithGhosts;
      hide EdgeOn, EndsCopied;
      WithEdgeOn(gs, home(e.source), home(e.target), keys.next, e);
      WithEdgeCopied(gs, home(e.source), home(e.target), keys.next, e);
      if home(e.source) == home(e.target) {
        key := AddLocal(e, keys);
      } else {
        key := AddAcross(e, keys);
      }
      if Mirrored(home, gs) {
        WithEdgeMirrored(home, gs, States(), key, e);
      }
    }

    method AddAcross(e: Edge, keys: KeySource) returns (key: nat)
      requires Ready(keys) && home(e.source) < |shards| && home(e.target) < |shards| && home(e.source) != home(e.target)
      requires e.source in shards[home(e.source)].nodes && e.target in shards[home(e.target)].nodes
      modifies shards, keys
      ensures Ready(keys) && key == old(keys.next)
      ensures States() == WithEdge(old(States()), home(e.source), home(e.target), key, e)
    {
      hide Agrees, AllValid, KeysFresh, WithGhosts, WithEdge, SameEdges;
      ghost var gs := States();
      ghost var g2 := WithGhosts(gs, home(e.source), home(e.target), e.source, e.target);
      WithEdgeCases(gs, home(e.source), home(e.target), keys.next, e);
      ReplicateEnds(e.source, e.target, keys);
      assert States() == g2;
      key := AddCross(e, keys);
    }

    method AddLocal(e: Edge, keys: KeySource) returns (key: nat)
      requires Ready(keys) && home(e.source) == home(e.target) < |shards|
      requires e.source in shards[home(e.source)].nodes && e.target in shards[home(e.source)].nodes
      modifies shards, keys
      ensures Ready(keys) && key == old(keys.next)
      ensures var i := home(e.source);
              States() == old(States())[i := Multigraph.AddEdge(old(States())[i], key, e)]
    {
      ghost var gs := States();
      hide Agrees, AllValid, KeysFresh;
      key := AddTo(home(e.source), e, keys);
    }

    /** Adds the edge to one shard that has both ends. */
    method AddTo(i: nat, e: Edge, keys: KeySource) returns (key: nat)
      requires Separate() && Agrees(home, States(), flat) && AllValid(States()) && KeysFresh(States(), keys.next)
      requires i < |shards| && e.source in shards[i].nodes && e.target in shards[i].nodes
      modifies shards[i], keys
      ensures Agrees(home, States(), flat) && AllValid(States()) && KeysFresh(States(), keys.next)
      ensures States() == old(States()[i := Multigraph.AddEdge(States()[i], keys.next, e)])
      ensures key == old(keys.next) && keys.next == key + 1
    {
      ghost var gs := States();
      AddEdgeValid(gs[i], keys.next, e);
      EdgeKeepsAgrees(home, gs, flat, i, keys.next, e);
      var k := shards[i].AddEdge(keys, e.source, e.target, e.relation, Some(e.props));
      key := k.value;
      assert States() == gs[i := Multigraph.AddEdge(gs[i], key, e)];
    }

    /** Adds the edge on both sides; the key is that of the source's shard. */
    method AddCross(e: Edge, keys: KeySource) returns (key: nat)
      requires Ready(keys) && home(e.source) < |shards| && home(e.target) < |shards| && home(e.source) != home(e.target)
      requires e.source in shards[home(e.source)].nodes && e.target in shards[home(e.source)].nodes
      requires e.source in shards[home(e.target)].nodes && e.target in shards[home(e.target)].nodes
      modifies shards, keys
      ensures Ready(keys) && key == old(keys.next)
      ensures var gs, i, j := old(States()), home(e.source), home(e.target);
              States() == gs[i := Multigraph.AddEdge(gs[i], key, e)][j := Multigraph.AddEdge(gs[j], key + 1, e)]
    {
      ghost var gs := States();
      var i, j := home(e.source), home(e.target);
      assert shards[i] != shards[j];
      hide Agrees, AllValid, KeysFresh;
      key := AddTo(i, e, keys);
      assert shards[j].nodes == gs[j].nodes;
      var other := AddTo(j, e, keys);
    }

    method RemoveNode(id: Id, keys: KeySource) returns (found: bool)
      requires Ready(keys)
      modifies this, shards
      ensures Ready(keys)
      ensures found <==> id in old(flat)
      ensures flat == old(flat) - {id}
      ensures home(id) < |shards|
      ensures States() ==
              if found then old(States()[home(id) := RemoveNodes(States()[home(id)], {id})]) else old(States())
      ensures old(Mirrored(home, States())) ==>
                (Mirrored(home, States()) <==> !found || Unshared(home, old(States())[home(id)], id))
    {
      ghost var gs := States();
      HomeBelow(home, gs, flat, id);
      HomesBelow(home, gs, flat);
      hide Mirrored, Unshared, TotalHome, Agrees, AllValid, KeysFresh;
      var i := home(id);
      found := shards[i].RemoveNode(id);
      if found {
        assert States() == gs[i := RemoveNodes(gs[i], {id})];
        RemovalKeeps(home, gs, States(), flat, id, keys.next);
        flat := flat - {id};
      } else {
        assert States() == gs;
        assert flat - {id} == flat;
      }
      if found && Mirrored(home, gs) {
        RemovalMirrored(home, gs, States(), id);
      }
    }

    method GetNode(id: Id, keys: KeySource) returns (node: Option<Node>)
      requires Ready(keys)
      ensures node == if id in flat then Some(flat[id]) else None
    {
      HomeBelow(home, States(), flat, id);
      node := shards[home(id)].GetNode(id);
    }

    /** Everything any shard holds, ghost copies included. */
    ghost function AllHits(sim: Vector -> real): seq<seq<Hit>>
      reads shards
    {
      seq(|shards|, i requires 0 <= i < |shards| reads shards => Hits(shards[i].order, shards[i].nodes, sim, ""))
    }

    /** Merging the shards' top-k lists gives the stable top k of all they hold. */
    method QueryTopK(sim: Vector -> real, k: nat, keys: KeySource) returns (hits: seq<Hit>)
      requires Ready(keys)
      ensures hits == TopK(k, Concat(AllHits(sim)))
      ensures IsTopK(k, Concat(AllHits(sim)), hits)
    {
      var allResults: seq<Hit> := [];
      ghost var lists := TopKs(k, AllHits(sim));
      assert forall i :: 0 <= i < |shards| ==> Valid(States()[i]);
      hide Agrees, AllValid, KeysFresh, IsTopK, TopK, Concat, Hits, Valid;
      for i := 0 to |shards|
        invariant allResults == Concat(lists[..i])
      {
        assert Valid(States()[i]);
        var shardResults := Ranking.QuerySimilar(shards[i], sim, k, "");
        ConcatSnoc(lists[..i], lists[i]);
        assert lists[..i + 1] == lists[..i] + [lists[i]];
        allResults := allResults + shardResults;
      }
      assert lists[..|shards|] == lists;
      MergedTopK(k, AllHits(sim));
      hits := TopK(k, allResults);
      TopKIff(k, Concat(AllHits(sim)), hits);
    }
  }

  /** Gaining a node on its home shard keeps the shards in order. */
  lemma NodeKeeps(home: Home, gs: seq<Graph>, gs': seq<Graph>, flat: map<Id, Node>, id: Id, node: Node, next: nat)
    requires Agrees(home, gs, flat) && AllValid(gs) && KeysFresh(gs, next)
    requires home(id) < |gs| && gs' == gs[home(id) := AddNode(gs[home(id)], id, node)]
    ensures Agrees(home, gs', flat[id := node]) && AllValid(gs') && KeysFresh(gs', next)
    ensures Mirrored(home, gs) ==> Mirrored(home, gs')
  {
    HomeNode(home, gs, flat, id, node);
    AddNodeValid(gs[home(id)], id, node);
    if Mirrored(home, gs) {
      NodesKeepMirrored(home, gs, home(id), AddNode(gs[home(id)], id, node));
    }
  }

  /** Losing a node on its home shard keeps the shards in order. */
  lemma RemovalKeeps(home: Home, gs: seq<Graph>, gs': seq<Graph>, flat: map<Id, Node>, id: Id, next: nat)
    requires Agrees(home, gs, flat) && AllValid(gs) && KeysFresh(gs, next)
    requires home(id) < |gs| && gs' == gs[home(id) := RemoveNodes(gs[home(id)], {id})]
    ensures Agrees(home, gs', flat - {id}) && AllValid(gs') && KeysFresh(gs', next)
  {
    HomeRemoval(home, gs, flat, id);
    RemoveNodesValid(gs[home(id)], {id});
    AvoidingElements(gs[home(id)].edges, {id});
  }

  lemma HomesBelow(home: Home, gs: seq<Graph>, flat: map<Id, Node>)
    requires Agrees(home, gs, flat)
    ensures TotalHome(home, |gs|)
  {
    forall id ensures home(id) < |gs| {
      HomeBelow(home, gs, flat, id);
    }
  }

  lemma HomeBelow(home: Home, gs: seq<Graph>, flat: map<Id, Node>, id: Id)
    requires Agrees(home, gs, flat)
    ensures home(id) < |gs| && AgreesAt(gs[home(id)], flat, id)
  {
  }

  lemma {:induction false} ConcatSnoc(lists: seq<seq<Hit>>, last: seq<Hit>)
    ensures Concat(lists + [last]) == Concat(lists) + last
  {
    if |lists| > 0 {
      assert (lists + [last])[1..] == lists[1..] + [last];
      ConcatSnoc(lists[1..], last);
    }
  }
}
